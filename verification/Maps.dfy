// Map-level operations that walk the slots of a table: copying, merging,
// rehashing, comparing, and iterating.
module Maps {
  import opened Slots
  import opened Tables

  datatype Option<T> = None | Some(value: T)

  // The occupied slots in slot order, as a walk over the table meets them.
  function Listed<V>(s: seq<Slot<V>>): (r: seq<Slot<V>>)
    ensures |r| == CountFull(s)
    ensures forall e | e in r :: e.Full?
  {
    if s == [] then []
    else Listed(s[..|s| - 1]) + (if s[|s| - 1].Full? then [s[|s| - 1]] else [])
  }

  // The list has every binding of the map once and nothing else.
  ghost predicate Enumerates<V>(l: seq<Slot<V>>, m: map<KeyClass, Slot<V>>) {
    && |l| == |m|
    && (forall i | 0 <= i < |l| :: l[i].Full? && l[i].key.cls in m && m[l[i].key.cls] == l[i])
    && (forall i, j | 0 <= i < j < |l| && l[i].Full? && l[j].Full? :: l[i].key.cls != l[j].key.cls)
    && (forall c | c in m :: m[c] in l)
  }

  lemma EnumeratesMore<V>(l: seq<Slot<V>>, m: map<KeyClass, Slot<V>>, e: Slot<V>)
    requires e.Full? && e.key.cls in m && m[e.key.cls] == e
    requires Enumerates(l, m - {e.key.cls})
    ensures Enumerates(l + [e], m)
  {
    var c0 := e.key.cls;
    assert m == (m - {c0})[c0 := e];
    forall c | c in m ensures m[c] in l + [e] {
      if c != c0 {
        assert c in m - {c0};
      }
    }
  }

  // A walk over the slots meets every binding of the map once and nothing else.
  lemma {:induction false} ListedEnumerates<V>(s: seq<Slot<V>>, m: map<KeyClass, Slot<V>>)
    requires Represents(s, m)
    ensures Enumerates(Listed(s), m)
  {
    if s == [] {
      assert forall c | c in m :: Holds(s, c);
      assert m == map[];
    } else {
      var n := |s| - 1;
      DropLast(s, m);
      if s[n].Empty? {
        ListedEnumerates(s[..n], m);
      } else {
        ListedEnumerates(s[..n], m - {s[n].key.cls});
        EnumeratesMore(Listed(s[..n]), m, s[n]);
      }
    }
  }

  lemma {:induction false} ListedPrefix<V>(s: seq<Slot<V>>, i: nat)
    requires i <= |s|
    ensures Listed(s[..i]) <= Listed(s)
  {
    if i < |s| {
      assert s[..|s| - 1][..i] == s[..i];
      ListedPrefix(s[..|s| - 1], i);
    } else {
      assert s[..i] == s;
    }
  }

  // The n-th occupied slot, and its rank again, or rank -1 when there is none.
  method NthEntry<V>(table: Table<V>, n: nat) returns (entry: Slot<V>, entryIndex: int)
    requires table.Valid()
    ensures n < table.count ==> entry == Listed(table.entries[..])[n] && entryIndex == n
    ensures n >= table.count ==> entryIndex == -1
  {
    entry := Empty;
    var rank := 0;
    ghost var s := table.entries[..];
    if table.count > 0 {
      for i := 0 to table.capacityMask + 1
        invariant rank <= n && rank == |Listed(s[..i])|
      {
        assert s[..i + 1][..i] == s[..i];
        ListedPrefix(s, i + 1);
        entry := table.entries[i];
        if entry.Full? {
          if n == rank {
            return entry, rank;
          }
          rank := rank + 1;
        }
      }
      assert s[..|s|] == s;
    }
    return entry, -1;
  }

  // A step over a map: the k-th call yields the k-th occupied slot, then nothing.
  class MapIterator<V(==)> {
    const table: Table<V>
    var index: int

    constructor (table: Table<V>)
      ensures this.table == table && index == -1
    {
      this.table := table;
      index := -1;
    }

    method Next() returns (r: Option<Slot<V>>)
      requires table.Valid() && index >= -1
      modifies this
      ensures index == old(index) + 1
      ensures r == if index < |Listed(table.entries[..])| then Some(Listed(table.entries[..])[index]) else None
    {
      index := index + 1;
      if index >= table.count {
        return None;
      }
      var e, realIndex := NthEntry(table, index);
      return Some(e);
    }
  }

  // Binds every entry of `from` in `to`, which may be the same table.
  method AddAll<V>(from: Table<V>, to: Table<V>)
    requires from.Valid() && to.Valid()
    requires from == to || from.entries != to.entries
    modifies to, to.entries
    ensures to.Valid() && to.M == old(to.M) + old(from.M)
    ensures fresh(to.entries) || to.entries == old(to.entries)
  {
    ghost var part: map<KeyClass, Slot<V>> := map[];
    var i := 0;
    while i < from.capacityMask + 1
      invariant 0 <= i && from.Valid() && to.Valid()
      invariant fresh(to.entries) || to.entries == old(to.entries)
      invariant from == to ==> to.M == old(to.M)
      invariant from != to ==>
        && from.entries == old(from.entries) && from.entries[..] == old(from.entries[..])
        && from.M == old(from.M) && i <= from.entries.Length
        && Represents(from.entries[..i], part) && to.M == old(to.M) + part
      decreases if from == to && 4 * (to.count + 1) > 3 * to.entries.Length then 1 else 0,
                from.entries.Length - i
    {
      ghost var done := part;
      part := AddSlot(from, to, i, part);
      AndSlotSum(old(to.M), done, old(from.entries[..]), i);
      i := i + 1;
    }
    if from != to {
      assert from.entries[..i] == from.entries[..];
      RepresentsUnique(from.entries[..], from.M, part);
    }
  }

  ghost function AndSlot<V>(m: map<KeyClass, Slot<V>>, e: Slot<V>): map<KeyClass, Slot<V>> {
    if e.Full? then m[e.key.cls := e] else m
  }

  lemma AndSlotSum<V>(m: map<KeyClass, Slot<V>>, part: map<KeyClass, Slot<V>>, s: seq<Slot<V>>, i: nat)
    ensures i < |s| ==> AndSlot(m + part, s[i]) == m + AndSlot(part, s[i])
  {
  }

  // One round of AddAll's loop.
  method AddSlot<V>(from: Table<V>, to: Table<V>, i: nat, ghost part: map<KeyClass, Slot<V>>)
    returns (ghost next: map<KeyClass, Slot<V>>)
    requires from.Valid() && to.Valid() && i < from.entries.Length
    requires from != to ==> from.entries != to.entries && Represents(from.entries[..i], part)
    modifies to, to.entries
    ensures to.Valid() && from.Valid()
    ensures fresh(to.entries) || to.entries == old(to.entries)
    ensures from == to ==>
      && to.M == old(to.M) && to.count == old(to.count)
      && (to.entries == old(to.entries)
          || (4 * (to.count + 1) <= 3 * to.entries.Length && 4 * (to.count + 1) > 3 * old(to.entries.Length)))
    ensures from != to ==>
      && unchanged(from) && unchanged(from.entries)
      && Represents(from.entries[..i + 1], next)
      && next == AndSlot(part, from.entries[i]) && to.M == AndSlot(old(to.M), from.entries[i])
  {
    hide Represents, Unique, Probeable, CountFull, PowerOfTwo, IsSlotFor;
    var entry := from.entries[i];
    ghost var was := from.entries[..];
    next := AndSlot(part, entry);
    RepresentsOnce(was, from.M);
    if entry.Full? {
      SameBound(was, from.M, i);
      if from != to {
        PrefixGrows(was, i, part);
      }
      var isNew, p := to.Set(entry.key, entry.value);
    } else if from != to {
      PrefixSkips(was, i, part);
    }
  }

  lemma RepresentsOnce<V>(s: seq<Slot<V>>, m: map<KeyClass, Slot<V>>)
    requires Represents(s, m)
    ensures Unique(s)
  {
  }

  lemma SameBound<V>(s: seq<Slot<V>>, m: map<KeyClass, Slot<V>>, i: nat)
    requires Represents(s, m) && i < |s| && s[i].Full?
    ensures s[i].key.cls in m && m[s[i].key.cls := s[i]] == m && s[i] == Full(s[i].key, s[i].value)
  {
    Bound(s, m, i);
  }

  // Equality of maps: the same object, or the same number of bindings with every
  // binding of the one found in the other.  The value `any` only fills an out
  // variable that a failed lookup leaves alone.
  method MapEquals<V(==)>(a: Table<V>, b: Table<V>, any: V) returns (equal: bool)
    requires a.Valid() && b.Valid()
    ensures equal <==> SameBindings(a.M, b.M)
  {
    ghost var s, t := a.entries[..], b.entries[..];
    SameObject(s, a.M);
    RepresentsSize(s, a.M);
    RepresentsSize(t, b.M);
    if a == b {
      return true;
    }
    if a.count != b.count {
      SameSize(a.M, b.M);
      return false;
    }
    equal := EveryEntryIn(a, b, any);
  }

  // MapEquals's loop, which looks for every entry of `a` in `b` only.
  method EveryEntryIn<V(==)>(a: Table<V>, b: Table<V>, any: V) returns (equal: bool)
    requires a.Valid() && b.Valid() && |a.M| == |b.M| && a.count == |a.M|
    ensures equal <==> SameBindings(a.M, b.M)
  {
    ghost var s, t := a.entries[..], b.entries[..];
    assert Represents(s, a.M) && Represents(t, b.M);
    assert a.entries.Length == a.capacityMask + 1 && AgreeUpTo(s, b.M, 0);
    hide *;
    if a.count > 0 {
      for i := 0 to a.capacityMask + 1
        invariant AgreeUpTo(s, b.M, i)
      {
        var e := a.entries[i];
        if e.Full? {
          var found, v := b.Get(e.key, any);
          if !found || e.value != v {
            Differs(s, a.M, t, b.M, i);
            return false;
          }
          AgreesAt(s, t, b.M, i);
        } else {
          AgreesSkip(s, b.M, i);
        }
      }
    }
    AllAgree(s, a.M, t, b.M);
    return true;
  }

  ghost predicate AgreeUpTo<V>(s: seq<Slot<V>>, n: map<KeyClass, Slot<V>>, i: nat) {
    i <= |s| && forall j | 0 <= j < i && s[j].Full? :: Agrees(n, s[j])
  }

  lemma AgreesSkip<V>(s: seq<Slot<V>>, n: map<KeyClass, Slot<V>>, i: nat)
    requires AgreeUpTo(s, n, i) && i < |s| && s[i].Empty?
    ensures AgreeUpTo(s, n, i + 1)
  {
  }

  lemma AgreesAt<V>(s: seq<Slot<V>>, t: seq<Slot<V>>, n: map<KeyClass, Slot<V>>, i: nat)
    requires Represents(t, n) && i < |s| && s[i].Full?
    requires s[i].key.cls in n && n[s[i].key.cls].value == s[i].value
    requires AgreeUpTo(s, n, i)
    ensures AgreeUpTo(s, n, i + 1)
  {
    SlotFull(t, n, s[i].key.cls);
  }

  lemma Differs<V>(s: seq<Slot<V>>, m: map<KeyClass, Slot<V>>, t: seq<Slot<V>>, n: map<KeyClass, Slot<V>>, i: nat)
    requires Represents(s, m) && Represents(t, n) && i < |s| && s[i].Full?
    requires s[i].key.cls in n ==> n[s[i].key.cls].value != s[i].value
    ensures !SameBindings(m, n)
  {
    Bound(s, m, i);
  }

  lemma SlotFull<V>(s: seq<Slot<V>>, m: map<KeyClass, Slot<V>>, c: KeyClass)
    requires Represents(s, m) && c in m
    ensures m[c].Full?
  {
    assert Holds(s, c);
  }

  lemma SameObject<V>(s: seq<Slot<V>>, m: map<KeyClass, Slot<V>>)
    requires Represents(s, m)
    ensures SameBindings(m, m)
  {
    forall c | c in m ensures m[c].Full? {
      SlotFull(s, m, c);
    }
  }

  // Equal sizes and agreement one way make two maps equal.
  lemma AllAgree<V>(s: seq<Slot<V>>, m: map<KeyClass, Slot<V>>, t: seq<Slot<V>>, n: map<KeyClass, Slot<V>>)
    requires Represents(s, m) && Represents(t, n) && |m| == |n|
    requires |m| > 0 ==> AgreeUpTo(s, n, |s|)
    ensures SameBindings(m, n)
  {
    forall c | c in m ensures c in n && m[c].Full? && n[c].Full? && m[c].value == n[c].value {
      assert Holds(s, c);
      var j :| 0 <= j < |s| && s[j].Full? && s[j].key.cls == c;
      assert m[c] == s[j] && |m| > 0;
      assert Agrees(n, s[j]);
    }
    KeysCover(m, n);
  }

  predicate Agrees<V(==)>(m: map<KeyClass, Slot<V>>, e: Slot<V>)
    requires e.Full?
  {
    e.key.cls in m && m[e.key.cls].Full? && m[e.key.cls].value == e.value
  }

  // The two maps bind equal keys to equal values, whichever way the keys are spelt.
  ghost predicate SameBindings<V>(m: map<KeyClass, Slot<V>>, n: map<KeyClass, Slot<V>>) {
    && m.Keys == n.Keys
    && forall c | c in m :: m[c].Full? && n[c].Full? && m[c].value == n[c].value
  }

  lemma SameSize<V>(m: map<KeyClass, Slot<V>>, n: map<KeyClass, Slot<V>>)
    requires |m| != |n|
    ensures !SameBindings(m, n)
  {
    assert |m.Keys| == |m| && |n.Keys| == |n|;
  }

  // Equal sizes and one inclusion make the key sets equal.
  lemma KeysCover<V>(m: map<KeyClass, Slot<V>>, n: map<KeyClass, Slot<V>>)
    requires |m| == |n| && forall c | c in m :: c in n
    ensures m.Keys == n.Keys
  {
    assert |m.Keys| == |m| && |n.Keys| == |n|;
    var extra := n.Keys - m.Keys;
    assert m.Keys <= n.Keys && n.Keys == m.Keys + extra;
    assert |n.Keys| == |m.Keys| + |extra|;
  }

  ghost function Without<V>(m: map<KeyClass, Slot<V>>, keys: seq<Key>): map<KeyClass, Slot<V>> {
    m - (set k | k in keys :: k.cls)
  }

  lemma WithoutNone<V>(m: map<KeyClass, Slot<V>>)
    ensures Without(m, []) == m
  {
  }

  lemma WithoutMore<V>(m: map<KeyClass, Slot<V>>, keys: seq<Key>, i: nat)
    requires i < |keys|
    ensures Without(m, keys[..i + 1]) == Without(m, keys[..i]) - {keys[i].cls}
  {
    assert keys[..i + 1] == keys[..i] + [keys[i]];
  }

  // A map object of the interpreter, around the table it owns.
  class LoxMap<V(==)> {
    var table: Table<V>
    var frozen: bool

    constructor (table: Table<V>)
      ensures this.table == table && !frozen
    {
      this.table := table;
      frozen := false;
    }

    // Adds the bindings of `other`, overriding; refused for a frozen map.
    method MergeWith(other: LoxMap<V>) returns (ok: bool)
      requires table.Valid() && other.table.Valid()
      requires other.table == table || other.table.entries != table.entries
      modifies table, table.entries
      ensures ok <==> !frozen
      ensures table.Valid()
      ensures table.M == if frozen then old(table.M) else old(table.M) + old(other.table.M)
    {
      if frozen {
        return false;
      }
      AddAll(other.table, table);
      return true;
    }

    // Removes the given keys and counts those that were there; refused for a frozen map.
    method DeleteKeys(keys: seq<Key>) returns (ok: bool, deleted: nat)
      requires table.Valid()
      modifies table, table.entries
      ensures ok <==> !frozen
      ensures table.Valid()
      ensures table.M == if frozen then old(table.M) else Without(old(table.M), keys)
      ensures deleted == |old(table.M)| - |table.M|
    {
      hide Represents, Probeable, CountFull, PowerOfTwo, Without;
      deleted := 0;
      if frozen {
        return false, 0;
      }
      ok := true;
      WithoutNone(table.M);
      ghost var start := table.M;
      for i := 0 to |keys|
        invariant table.Valid() && table.entries == old(table.entries)
        invariant table.M == Without(start, keys[..i])
        invariant deleted == |start| - |table.M|
      {
        WithoutMore(start, keys, i);
        RepresentsSize(table.entries[..], table.M);
        var removed := table.Delete(keys[i]);
        RepresentsSize(table.entries[..], table.M);
        if removed {
          deleted := deleted + 1;
        }
      }
      assert keys[..|keys|] == keys;
    }

    // Puts all bindings into a new table of the same capacity.
    method Rehash() returns (ok: bool)
      requires table.Valid()
      modifies this
      ensures ok <==> !frozen
      ensures table.Valid() && table.M == old(table.M)
      ensures ok ==> fresh(table)
    {
      if frozen {
        return false;
      }
      var mapNew := new Table<V>.WithCapacity(table.entries.Length);
      AddAll(table, mapNew);
      table := mapNew;
      return true;
    }
  }
}
