// The interpreter's hash table: linear probing under a mask, growth at three
// quarters full, and deletion that re-adds the rest of the cluster.
module Tables {
  import opened Slots

  ghost predicate PowerOfTwo(n: nat) {
    n == 1 || (n > 1 && n % 2 == 0 && PowerOfTwo(n / 2))
  }

  function GrowCapacity(capacity: nat): (n: nat)
    ensures n > capacity && n >= 8
    ensures capacity == 0 || PowerOfTwo(capacity) ==> PowerOfTwo(n)
  {
    if capacity < 8 then
      assert PowerOfTwo(2) && PowerOfTwo(4); 8
    else capacity * 2
  }

  // ---------- deleting from a cluster ----------

  // While a cluster is being re-added: the slots from `start` through `at` have
  // been treated, those after `at` and before the free slot `end` have not.  A
  // hole on the way to an entry lies in the treated part, and only entries of
  // the untreated part have one.
  ghost predicate MidDelete<V>(s: seq<Slot<V>>, start: nat, at: nat, end: nat) {
    && start < |s| && at < |s| && end < |s|
    && InPath(start, at, end) && s[end].Empty?
    && (forall k | 0 <= k < |s| && k != at && InPath(at, k, end) :: s[k].Full?)
    && (forall i | 0 <= i < |s| && s[i].Full? :: ReachableBut(s, start, at, end, i))
  }

  ghost predicate ReachableBut<V>(s: seq<Slot<V>>, start: nat, at: nat, end: nat, i: nat)
    requires i < |s| && s[i].Full?
  {
    forall k | 0 <= k < |s| && InPath(Home(s[i].key.cls, |s|), k, i) ::
      s[k].Full? || (Treated(start, k, at) && i != at && InPath(at, i, end))
  }

  predicate Treated(start: nat, k: nat, at: nat) {
    k == at || InPath(start, k, at)
  }

  // The first free slot after `start`.
  lemma ClusterEnd<V>(s: seq<Slot<V>>, start: nat, e: nat) returns (end: nat)
    requires start < |s| && e < |s| && s[start].Full? && s[e].Empty?
    ensures end < |s| && s[end].Empty?
    ensures forall k | 0 <= k < |s| && InPath(start, k, end) :: s[k].Full?
  {
    end := start;
    while s[end].Full?
      invariant end < |s| && !InPath(start, e, end)
      invariant forall k | 0 <= k < |s| && InPath(start, k, end) :: s[k].Full?
      decreases Dist(end, e, |s|)
    {
      end := Next(end, |s|);
    }
  }

  lemma DeleteStarts<V>(s: seq<Slot<V>>, start: nat, end: nat)
    requires Probeable(s) && start < |s| && end < |s| && s[start].Full? && s[end].Empty?
    requires forall k | 0 <= k < |s| && InPath(start, k, end) :: s[k].Full?
    ensures MidDelete(s[start := Empty], start, start, end)
  {
    var t := s[start := Empty];
    forall i | 0 <= i < |t| && t[i].Full? ensures ReachableBut(t, start, start, end, i) {
      assert Reachable(s, i);
      if InPath(Home(s[i].key.cls, |s|), start, i) {
        assert InPath(start, i, end) by {
          assert !InPath(Home(s[i].key.cls, |s|), end, i);
        }
      }
    }
  }

  // Re-adding one entry of the cluster: it lands in the treated part, never past
  // its old slot, and the free slot at the end of the cluster stays the same.
  lemma DeleteStep<V>(s: seq<Slot<V>>, start: nat, at: nat, end: nat, p: nat)
    requires Unique(s) && MidDelete(s, start, at, end)
    requires var next := Next(at, |s|);
             s[next].Full? && IsSlotFor(s[next := Empty], s[next].key.cls, p)
    ensures var next := Next(at, |s|);
            var t := s[next := Empty];
            && t[p].Empty? && Treated(start, p, next)
            && MidDelete(t[p := s[next]], start, next, end)
  {
    var next := Next(at, |s|);
    var t := s[next := Empty];
    var h := Home(s[next].key.cls, |s|);
    assert next != end;
    assert t[p].Empty?;
    assert ReachableBut(s, start, at, end, next);
    assert p == next || InPath(h, p, next) by {
      assert p == next || InPath(h, p, next) || InPath(h, next, p);
    }
    var u := t[p := s[next]];
    forall i | 0 <= i < |u| && u[i].Full? ensures ReachableBut(u, start, next, end, i) {
      if i != p {
        assert u[i] == s[i];
        StillReachable(s, start, at, end, p, i);
      }
    }
  }

  lemma StillReachable<V>(s: seq<Slot<V>>, start: nat, at: nat, end: nat, p: nat, i: nat)
    requires MidDelete(s, start, at, end)
    requires var next := Next(at, |s|);
             s[next].Full? && p < |s| && i < |s| && i != p && i != next && s[i].Full?
    ensures var next := Next(at, |s|);
            ReachableBut(s[next := Empty][p := s[next]], start, next, end, i)
  {
    var next := Next(at, |s|);
    var h := Home(s[i].key.cls, |s|);
    assert ReachableBut(s, start, at, end, i);
    if InPath(h, next, i) {
      assert !InPath(h, end, i);
      assert InPath(next, i, end);
    }
  }

  lemma DeleteEnds<V>(s: seq<Slot<V>>, start: nat, at: nat, end: nat)
    requires MidDelete(s, start, at, end) && s[Next(at, |s|)].Empty?
    ensures Next(at, |s|) == end && Probeable(s)
  {
    forall i | 0 <= i < |s| && s[i].Full? ensures Reachable(s, i) {
      assert ReachableBut(s, start, at, end, i);
    }
  }

  // ---------- copying a table slot by slot ----------

  // No entry of the first i slots has the key of slot i.
  lemma PrefixAbsent<V>(s: seq<Slot<V>>, i: nat, part: map<KeyClass, Slot<V>>)
    requires Unique(s) && i < |s| && s[i].Full? && Represents(s[..i], part)
    ensures s[i].key.cls !in part
  {
    assert s[i].key.cls in part ==> Holds(s[..i], s[i].key.cls);
  }

  lemma PrefixGrows<V>(s: seq<Slot<V>>, i: nat, part: map<KeyClass, Slot<V>>)
    requires Unique(s) && i < |s| && s[i].Full? && Represents(s[..i], part)
    ensures Represents(s[..i + 1], part[s[i].key.cls := s[i]])
  {
    var t, c0 := s[..i + 1], s[i].key.cls;
    PrefixAbsent(s, i, part);
    forall c | c in part[c0 := s[i]] ensures Holds(t, c) {
      if c == c0 {
        assert t[i] == s[i];
      } else {
        assert Holds(s[..i], c);
        var j :| 0 <= j < i && s[..i][j].Full? && s[..i][j].key.cls == c;
        assert t[j] == s[..i][j];
      }
    }
  }

  lemma PrefixSkips<V>(s: seq<Slot<V>>, i: nat, part: map<KeyClass, Slot<V>>)
    requires Unique(s) && i < |s| && s[i].Empty? && Represents(s[..i], part)
    ensures Represents(s[..i + 1], part)
  {
    var t := s[..i + 1];
    forall c | c in part ensures Holds(t, c) {
      assert Holds(s[..i], c);
      var j :| 0 <= j < i && s[..i][j].Full? && s[..i][j].key.cls == c;
      assert t[j] == s[..i][j];
    }
  }

  lemma Bound<V>(s: seq<Slot<V>>, m: map<KeyClass, Slot<V>>, i: nat)
    requires Represents(s, m) && i < |s| && s[i].Full?
    ensures Unique(s) && s[i].key.cls in m && m[s[i].key.cls] == s[i]
    ensures m - {s[i].key.cls} + map[s[i].key.cls := s[i]] == m
    ensures (m - {s[i].key.cls})[s[i].key.cls := s[i]] == m
  {
  }

  lemma SlotInRange<V>(s: seq<Slot<V>>, c: KeyClass, p: nat)
    requires IsSlotFor(s, c, p)
    ensures p < |s|
  {
  }

  // The probe for a key stops on the only slot that may hold an equal key.
  lemma SlotIsFree<V>(s: seq<Slot<V>>, m: map<KeyClass, Slot<V>>, k: Key, p: nat)
    requires Represents(s, m) && IsSlotFor(s, k.cls, p)
    requires k.cls !in m || Probeable(s)
    ensures forall i | 0 <= i < |s| && s[i].Full? && s[i].key.cls == k.cls :: i == p
    ensures s[p].Empty? <==> k.cls !in m
  {
    if k.cls in m {
      ProbeFinds(s, m, k.cls, p);
      forall i | 0 <= i < |s| && s[i].Full? && s[i].key.cls == k.cls ensures i == p {
        ProbeComplete(s, k.cls, p, i);
      }
    }
  }

  // After the first i slots have been copied, both arrays stand for the same map.
  ghost predicate Copied<V>(t: seq<Slot<V>>, s: seq<Slot<V>>, i: nat, part: map<KeyClass, Slot<V>>) {
    && i <= |s|
    && Represents(t, part) && Represents(s[..i], part)
    && Probeable(t) && CountFull(t) == CountFull(s[..i])
  }

  lemma CopyStarts<V>(t: seq<Slot<V>>, s: seq<Slot<V>>)
    requires forall i | 0 <= i < |t| :: t[i].Empty?
    ensures Copied(t, s, 0, map[])
    ensures CountFull(s[..0]) == 0
  {
    CountAllEmpty(t);
  }

  lemma CountStep<V>(s: seq<Slot<V>>, i: nat)
    requires i < |s|
    ensures CountFull(s[..i + 1]) == CountFull(s[..i]) + (if s[i].Full? then 1 else 0)
  {
    assert s[..i + 1][..i] == s[..i];
  }

  lemma CopySkips<V>(t: seq<Slot<V>>, s: seq<Slot<V>>, i: nat, part: map<KeyClass, Slot<V>>)
    requires Unique(s) && Copied(t, s, i, part) && i < |s| && s[i].Empty?
    ensures Copied(t, s, i + 1, part)
  {
    CountStep(s, i);
    PrefixSkips(s, i, part);
  }

  lemma CopyRoom<V>(t: seq<Slot<V>>, s: seq<Slot<V>>, i: nat, part: map<KeyClass, Slot<V>>)
    requires Copied(t, s, i, part) && |s| < |t|
    ensures HasEmpty(t)
  {
    if !HasEmpty(t) {
      CountAllFull(t);
    }
  }

  lemma CopyStep<V>(t: seq<Slot<V>>, s: seq<Slot<V>>, i: nat, part: map<KeyClass, Slot<V>>, p: nat)
    requires Unique(s) && Copied(t, s, i, part) && i < |s| && s[i].Full?
    requires IsSlotFor(t, s[i].key.cls, p)
    ensures Copied(t[p := s[i]], s, i + 1, part[s[i].key.cls := s[i]])
  {
    CountStep(s, i);
    PrefixAbsent(s, i, part);
    PrefixGrows(s, i, part);
    Stored(t, part, s[i].key, s[i].value, p);
  }

  lemma CopyEnds<V>(t: seq<Slot<V>>, s: seq<Slot<V>>, m: map<KeyClass, Slot<V>>, part: map<KeyClass, Slot<V>>)
    requires Represents(s, m) && Copied(t, s, |s|, part)
    ensures m == part && Represents(t, m) && Probeable(t) && CountFull(t) == CountFull(s)
    ensures CountFull(s[..|s|]) == CountFull(s)
  {
    assert s[..|s|] == s;
    RepresentsUnique(s, m, part);
  }

  // Storing a key where its probe stopped.
  lemma Stored<V>(s: seq<Slot<V>>, m: map<KeyClass, Slot<V>>, k: Key, v: V, p: nat)
    requires Represents(s, m) && IsSlotFor(s, k.cls, p)
    requires k.cls !in m || Probeable(s)
    ensures var t := s[p := Full(k, v)];
            && Represents(t, m[k.cls := Full(k, v)])
            && CountFull(t) == CountFull(s) + (if k.cls !in m then 1 else 0)
            && (Probeable(s) ==> Probeable(t))
            && (s[p].Empty? <==> k.cls !in m)
  {
    SlotIsFree(s, m, k, p);
    CountUpdate(s, p, Full(k, v));
    StoreRepresents(s, m, p, k, v);
    if Probeable(s) {
      StoreProbeable(s, p, k, v);
    }
  }

  // ---------- the table ----------

  class Table<V(==)> {
    var count: int
    // One less than the number of slots; -1 for a table without any.
    var capacityMask: int
    // Slots.Length == 0 stands for a null entries pointer.
    var entries: array<Slot<V>>
    // The finite map this table stands for.
    ghost var M: map<KeyClass, Slot<V>>

    // Everything but the probe order, which deletion breaks for a while.
    ghost predicate Sane()
      reads this, entries
    {
      && entries.Length == capacityMask + 1
      && count == CountFull(entries[..]) && 4 * count <= 3 * entries.Length
      && Represents(entries[..], M)
      && (entries.Length == 0 || PowerOfTwo(entries.Length))
    }

    ghost predicate Valid()
      reads this, entries
    {
      Sane() && Probeable(entries[..])
    }

    constructor ()
      ensures Valid() && M == map[] && entries.Length == 0 && fresh(entries)
    {
      count := 0;
      capacityMask := -1;
      entries := new Slot<V>[0];
      M := map[];
    }

    constructor WithCapacity(capa: nat)
      requires capa == 0 || PowerOfTwo(capa)
      ensures Valid() && M == map[] && entries.Length == capa && fresh(entries)
    {
      count := 0;
      capacityMask := capa - 1;
      entries := new Slot<V>[capa](_ => Empty);
      M := map[];
      new;
      CountAllEmpty(entries[..]);
    }

    static method FindEntry(entries: array<Slot<V>>, capacityMask: int, key: Key) returns (index: nat)
      requires entries.Length == capacityMask + 1 && HasEmpty(entries[..])
      ensures IsSlotFor(entries[..], key.cls, index)
    {
      ghost var e :| 0 <= e < entries.Length && entries[..][e].Empty?;
      var cap := capacityMask + 1;
      index := Home(key.cls, cap);
      while true
        invariant index < cap
        invariant forall k | 0 <= k < cap && InPath(Home(key.cls, cap), k, index) ::
          entries[k].Full? && entries[k].key.cls != key.cls
        decreases Dist(index, e, cap)
      {
        if entries[index].Empty? || entries[index].key.cls == key.cls {
          return;
        }
        index := Next(index, cap);
      }
    }

    lemma RoomLeft()
      requires Sane() && entries.Length > 0
      ensures HasEmpty(entries[..])
    {
      if !HasEmpty(entries[..]) {
        CountAllFull(entries[..]);
      }
    }

    // Moves every entry into a larger slot array.
    method Resize(newMask: int)
      requires Sane() && newMask + 1 > entries.Length && PowerOfTwo(newMask + 1)
      requires 4 * count <= 3 * (newMask + 1)
      modifies this
      ensures Valid() && M == old(M) && count == old(count)
      ensures capacityMask == newMask && fresh(entries)
    {
      var fresher := new Slot<V>[newMask + 1](_ => Empty);
      ghost var was := entries[..];
      CopyStarts(fresher[..], was);
      hide *;
      count := 0;
      ghost var part: map<KeyClass, Slot<V>> := map[];
      for i := 0 to entries.Length
        invariant entries == old(entries) && fresh(fresher) && entries[..] == was
        invariant capacityMask == old(capacityMask) && M == old(M)
        invariant Copied(fresher[..], was, i, part) && count == CountFull(was[..i])
      {
        var entry := entries[i];
        CountStep(was, i);
        if entry.Full? {
          part := CopyEntry(fresher, newMask, entry, i, part);
          count := count + 1;
        } else {
          CopySkips(fresher[..], was, i, part);
        }
      }
      CopyEnds(fresher[..], was, M, part);
      entries := fresher;
      capacityMask := newMask;
    }

    // One entry of Resize's loop.
    method CopyEntry(fresher: array<Slot<V>>, newMask: int, entry: Slot<V>, ghost i: nat,
                     ghost part: map<KeyClass, Slot<V>>)
      returns (ghost next: map<KeyClass, Slot<V>>)
      requires fresher != entries && fresher.Length == newMask + 1
      requires i < entries.Length < fresher.Length && entry == entries[i] && entry.Full?
      requires Unique(entries[..]) && Copied(fresher[..], entries[..], i, part)
      modifies fresher
      ensures Copied(fresher[..], entries[..], i + 1, next)
    {
      ghost var was := fresher[..];
      CopyRoom(was, entries[..], i, part);
      hide *;
      var index := FindEntry(fresher, newMask, entry.key);
      SlotInRange(was, entry.key.cls, index);
      fresher[index] := Full(entry.key, entry.value);
      assert fresher[..] == was[index := Full(entry.key, entry.value)];
      CopyStep(was, entries[..], i, part, index);
      next := part[entry.key.cls := entry];
    }

    // Binds the key, growing the table first when it would be over three
    // quarters full.  The probe order may be broken only for a key not in the table.
    method Set(key: Key, value: V) returns (isNewKey: bool, ghost index: nat)
      requires Sane() && (key.cls !in M || Probeable(entries[..]))
      modifies this, entries
      ensures Sane() && (old(Valid()) ==> Valid())
      ensures M == old(M)[key.cls := Full(key, value)]
      ensures isNewKey <==> key.cls !in old(M)
      ensures count == old(count) + (if isNewKey then 1 else 0)
      ensures entries.Length == if 4 * (old(count) + 1) > 3 * old(entries.Length)
                                then (if old(entries.Length) < 8 then 8 else 2 * old(entries.Length))
                                else old(entries.Length)
      ensures fresh(entries) || entries == old(entries)
      ensures 4 * (old(count) + 1) <= 3 * old(entries.Length) ==>
                && entries == old(entries)
                && IsSlotFor(old(entries[..]), key.cls, index)
                && entries[..] == old(entries[..])[index := Full(key, value)]
    {
      hide Represents, Probeable, IsSlotFor, CountFull, HasEmpty, PowerOfTwo;
      if 4 * (count + 1) > 3 * (capacityMask + 1) {
        Resize(GrowCapacity(capacityMask + 1) - 1);
      }
      RoomLeft();
      ghost var was := entries[..];
      var i := FindEntry(entries, capacityMask, key);
      index := i;
      SlotInRange(was, key.cls, i);
      Stored(was, M, key, value, i);
      isNewKey := entries[i].Empty?;
      entries[i] := Full(key, value);
      assert entries[..] == was[i := Full(key, value)];
      M := M[key.cls := Full(key, value)];
      if isNewKey {
        count := count + 1;
      }
    }

    // Looks a key up; `value` is meaningful only when the key was found.
    method Get(key: Key, def: V) returns (found: bool, value: V)
      requires Valid()
      ensures found <==> key.cls in M
      ensures value == if key.cls in M then M[key.cls].value else def
    {
      if entries.Length == 0 {
        assert forall c | c in M :: Holds(entries[..], c);
        return false, def;
      }
      RoomLeft();
      var index := FindEntry(entries, capacityMask, key);
      ProbeFinds(entries[..], M, key.cls, index);
      match entries[index]
      case Empty => return false, def;
      case Full(_, v) => return true, v;
    }

    // Removes a key by clearing its slot and re-adding the rest of its cluster,
    // which never resizes the table and stops at the cluster's own free slot.
    method Delete(key: Key) returns (removed: bool)
      requires Valid()
      modifies this, entries
      ensures Valid() && entries == old(entries)
      ensures removed <==> key.cls in old(M)
      ensures M == old(M) - {key.cls}
      ensures count == old(count) - (if removed then 1 else 0)
    {
      if count == 0 {
        RepresentsSize(entries[..], M);
        return false;
      }
      RoomLeft();
      var index := FindEntry(entries, capacityMask, key);
      ProbeFinds(entries[..], M, key.cls, index);
      if entries[index].Empty? {
        return false;
      }
      ghost var e :| 0 <= e < entries.Length && entries[..][e].Empty?;
      ghost var end := ClusterEnd(entries[..], index, e);
      DeleteStarts(entries[..], index, end);
      ClearSlot(index);
      ReAddCluster(index, end);
      return true;
    }

    // Re-adds the entries after a cleared slot, up to the first free one.
    method ReAddCluster(start: nat, ghost end: nat)
      requires Sane() && MidDelete(entries[..], start, start, end)
      requires 4 * (count + 1) <= 3 * entries.Length
      modifies this, entries
      ensures Valid() && entries == old(entries) && count == old(count) && M == old(M)
    {
      hide Represents, Probeable, IsSlotFor, CountFull, HasEmpty, PowerOfTwo, Unique;
      ghost var at: nat := start;
      var index := Next(start, capacityMask + 1);
      while entries[index].Full?
        invariant Sane() && entries == old(entries) && count == old(count) && M == old(M)
        invariant at < entries.Length && index == Next(at, entries.Length)
        invariant MidDelete(entries[..], start, at, end)
        decreases Dist(index, end, entries.Length)
      {
        ReAdd(start, at, end, index);
        at := index;
        index := Next(index, capacityMask + 1);
      }
      DeleteEnds(entries[..], start, at, end);
    }

    method ClearSlot(index: nat)
      requires Sane() && index < entries.Length && entries[index].Full?
      modifies this`count, this`M, entries
      ensures Sane() && count == old(count) - 1
      ensures M == old(M) - {old(entries[index]).key.cls}
      ensures entries[..] == old(entries[..])[index := Empty]
    {
      hide Represents, Probeable, IsSlotFor, CountFull, HasEmpty, PowerOfTwo, Unique;
      CountUpdate(entries[..], index, Empty);
      ClearRepresents(entries[..], M, index);
      ghost var was := entries[..];
      M := M - {entries[index].key.cls};
      entries[index] := Empty;
      count := count - 1;
      assert entries[..] == was[index := Empty];
    }

    // One round of Delete's loop.
    method ReAdd(ghost start: nat, ghost at: nat, ghost end: nat, index: nat)
      requires Sane() && MidDelete(entries[..], start, at, end)
      requires index == Next(at, entries.Length) && entries[index].Full?
      requires 4 * (count + 1) <= 3 * entries.Length
      modifies this, entries
      ensures Sane() && entries == old(entries) && count == old(count) && M == old(M)
      ensures MidDelete(entries[..], start, index, end)
    {
      ghost var was := entries[..];
      var entry := entries[index];
      Bound(was, M, index);
      hide Represents, Probeable, IsSlotFor, CountFull, HasEmpty, PowerOfTwo, MidDelete, Unique;
      ClearSlot(index);
      var isNew, p := Set(entry.key, entry.value);
      DeleteStep(was, start, at, end, p);
    }
  }

  // ---------- whole runs ----------

  datatype TableOp<V> = SetKey(key: Key, value: V) | DeleteKey(key: Key)

  // The finite map that the same operations build.
  function AfterOps<V>(m: map<KeyClass, Slot<V>>, ops: seq<TableOp<V>>): map<KeyClass, Slot<V>> {
    if ops == [] then m
    else
      var before := AfterOps(m, ops[..|ops| - 1]);
      match ops[|ops| - 1]
      case SetKey(key, value) => before[key.cls := Full(key, value)]
      case DeleteKey(key) => before - {key.cls}
  }

  // After any run of settings and deletions the table is the finite map that they build,
  // its count is that map's size, and its capacity is none or a power of two of at least
  // eight, a quarter of it free.
  method RunOps<V>(t: Table<V>, ops: seq<TableOp<V>>)
    requires t.Valid() && (t.entries.Length == 0 || t.entries.Length >= 8)
    modifies t, t.entries
    ensures t.Valid() && t.M == AfterOps(old(t.M), ops) && t.count == |t.M|
    ensures t.entries.Length == 0 || (t.entries.Length >= 8 && PowerOfTwo(t.entries.Length))
    ensures 4 * t.count <= 3 * t.entries.Length
  {
    hide PowerOfTwo, CountFull, Represents, Probeable;
    for i := 0 to |ops|
      invariant t.Valid() && t.M == AfterOps(old(t.M), ops[..i])
      invariant t.entries.Length == 0 || t.entries.Length >= 8
      invariant t.entries == old(t.entries) || fresh(t.entries)
    {
      assert ops[..i + 1][..i] == ops[..i];
      match ops[i]
      case SetKey(key, value) =>
        ghost var index;
        var isNew;
        isNew, index := t.Set(key, value);
      case DeleteKey(key) =>
        var removed := t.Delete(key);
    }
    assert ops[..|ops|] == ops;
    RepresentsSize(t.entries[..], t.M);
  }
}
