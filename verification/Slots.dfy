// The slot array of the open-addressing hash table, as a value: what a probe
// sequence finds, when a slot array stands for a finite map, and how storing
// into a slot or clearing one changes that map.
module Slots {

  // The equivalence class of a key under the interpreter's key equality.  The
  // hash belongs to the class, so equal keys always hash alike.
  datatype KeyClass = KeyClass(name: int, hash: nat)

  // Two keys are equal when their classes are; `spelling` tells equal keys apart.
  datatype Key = Key(cls: KeyClass, spelling: int)

  datatype Slot<V> = Empty | Full(key: Key, value: V)

  // A mask of `cap - 1` on a power of two is a remainder by `cap`.
  function Home(c: KeyClass, cap: nat): (h: nat)
    requires cap > 0
    ensures h < cap
  {
    c.hash % cap
  }

  function Next(i: nat, cap: nat): (n: nat)
    requires i < cap
    ensures n < cap
  {
    if i + 1 == cap then 0 else i + 1
  }

  // Steps from slot i to slot j, going up and wrapping around.
  function Dist(i: nat, j: nat, cap: nat): (d: nat)
    requires i < cap && j < cap
    ensures d < cap && (d == 0 <==> i == j)
  {
    if i <= j then j - i else j - i + cap
  }

  // Slot k lies on the way from h up to, but not including, i (wrapping around).
  predicate InPath(h: nat, k: nat, i: nat) {
    if h <= i then h <= k < i else k >= h || k < i
  }

  // The state of a probe for class c that stopped at p: everything before p is
  // occupied by other keys, and p is free or holds c.
  ghost predicate IsSlotFor<V>(s: seq<Slot<V>>, c: KeyClass, p: nat) {
    && p < |s|
    && (s[p].Full? ==> s[p].key.cls == c)
    && forall k | 0 <= k < |s| && InPath(Home(c, |s|), k, p) :: s[k].Full? && s[k].key.cls != c
  }

  ghost predicate HasEmpty<V>(s: seq<Slot<V>>) {
    exists e :: 0 <= e < |s| && s[e].Empty?
  }

  ghost predicate Unique<V>(s: seq<Slot<V>>) {
    forall i, j | 0 <= i < j < |s| && s[i].Full? && s[j].Full? :: s[i].key.cls != s[j].key.cls
  }

  // The entry in slot i can be reached from its home slot.
  ghost predicate Reachable<V>(s: seq<Slot<V>>, i: nat)
    requires i < |s| && s[i].Full?
  {
    forall k | 0 <= k < |s| && InPath(Home(s[i].key.cls, |s|), k, i) :: s[k].Full?
  }

  ghost predicate Probeable<V>(s: seq<Slot<V>>) {
    forall i | 0 <= i < |s| && s[i].Full? :: Reachable(s, i)
  }

  function CountFull<V>(s: seq<Slot<V>>): (n: nat)
    ensures n <= |s|
  {
    if s == [] then 0 else CountFull(s[..|s| - 1]) + (if s[|s| - 1].Full? then 1 else 0)
  }

  ghost predicate Holds<V>(s: seq<Slot<V>>, c: KeyClass) {
    exists i :: 0 <= i < |s| && s[i].Full? && s[i].key.cls == c
  }

  // The slot array stands for the finite map m, each class to its occupied slot.
  ghost predicate Represents<V>(s: seq<Slot<V>>, m: map<KeyClass, Slot<V>>) {
    && Unique(s)
    && (forall i | 0 <= i < |s| && s[i].Full? :: s[i].key.cls in m && m[s[i].key.cls] == s[i])
    && (forall c | c in m :: Holds(s, c))
  }

  lemma {:induction false} CountUpdate<V>(s: seq<Slot<V>>, p: nat, x: Slot<V>)
    requires p < |s|
    ensures CountFull(s[p := x])
         == CountFull(s) + (if x.Full? then 1 else 0) - (if s[p].Full? then 1 else 0)
  {
    var n := |s| - 1;
    if p == n {
      assert s[p := x][..n] == s[..n];
    } else {
      assert s[p := x][..n] == s[..n][p := x];
      CountUpdate(s[..n], p, x);
    }
  }

  lemma {:induction false} CountAllFull<V>(s: seq<Slot<V>>)
    requires !HasEmpty(s)
    ensures CountFull(s) == |s|
  {
    if s != [] {
      var t := s[..|s| - 1];
      assert forall e | 0 <= e < |t| :: t[e] == s[e];
      CountAllFull(t);
    }
  }

  lemma {:induction false} CountAllEmpty<V>(s: seq<Slot<V>>)
    requires forall i | 0 <= i < |s| :: s[i].Empty?
    ensures CountFull(s) == 0
  {
    if s != [] {
      CountAllEmpty(s[..|s| - 1]);
    }
  }

  // A probe of a well-formed table finds the class if it is stored anywhere.
  lemma ProbeComplete<V>(s: seq<Slot<V>>, c: KeyClass, p: nat, i: nat)
    requires Unique(s) && Probeable(s) && IsSlotFor(s, c, p)
    requires i < |s| && s[i].Full? && s[i].key.cls == c
    ensures i == p
  {
    assert Reachable(s, i);
    var h := Home(c, |s|);
    assert i == p || InPath(h, i, p) || InPath(h, p, i);
  }

  // The map has the class exactly when the probe stopped on an occupied slot.
  lemma ProbeFinds<V>(s: seq<Slot<V>>, m: map<KeyClass, Slot<V>>, c: KeyClass, p: nat)
    requires Represents(s, m) && Probeable(s) && IsSlotFor(s, c, p)
    ensures c in m <==> s[p].Full?
    ensures s[p].Full? ==> m[c] == s[p]
  {
    if c in m {
      var i :| 0 <= i < |s| && s[i].Full? && s[i].key.cls == c;
      ProbeComplete(s, c, p, i);
    }
  }

  // A slot array stands for one map only.
  lemma RepresentsUnique<V>(s: seq<Slot<V>>, m: map<KeyClass, Slot<V>>, n: map<KeyClass, Slot<V>>)
    requires Represents(s, m) && Represents(s, n)
    ensures m == n
  {
    assert forall c | c in m :: Holds(s, c);
    assert forall c | c in n :: Holds(s, c);
  }

  // Storing a key where its probe stopped keeps every entry reachable.
  lemma StoreProbeable<V>(s: seq<Slot<V>>, p: nat, k: Key, v: V)
    requires Probeable(s) && IsSlotFor(s, k.cls, p)
    ensures Probeable(s[p := Full(k, v)])
  {
    var t := s[p := Full(k, v)];
    forall i | 0 <= i < |t| && t[i].Full? ensures Reachable(t, i) {
      if i != p {
        assert Reachable(s, i);
      }
    }
  }

  // Storing a key in slot p, given that no other slot holds an equal key.
  lemma StoreRepresents<V>(s: seq<Slot<V>>, m: map<KeyClass, Slot<V>>, p: nat, k: Key, v: V)
    requires Represents(s, m) && p < |s|
    requires s[p].Full? ==> s[p].key.cls == k.cls
    requires forall i | 0 <= i < |s| && s[i].Full? && s[i].key.cls == k.cls :: i == p
    ensures Represents(s[p := Full(k, v)], m[k.cls := Full(k, v)])
  {
    var t, n := s[p := Full(k, v)], m[k.cls := Full(k, v)];
    forall c | c in n ensures Holds(t, c) {
      if c == k.cls {
        assert t[p].key.cls == c;
      } else {
        assert Holds(s, c);
        var i :| 0 <= i < |s| && s[i].Full? && s[i].key.cls == c;
        assert t[i] == s[i];
      }
    }
  }

  lemma ClearRepresents<V>(s: seq<Slot<V>>, m: map<KeyClass, Slot<V>>, p: nat)
    requires Represents(s, m) && p < |s| && s[p].Full?
    ensures Represents(s[p := Empty], m - {s[p].key.cls})
  {
    var t := s[p := Empty];
    forall c | c in m && c != s[p].key.cls ensures Holds(t, c) {
      assert Holds(s, c);
      var i :| 0 <= i < |s| && s[i].Full? && s[i].key.cls == c;
      assert t[i] == s[i];
    }
  }

  // The map has as many bindings as there are occupied slots.
  lemma {:induction false} RepresentsSize<V>(s: seq<Slot<V>>, m: map<KeyClass, Slot<V>>)
    requires Represents(s, m)
    ensures |m| == CountFull(s)
  {
    if s == [] {
      assert forall c | c in m :: Holds(s, c);
      assert m == map[];
    } else {
      var n := |s| - 1;
      if s[n].Empty? {
        DropLast(s, m);
        RepresentsSize(s[..n], m);
      } else {
        DropLast(s, m);
        RepresentsSize(s[..n], m - {s[n].key.cls});
        assert m == (m - {s[n].key.cls})[s[n].key.cls := m[s[n].key.cls]];
      }
    }
  }

  lemma DropLast<V>(s: seq<Slot<V>>, m: map<KeyClass, Slot<V>>)
    requires Represents(s, m) && s != []
    ensures var n := |s| - 1;
            Represents(s[..n], if s[n].Empty? then m else m - {s[n].key.cls})
  {
    var n := |s| - 1;
    var t, r := s[..n], if s[n].Empty? then m else m - {s[n].key.cls};
    forall c | c in r ensures Holds(t, c) {
      assert Holds(s, c);
      var i :| 0 <= i < |s| && s[i].Full? && s[i].key.cls == c;
      assert t[i] == s[i];
    }
  }
}
