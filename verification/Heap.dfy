// The slot heap of the collector as a value: cells, paths between them, marks and
// the links of the free list.
module Heaps {
  const GC_GEN_MIN := 0
  const GC_GEN_MAX := 4
  const HEAP_SLOTS := 10000
  const YOUNG_MARK_STACK_MAX := 5000
  const FREE_MIN := 500

  datatype Ptr = Null | At(addr: nat)

  // A slot: used when it holds an object, which points to the slots in fields.
  datatype Cell = Cell(used: bool, gen: nat, dark: bool, hidden: bool, fields: seq<nat>, nextFree: Ptr)

  type Heap = seq<Cell>

  // Equal but for the free-list link.
  predicate Alike(c: Cell, d: Cell) {
    c.(nextFree := Null) == d.(nextFree := Null)
  }

  predicate IsUsed(h: Heap, a: nat) {
    a < |h| && h[a].used
  }

  predicate AllUsed(h: Heap, s: seq<nat>) {
    forall a | a in s :: IsUsed(h, a)
  }

  // No object points to a slot without an object.
  ghost predicate NoDangling(h: Heap) {
    forall o: nat, a: nat | IsUsed(h, o) && a in h[o].fields :: IsUsed(h, a)
  }

  ghost predicate AllWhite(h: Heap) {
    forall a: nat | IsUsed(h, a) :: !h[a].dark
  }

  ghost function Addrs(s: seq<nat>): set<nat> {
    set a | a in s
  }

  ghost predicate Distinct(s: seq<nat>) {
    forall i, j | 0 <= i < j < |s| :: s[i] != s[j]
  }

  // ---------- reachability ----------

  ghost predicate Path(h: Heap, roots: set<nat>, p: seq<nat>) {
    && |p| > 0 && p[0] in roots
    && (forall i | 0 <= i < |p| :: p[i] < |h|)
    && forall i, j | 0 <= i < j == i + 1 < |p| :: p[j] in h[p[i]].fields
  }

  ghost predicate Reachable(h: Heap, roots: set<nat>, a: nat) {
    exists p :: Path(h, roots, p) && p[|p| - 1] == a
  }

  lemma RootReachable(h: Heap, roots: set<nat>, a: nat)
    requires a in roots && a < |h|
    ensures Reachable(h, roots, a)
  {
    assert Path(h, roots, [a]) && [a][|[a]| - 1] == a;
  }

  lemma FieldReachable(h: Heap, roots: set<nat>, o: nat, a: nat)
    requires Reachable(h, roots, o) && o < |h| && a in h[o].fields && a < |h|
    ensures Reachable(h, roots, a)
  {
    var p :| Path(h, roots, p) && p[|p| - 1] == o;
    var q := p + [a];
    assert Path(h, roots, q) && q[|q| - 1] == a;
  }

  // A reachable slot is a root or a field of another reachable slot.
  lemma ReachedBy(h: Heap, roots: set<nat>, a: nat) returns (o: nat)
    requires Reachable(h, roots, a)
    ensures a in roots || (o < |h| && Reachable(h, roots, o) && a in h[o].fields)
  {
    var p :| Path(h, roots, p) && p[|p| - 1] == a;
    o := 0;
    if |p| > 1 {
      var n := |p| - 2;
      o := p[n];
      assert p[n + 1] in h[p[n]].fields;
      var q := p[..n + 1];
      assert Path(h, roots, q) && q[|q| - 1] == o;
    }
  }

  // A set that holds the roots and every field of its members holds all that is reachable.
  lemma {:induction false} ClosedHolds(h: Heap, roots: set<nat>, d: set<nat>, p: seq<nat>)
    requires Path(h, roots, p) && roots <= d
    requires forall o, a | o in d && o < |h| && a in h[o].fields :: a in d
    ensures p[|p| - 1] in d
  {
    if |p| > 1 {
      var n := |p| - 1;
      assert Path(h, roots, p[..n]);
      ClosedHolds(h, roots, d, p[..n]);
      var m := n - 1;
      assert p[m + 1] in h[p[m]].fields;
    }
  }

  // The slots a full collection keeps are exactly the reachable ones: what the
  // tri-colour invariant gives once no slot is gray.
  lemma MarkedExactly(h: Heap, roots: set<nat>, d: set<nat>)
    requires roots <= d && forall a | a in d :: a < |h| && Reachable(h, roots, a)
    requires forall o, a | o in d && o < |h| && a in h[o].fields :: a in d
    ensures forall a :: a in d <==> Reachable(h, roots, a)
  {
    forall a: nat | Reachable(h, roots, a) ensures a in d {
      var p :| Path(h, roots, p) && p[|p| - 1] == a;
      ClosedHolds(h, roots, d, p);
    }
  }

  // ---------- marks ----------

  function Older(gen: nat): nat {
    if gen < GC_GEN_MAX then gen + 1 else gen
  }

  function Grayed(c: Cell, young: bool): Cell {
    if young then c.(dark := true) else c.(dark := true, gen := Older(c.gen))
  }

  // The heap after the slots in d have been grayed.
  ghost function Mark(h: Heap, d: set<nat>, young: bool): (r: Heap)
    ensures |r| == |h|
    ensures forall a | 0 <= a < |h| :: r[a] == if a in d then Grayed(h[a], young) else h[a]
  {
    seq(|h|, i requires 0 <= i < |h| => if i in d then Grayed(h[i], young) else h[i])
  }

  // What graying s adds: in a young collection old objects are passed over.
  ghost function Grayable(h: Heap, s: seq<nat>, young: bool): set<nat> {
    set a | a in s && a < |h| && !(young && h[a].gen > GC_GEN_MIN)
  }

  lemma InAddrs(s: seq<nat>, i: nat)
    requires i < |s|
    ensures s[i] in Addrs(s)
  {
  }

  lemma AddrsMore(s: seq<nat>, a: nat)
    ensures Addrs(s + [a]) == Addrs(s) + {a}
  {
  }

  // From (d, gray) to (e, more): each newly marked slot was pushed, once.
  ghost predicate Pushed(d: set<nat>, gray: seq<nat>, e: set<nat>, more: seq<nat>) {
    && d <= e && gray <= more && Addrs(more) == Addrs(gray) + (e - d)
    && |e| == |d| + |more| - |gray|
  }

  // The heap g is h with the slots d grayed, all of them objects, young ones only in
  // a young collection; what is gray is among them.
  ghost predicate MarkState(h: Heap, g: Heap, d: set<nat>, gray: seq<nat>, young: bool) {
    && g == Mark(h, d, young)
    && (forall a | a in d :: IsUsed(h, a) && (young ==> h[a].gen == GC_GEN_MIN))
    && Addrs(gray) <= d
  }

  lemma MarkNothing(h: Heap, young: bool)
    ensures MarkState(h, h, {}, [], young)
  {
  }

  lemma PushedAll(d: set<nat>, gray: seq<nat>)
    requires Pushed({}, [], d, gray)
    ensures Addrs(gray) == d
  {
  }

  lemma MarkStep(h: Heap, g: Heap, d: set<nat>, gray: seq<nat>, young: bool, a: nat)
    requires MarkState(h, g, d, gray, young) && AllWhite(h) && IsUsed(h, a)
    ensures a < |g| && (g[a].dark <==> a in d) && (young ==> g[a].gen == h[a].gen) && Pushed(d, gray, d, gray)
    ensures Grayable(h, [a], young) == if young && h[a].gen > GC_GEN_MIN then {} else {a}
    ensures !g[a].dark && !(young && g[a].gen > GC_GEN_MIN) ==>
      && MarkState(h, g[a := Grayed(g[a], young)], d + {a}, gray + [a], young)
      && Pushed(d, gray, d + {a}, gray + [a])
  {
    hide Pushed, AllWhite, MarkState, Mark, Grayed, Addrs;
    MarkRead(h, g, d, gray, young, a);
    PushedNone(d, gray);
    if !g[a].dark && !(young && g[a].gen > GC_GEN_MIN) {
      MarkWrite(h, g, d, gray, young, a);
      PushedOne(d, gray, a);
    }
  }

  lemma MarkRead(h: Heap, g: Heap, d: set<nat>, gray: seq<nat>, young: bool, a: nat)
    requires MarkState(h, g, d, gray, young) && AllWhite(h) && IsUsed(h, a)
    ensures a < |g| && (g[a].dark <==> a in d) && (young ==> g[a].gen == h[a].gen)
    ensures a !in d ==> g[a] == h[a]
  {
  }

  lemma MarkWrite(h: Heap, g: Heap, d: set<nat>, gray: seq<nat>, young: bool, a: nat)
    requires MarkState(h, g, d, gray, young) && IsUsed(h, a) && a < |g|
    requires a !in d && g[a] == h[a] && (young ==> h[a].gen == GC_GEN_MIN)
    ensures MarkState(h, g[a := Grayed(g[a], young)], d + {a}, gray + [a], young)
  {
    AddrsMore(gray, a);
    assert g[a := Grayed(g[a], young)] == Mark(h, d + {a}, young);
  }

  lemma PushedNone(d: set<nat>, gray: seq<nat>)
    ensures Pushed(d, gray, d, gray)
  {
  }

  lemma PushedOne(d: set<nat>, gray: seq<nat>, a: nat)
    requires a !in d
    ensures Pushed(d, gray, d + {a}, gray + [a])
  {
    AddrsMore(gray, a);
  }

  lemma PushedMore(d: set<nat>, gray: seq<nat>, e: set<nat>, more: seq<nat>, e': set<nat>, more': seq<nat>)
    requires Pushed(d, gray, e, more) && Pushed(e, more, e', more')
    ensures Pushed(d, gray, e', more')
  {
  }

  lemma NothingYet(h: Heap, s: seq<nat>, young: bool, d: set<nat>, gray: seq<nat>)
    ensures s[..0] == [] && Grayable(h, s[..0], young) == {} && Pushed(d, gray, d, gray)
  {
  }

  lemma GrayableMore(h: Heap, s: seq<nat>, i: nat, young: bool)
    requires i < |s|
    ensures Grayable(h, s[..i + 1], young) == Grayable(h, s[..i], young) + Grayable(h, [s[i]], young)
  {
    assert s[..i + 1] == s[..i] + [s[i]];
  }

  lemma {:induction false} BoundedSet(d: set<nat>, n: nat)
    requires forall a | a in d :: a < n
    ensures |d| <= n
  {
    if n == 0 {
      assert d == {};
    } else {
      var last := n - 1;
      BoundedSet(d - {last}, last);
    }
  }

  // The tri-colour invariant: what a marked slot off the gray stack points to is marked.
  ghost predicate TriColour(h: Heap, d: set<nat>, gray: seq<nat>) {
    forall o, a | o in d && o !in gray && o < |h| && a in h[o].fields :: a in d
  }

  ghost predicate AllReachable(h: Heap, roots: set<nat>, d: set<nat>) {
    forall a | a in d :: a < |h| && Reachable(h, roots, a)
  }

  lemma TraceStart(h: Heap, d: set<nat>, gray: seq<nat>)
    requires d == Addrs(gray) && forall a | a in d :: a < |h|
    ensures AllReachable(h, d, d) && TriColour(h, d, gray)
  {
    forall a | a in d ensures Reachable(h, d, a) {
      RootReachable(h, d, a);
    }
  }

  lemma FieldsUsed(h: Heap, o: nat)
    requires NoDangling(h) && IsUsed(h, o)
    ensures AllUsed(h, h[o].fields)
  {
  }

  // Popping a gray slot and graying what it points to keeps the invariant.
  lemma BlackenKeeps(h: Heap, roots: set<nat>, d: set<nat>, gray: seq<nat>, a: nat, d': set<nat>, gray': seq<nat>)
    requires NoDangling(h) && AllReachable(h, roots, d) && TriColour(h, d, gray + [a])
    requires IsUsed(h, a) && a in d
    requires d' == d + Grayable(h, h[a].fields, false) && Pushed(d, gray, d', gray')
    ensures AllReachable(h, roots, d') && TriColour(h, d', gray')
  {
    forall b | b in d' ensures b < |h| && Reachable(h, roots, b) {
      if b !in d {
        FieldReachable(h, roots, a, b);
      }
    }
    forall o, b | o in d' && o !in gray' && o < |h| && b in h[o].fields ensures b in d' {
      assert o !in Addrs(gray');
      if o == a {
        assert IsUsed(h, b);
      } else {
        assert o in d && o !in Addrs(gray) && o !in gray + [a];
      }
    }
  }

  // What a young collection grays first is reachable, as far as it is young.
  lemma GrayedReachable(h: Heap, starts: set<nat>, s: seq<nat>, d: set<nat>)
    requires AllReachable(h, starts, d) && Addrs(s) <= starts
    ensures AllReachable(h, starts, d + Grayable(h, s, true))
  {
    forall a | a in Grayable(h, s, true) ensures a < |h| && Reachable(h, starts, a) {
      assert a in Addrs(s);
      RootReachable(h, starts, a);
    }
  }

  // So is what it grays as a field of what is.
  lemma FieldsReachable(h: Heap, starts: set<nat>, d: set<nat>, a: nat)
    requires AllReachable(h, starts, d) && a in d
    ensures a < |h| && AllReachable(h, starts, d + Grayable(h, h[a].fields, true))
  {
    forall b | b in Grayable(h, h[a].fields, true) ensures b < |h| && Reachable(h, starts, b) {
      FieldReachable(h, starts, a, b);
    }
  }

  // ---------- the free list ----------

  ghost predicate Chain(h: Heap, head: Ptr, f: seq<nat>)
    decreases |f|
  {
    if f == [] then head == Null
    else head == At(f[0]) && f[0] < |h| && Chain(h, h[f[0]].nextFree, f[1..])
  }

  lemma {:induction false} ChainSame(h: Heap, g: Heap, head: Ptr, f: seq<nat>)
    requires Chain(h, head, f)
    requires forall a | a in f && a < |h| :: a < |g| && g[a].nextFree == h[a].nextFree
    ensures Chain(g, head, f)
    decreases |f|
  {
    if f != [] {
      assert forall a | a in f[1..] :: a in f;
      ChainSame(h, g, h[f[0]].nextFree, f[1..]);
    }
  }

  lemma {:induction false} ChainInside(h: Heap, head: Ptr, f: seq<nat>)
    requires Chain(h, head, f)
    ensures forall a | a in f :: a < |h|
    decreases |f|
  {
    if f != [] {
      assert f == [f[0]] + f[1..];
      ChainInside(h, h[f[0]].nextFree, f[1..]);
    }
  }

  lemma ChainPush(h: Heap, head: Ptr, f: seq<nat>, a: nat, c: Cell)
    requires Chain(h, head, f) && a < |h| && a !in f && c.nextFree == head
    ensures Chain(h[a := c], At(a), [a] + f)
  {
    ChainSame(h, h[a := c], head, f);
    assert ([a] + f)[1..] == f;
  }

  // The free list runs through the distinct unused slots f.
  ghost predicate FreeList(h: Heap, head: Ptr, f: seq<nat>) {
    Chain(h, head, f) && Distinct(f) && forall a | a in f :: a < |h| && !h[a].used
  }

  // Unused slots off the free list.
  ghost function LostSlots(h: Heap, f: seq<nat>): set<nat> {
    set a: nat | a < |h| && !h[a].used && a !in f
  }

  lemma FreeHead(h: Heap, head: Ptr, f: seq<nat>)
    requires FreeList(h, head, f)
    ensures head.At? <==> f != []
  {
  }

  // A free list built anew, without what was on the old one.
  lemma LostAll(h: Heap, head: Ptr, f: seq<nat>)
    requires FreeList(h, head, f)
    ensures LostSlots(h, []) == LostSlots(h, f) + Addrs(f)
  {
  }

  lemma NoneLost(lost: set<nat>, f: seq<nat>)
    ensures lost + Addrs(f) == {} <==> lost == {} && f == []
  {
    if f != [] {
      assert f[0] in Addrs(f);
    }
  }

  lemma FreePush(h: Heap, head: Ptr, f: seq<nat>, a: nat, c: Cell)
    requires FreeList(h, head, f) && IsUsed(h, a) && !c.used && c.nextFree == head
    ensures FreeList(h[a := c], At(a), [a] + f) && LostSlots(h[a := c], [a] + f) == LostSlots(h, f)
  {
    ChainPush(h, head, f, a, c);
  }

  lemma FreeSame(h: Heap, head: Ptr, f: seq<nat>, a: nat, c: Cell)
    requires FreeList(h, head, f) && IsUsed(h, a) && c.used
    ensures FreeList(h[a := c], head, f) && LostSlots(h[a := c], f) == LostSlots(h, f)
  {
    ChainSame(h, h[a := c], head, f);
  }

  lemma FreePop(h: Heap, head: Ptr, f: seq<nat>, c: Cell)
    requires FreeList(h, head, f) && head.At? && c.used
    ensures f != [] && head == At(f[0]) && f[0] < |h| && !h[f[0]].used
    ensures FreeList(h[f[0] := c], h[f[0]].nextFree, f[1..])
    ensures LostSlots(h[f[0] := c], f[1..]) == LostSlots(h, f)
  {
    var a, g := f[0], h[f[0] := c];
    assert f == [a] + f[1..];
    assert a !in f[1..];
    assert forall b | b in f[1..] :: b in f && b != a;
    ChainSame(h, g, h[a].nextFree, f[1..]);
    assert forall i | 0 <= i < |f| - 1 :: f[1..][i] == f[i + 1];
  }

  lemma FreeExtend(h: Heap, head: Ptr, f: seq<nat>, c: Cell)
    requires FreeList(h, head, f) && !c.used && c.nextFree == head
    ensures FreeList(h + [c], At(|h|), [|h|] + f) && LostSlots(h + [c], [|h|] + f) == LostSlots(h, f)
  {
    ChainInside(h, head, f);
    assert |h| !in f;
    ChainSame(h, h + [c], head, f);
    assert ([|h|] + f)[1..] == f;
  }

  lemma MarkSize(h: Heap, g: Heap, d: set<nat>, gray: seq<nat>, young: bool)
    requires MarkState(h, g, d, gray, young)
    ensures |g| == |h|
  {
  }

  lemma GrayFacts(h: Heap, d: set<nat>, gray: seq<nat>)
    requires Addrs(gray) == d && forall a | a in d :: IsUsed(h, a)
    ensures forall a | a in gray :: a in d && IsUsed(h, a)
  {
    assert forall a | a in gray :: a in Addrs(gray);
  }

  // Graying leaves the free list as it was.
  lemma MarkLost(h: Heap, g: Heap, d: set<nat>, gray: seq<nat>, young: bool, head: Ptr, f: seq<nat>)
    requires MarkState(h, g, d, gray, young) && FreeList(h, head, f)
    ensures |g| == |h| && FreeList(g, head, f) && LostSlots(g, f) == LostSlots(h, f)
    ensures forall a | a in d :: IsUsed(h, a)
  {
    ChainSame(h, g, head, f);
  }

  // ---------- a young collection ----------

  // The slot after a young collection that marked d: on the young stack, still young
  // and not hidden, it is promoted when marked or remembered and freed otherwise.
  function YoungSwept(c: Cell, onStack: bool, saved: bool): Cell {
    if !onStack || c.gen > GC_GEN_MIN || c.hidden then c
    else if saved then c.(gen := Older(c.gen))
    else c.(used := false)
  }

  // The write barrier's promise: a young object on the young stack that some object
  // points to is remembered.
  ghost predicate Barrier(h: Heap, young: seq<nat>, remembered: seq<nat>) {
    forall o: nat, a: nat | IsUsed(h, o) && a in h[o].fields && a in young && a < |h|
      && h[a].gen == GC_GEN_MIN :: a in remembered
  }

  ghost predicate YoungDies(h: Heap, young: seq<nat>, remembered: seq<nat>, d: set<nat>, a: nat) {
    IsUsed(h, a) && a in young && h[a].gen == GC_GEN_MIN && !h[a].hidden && a !in d && a !in remembered
  }

  // Whatever the gray loop marks, nothing points to what a young collection frees, and
  // that is reachable only if it is a root itself.
  lemma YoungSafe(h: Heap, young: seq<nat>, remembered: seq<nat>, roots: set<nat>, d: set<nat>, a: nat)
    requires NoDangling(h) && Barrier(h, young, remembered) && forall r | r in roots :: IsUsed(h, r)
    requires YoungDies(h, young, remembered, d, a)
    ensures forall o: nat | IsUsed(h, o) :: a !in h[o].fields
    ensures Reachable(h, roots, a) <==> a in roots
  {
    if a in roots {
      RootReachable(h, roots, a);
    } else if Reachable(h, roots, a) {
      var o := ReachedBy(h, roots, a);
      ReachableUsed(h, roots, o);
      assert false;
    }
  }

  lemma ReachableUsed(h: Heap, roots: set<nat>, a: nat)
    requires NoDangling(h) && Reachable(h, roots, a)
    requires forall r | r in roots :: IsUsed(h, r)
    ensures IsUsed(h, a)
  {
    var all: set<nat> := set b: nat | b < |h| && h[b].used;
    forall o, b | o in all && o < |h| && b in h[o].fields ensures b in all {
      assert IsUsed(h, o) && IsUsed(h, b);
    }
    var p :| Path(h, roots, p) && p[|p| - 1] == a;
    ClosedHolds(h, roots, all, p);
  }

  // A young sweep that has passed the slots in done.
  ghost predicate YoungPart(h: Heap, g: Heap, done: seq<nat>, remembered: seq<nat>, d: set<nat>) {
    && |g| == |h|
    && forall a: nat | a < |h| :: Alike(g[a],
         if a in done then YoungSwept(h[a], true, a in d || a in remembered)
         else if a in d then Grayed(h[a], true) else h[a])
  }

  // The same sweep when it is over and only slots in gray may still be dark.
  ghost predicate YoungOver(h: Heap, g: Heap, young: seq<nat>, remembered: seq<nat>, d: set<nat>, gray: seq<nat>) {
    && |g| == |h|
    && forall a: nat | a < |h| ::
      || Alike(g[a], YoungSwept(h[a], a in young, a in d || a in remembered))
      || (a in gray && a !in young && Alike(g[a], Grayed(h[a], true)))
  }

  lemma YoungPartStep(h: Heap, g: Heap, young: seq<nat>, i: nat, remembered: seq<nat>, d: set<nat>, c: Cell)
    requires i < |young| && young[i] < |h| && Distinct(young)
    requires YoungPart(h, g, young[..i], remembered, d)
    requires Alike(c, YoungSwept(h[young[i]], true, young[i] in d || young[i] in remembered))
    ensures YoungPart(h, g[young[i] := c], young[..i + 1], remembered, d)
  {
    assert young[..i + 1] == young[..i] + [young[i]];
  }

  lemma YoungPartAt(h: Heap, g: Heap, young: seq<nat>, i: nat, remembered: seq<nat>, d: set<nat>)
    requires i < |young| && young[i] < |h| && Distinct(young)
    requires YoungPart(h, g, young[..i], remembered, d) && AllWhite(h) && IsUsed(h, young[i])
    ensures !h[young[i]].dark && IsUsed(g, young[i])
    ensures young[i] < |g| && Alike(g[young[i]], if young[i] in d then Grayed(h[young[i]], true) else h[young[i]])
  {
    assert young[i] !in young[..i];
  }

  lemma YoungPartStart(h: Heap, g: Heap, young: seq<nat>, remembered: seq<nat>, d: set<nat>, gray: seq<nat>)
    requires MarkState(h, g, d, gray, true)
    ensures young[..0] == [] && YoungPart(h, g, young[..0], remembered, d)
  {
  }

  lemma YoungCellSwept(c: Cell, marked: Cell, swept: Cell, dark: bool, remembered: bool)
    requires c.used && !c.dark && Alike(marked, if dark then Grayed(c, true) else c)
    requires Alike(swept, YoungSwept(marked, true, marked.dark || remembered).(dark := false))
    ensures Alike(swept, YoungSwept(c, true, dark || remembered))
  {
  }

  lemma YoungIsOver(h: Heap, g: Heap, young: seq<nat>, remembered: seq<nat>, d: set<nat>)
    requires YoungOver(h, g, young, remembered, d, [])
    ensures YoungAfter(h, g, young, remembered, d)
  {
  }

  lemma YoungSweepOver(h: Heap, g: Heap, young: seq<nat>, remembered: seq<nat>, d: set<nat>, gray: seq<nat>)
    requires YoungPart(h, g, young, remembered, d) && Addrs(gray) == d
    ensures YoungOver(h, g, young, remembered, d, gray)
  {
  }

  lemma WhitenStep(h: Heap, g: Heap, young: seq<nat>, remembered: seq<nat>, d: set<nat>, gray: seq<nat>, a: nat)
    requires YoungOver(h, g, young, remembered, d, gray + [a]) && IsUsed(h, a) && a in d && AllWhite(h)
    ensures IsUsed(g, a) && YoungOver(h, g[a := g[a].(dark := false)], young, remembered, d, gray)
  {
  }

  ghost predicate YoungAfter(h: Heap, g: Heap, young: seq<nat>, remembered: seq<nat>, d: set<nat>) {
    |g| == |h| && forall a: nat | a < |h| :: Alike(g[a], YoungSwept(h[a], a in young, a in d || a in remembered))
  }

  ghost predicate Kept(h: Heap, g: Heap, a: nat) {
    IsUsed(h, a) && IsUsed(g, a) && g[a].fields == h[a].fields && g[a].hidden == h[a].hidden
  }

  // No survivor of a young collection is left with a pointer to a freed slot.
  lemma YoungSweepSafe(h: Heap, g: Heap, young: seq<nat>, remembered: seq<nat>, d: set<nat>)
    requires NoDangling(h) && AllWhite(h) && Barrier(h, young, remembered) && YoungAfter(h, g, young, remembered, d)
    ensures NoDangling(g) && AllWhite(g)
  {
    forall o: nat, a: nat | IsUsed(g, o) && a in g[o].fields ensures IsUsed(g, a) {
      assert Alike(g[o], YoungSwept(h[o], o in young, o in d || o in remembered));
      assert IsUsed(h, o) && IsUsed(h, a);
      if YoungDies(h, young, remembered, d, a) {
        YoungSafe(h, young, remembered, {}, d, a);
      }
    }
  }

  // A young collection keeps all that any set of roots reaches, whether the gray loop
  // started from them or not, exactly if it keeps the roots: each of them is old, hidden,
  // off the young stack, marked or remembered.
  lemma YoungKeepsIff(h: Heap, g: Heap, young: seq<nat>, remembered: seq<nat>, roots: set<nat>, d: set<nat>)
    requires NoDangling(h) && Barrier(h, young, remembered) && YoungAfter(h, g, young, remembered, d)
    requires forall r | r in roots :: IsUsed(h, r)
    ensures (forall a: nat | Reachable(h, roots, a) :: Kept(h, g, a))
       <==> (forall r | r in roots :: !YoungDies(h, young, remembered, d, r))
  {
    if forall r | r in roots :: !YoungDies(h, young, remembered, d, r) {
      forall a: nat | Reachable(h, roots, a) ensures Kept(h, g, a) {
        ReachableUsed(h, roots, a);
        if YoungDies(h, young, remembered, d, a) {
          YoungSafe(h, young, remembered, roots, d, a);
        }
      }
    } else {
      var r :| r in roots && YoungDies(h, young, remembered, d, r);
      RootReachable(h, roots, r);
      assert Alike(g[r], YoungSwept(h[r], r in young, r in d || r in remembered));
      assert !Kept(h, g, r);
    }
  }

  ghost predicate HiddenList(h: Heap, hidden: seq<nat>) {
    Distinct(hidden) && AllUsed(h, hidden) && forall a | a in hidden :: h[a].hidden
  }

  // The collector's memory between operations: so many pages of slots, the free list, the
  // young stack, what is remembered, what is hidden, and what is held from outside: by
  // roots that every collection visits, by roots only a full collection visits, and by C
  // code.
  datatype Memory = Memory(h: Heap, pages: nat, head: Ptr, free: seq<nat>, young: seq<nat>, remembered: seq<nat>,
                           hidden: seq<nat>, roots: seq<nat>, olds: seq<nat>, stack: seq<nat>)

  // All starting points of a full collection.
  ghost function From(roots: seq<nat>, olds: seq<nat>, stack: seq<nat>, hidden: seq<nat>): set<nat> {
    Addrs(roots) + Addrs(olds) + Addrs(stack) + Addrs(hidden)
  }

  ghost function Starts(m: Memory): set<nat> {
    From(m.roots, m.olds, m.stack, m.hidden)
  }

  // A young collection need not visit these: each is old, off the young stack or
  // remembered.
  predicate Covered(h: Heap, young: seq<nat>, remembered: seq<nat>, olds: seq<nat>) {
    forall a | a in olds && a in young && a < |h| && h[a].gen == GC_GEN_MIN :: a in remembered
  }

  ghost predicate StartsUsed(m: Memory) {
    AllUsed(m.h, m.roots) && AllUsed(m.h, m.olds) && AllUsed(m.h, m.stack) && HiddenList(m.h, m.hidden)
  }

  // All that holds between operations but for pointers to freed slots.
  ghost predicate SoundParts(m: Memory) {
    && |m.h| == m.pages * HEAP_SLOTS && FreeList(m.h, m.head, m.free) && AllWhite(m.h)
    && Distinct(m.young) && AllUsed(m.h, m.young) && AllUsed(m.h, m.remembered)
    && Barrier(m.h, m.young, m.remembered) && Covered(m.h, m.young, m.remembered, m.olds) && StartsUsed(m)
  }

  lemma SoundFacts(m: Memory)
    requires SoundParts(m)
    ensures |m.h| == m.pages * HEAP_SLOTS && FreeList(m.h, m.head, m.free) && AllWhite(m.h)
    ensures Distinct(m.young) && AllUsed(m.h, m.young) && StartsUsed(m) && AllUsed(m.h, m.remembered)
    ensures AllUsed(m.h, m.roots) && AllUsed(m.h, m.olds) && AllUsed(m.h, m.stack) && AllUsed(m.h, m.hidden)
  {
  }

  lemma UsedStarts(m: Memory)
    requires StartsUsed(m)
    ensures AllUsed(m.h, m.roots) && AllUsed(m.h, m.olds) && AllUsed(m.h, m.stack) && AllUsed(m.h, m.hidden)
  {
  }

  lemma StartFacts(m: Memory)
    requires StartsUsed(m)
    ensures forall a | a in Starts(m) :: IsUsed(m.h, a)
  {
  }

  lemma StartsKept(m: Memory, g: Heap)
    requires StartsUsed(m) && forall a | a in Starts(m) :: Kept(m.h, g, a)
    ensures StartsUsed(m.(h := g))
  {
    assert forall a | a in m.roots || a in m.olds || a in m.stack || a in m.hidden :: a in Starts(m);
  }

  lemma GrayableStarts(m: Memory)
    requires StartsUsed(m)
    ensures Grayable(m.h, m.roots, false) + Grayable(m.h, m.olds, false) + Grayable(m.h, m.stack, false)
         + Grayable(m.h, m.hidden, false) == Starts(m)
  {
  }

  lemma StackMarked(m: Memory, d: set<nat>)
    requires Starts(m) <= d
    ensures forall a | a in m.stack :: a in d
  {
    assert forall a | a in m.stack :: a in Starts(m);
  }

  lemma AllMarked(h: Heap, roots: set<nat>, d: set<nat>)
    requires roots <= d && AllReachable(h, roots, d) && TriColour(h, d, [])
    ensures forall a: nat :: a in d <==> Reachable(h, roots, a)
  {
    MarkedExactly(h, roots, d);
  }

  // Everything reachable is there and as it was.
  ghost predicate AllKept(h: Heap, starts: set<nat>, g: Heap) {
    forall a: nat | Reachable(h, starts, a) :: Kept(h, g, a)
  }

  lemma KeptSelf(m: Memory)
    requires StartsUsed(m) && NoDangling(m.h)
    ensures AllKept(m.h, Starts(m), m.h)
  {
    StartFacts(m);
    forall a: nat | Reachable(m.h, Starts(m), a) ensures IsUsed(m.h, a) {
      ReachableUsed(m.h, Starts(m), a);
    }
  }

  // ---------- what is hidden ----------

  // Whatever a hidden object points to is hidden as well, or reachable.
  ghost predicate Pinned(h: Heap, starts: set<nat>) {
    forall o: nat, a: nat | IsUsed(h, o) && h[o].hidden && a in h[o].fields ::
      (IsUsed(h, a) && h[a].hidden) || Reachable(h, starts, a)
  }

  // That is exactly what a full collection needs, although it keeps hidden objects that no
  // list names without tracing them.
  lemma PinnedIffTraced(h: Heap, starts: set<nat>, live: set<nat>)
    requires NoDangling(h) && forall a: nat :: a in live <==> Reachable(h, starts, a)
    ensures Pinned(h, starts) <==> HiddenTraced(h, live)
  {
    forall o: nat, a: nat | IsUsed(h, o) && h[o].hidden && a in h[o].fields
      ensures IsUsed(h, a) && (o in live ==> Reachable(h, starts, a))
    {
      assert IsUsed(h, a);
      if o in live {
        FieldReachable(h, starts, o, a);
      }
    }
    if HiddenTraced(h, live) {
      forall o: nat, a: nat | IsUsed(h, o) && h[o].hidden && a in h[o].fields
        ensures (IsUsed(h, a) && h[a].hidden) || Reachable(h, starts, a)
      {
        assert o !in live ==> !FullDies(h, live, a);
      }
    }
  }

  // What is reachable in h still has its fields in g.
  ghost predicate FieldsStay(h: Heap, g: Heap, starts: set<nat>) {
    && (forall a: nat | Reachable(h, starts, a) && a < |h| :: a < |g|)
    && forall a: nat, b: nat | Reachable(h, starts, a) && a < |h| && b in h[a].fields :: b in g[a].fields
  }

  // The heap has changed from h to g, but what is reachable still has its fields, and
  // hidden objects have come to hold no other pointers than before.
  ghost predicate HiddenSteady(h: Heap, g: Heap, starts: set<nat>) {
    && FieldsStay(h, g, starts)
    && (forall a: nat | IsUsed(h, a) && h[a].hidden :: IsUsed(g, a) && g[a].hidden)
    && forall o: nat, a: nat | IsUsed(g, o) && g[o].hidden && a in g[o].fields ::
      || (IsUsed(h, o) && h[o].hidden && a in h[o].fields)
      || (IsUsed(g, a) && g[a].hidden) || Reachable(g, starts, a)
  }

  lemma {:induction false} PathGrows(h: Heap, g: Heap, starts: set<nat>, more: set<nat>, p: seq<nat>)
    requires Path(h, starts, p) && starts <= more
    requires FieldsStay(h, g, starts)
    ensures Path(g, more, p)
  {
    forall i | 0 <= i < |p| ensures p[i] < |g| && Reachable(h, starts, p[i]) {
      assert Path(h, starts, p[..i + 1]) && p[..i + 1][|p[..i + 1]| - 1] == p[i];
      assert Reachable(h, starts, p[i]) && p[i] < |h|;
    }
    forall i, j | 0 <= i < j == i + 1 < |p| ensures p[j] in g[p[i]].fields {
      assert Reachable(h, starts, p[i]) && p[j] in h[p[i]].fields;
    }
  }

  lemma ReachGrows(h: Heap, g: Heap, starts: set<nat>, more: set<nat>, a: nat)
    requires Reachable(h, starts, a) && starts <= more
    requires FieldsStay(h, g, starts)
    ensures Reachable(g, more, a)
  {
    var p :| Path(h, starts, p) && p[|p| - 1] == a;
    PathGrows(h, g, starts, more, p);
  }

  lemma PinnedSteady(h: Heap, g: Heap, starts: set<nat>)
    requires Pinned(h, starts) && HiddenSteady(h, g, starts)
    ensures Pinned(g, starts)
  {
    forall o: nat, a: nat | IsUsed(g, o) && g[o].hidden && a in g[o].fields
      ensures (IsUsed(g, a) && g[a].hidden) || Reachable(g, starts, a)
    {
      if Reachable(h, starts, a) {
        ReachGrows(h, g, starts, starts, a);
      }
    }
  }

  lemma PinnedMore(h: Heap, starts: set<nat>, more: set<nat>)
    requires Pinned(h, starts) && starts <= more
    ensures Pinned(h, more)
  {
    forall o: nat, a: nat | IsUsed(h, o) && h[o].hidden && a in h[o].fields && Reachable(h, starts, a)
      ensures Reachable(h, more, a)
    {
      ReachGrows(h, h, starts, more, a);
    }
  }

  // Collections keep hidden objects pinned: they change no fields and no flags.
  lemma PinnedKept(h: Heap, g: Heap, starts: set<nat>)
    requires Pinned(h, starts) && AllKept(h, starts, g)
    requires forall a: nat | IsUsed(h, a) && h[a].hidden :: IsUsed(g, a) && g[a].hidden
    requires forall o: nat | IsUsed(g, o) && g[o].hidden && g[o].fields != [] ::
      IsUsed(h, o) && h[o].hidden && h[o].fields == g[o].fields
    ensures Pinned(g, starts)
  {
    PinnedSteady(h, g, starts);
  }

  lemma PinnedYoung(h: Heap, g: Heap, young: seq<nat>, remembered: seq<nat>, d: set<nat>, starts: set<nat>)
    requires Pinned(h, starts) && AllKept(h, starts, g) && YoungAfter(h, g, young, remembered, d)
    ensures Pinned(g, starts)
  {
    hide Kept, Reachable;
    forall a: nat | a < |h| && h[a].hidden
      ensures g[a].used == h[a].used && g[a].hidden && g[a].fields == h[a].fields
    {
      assert Alike(g[a], YoungSwept(h[a], a in young, a in d || a in remembered));
    }
    forall o: nat | IsUsed(g, o) && g[o].hidden ensures IsUsed(h, o) && h[o].hidden && h[o].fields == g[o].fields {
      assert Alike(g[o], YoungSwept(h[o], o in young, o in d || o in remembered));
    }
    PinnedKept(h, g, starts);
  }

  lemma PinnedFull(h: Heap, g: Heap, live: set<nat>, starts: set<nat>)
    requires Pinned(h, starts) && AllKept(h, starts, g) && FullAfter(h, g, live)
    ensures Pinned(g, starts)
  {
    hide Kept, Reachable;
    forall a: nat | a < |h| && h[a].hidden
      ensures g[a].used == h[a].used && g[a].hidden && g[a].fields == h[a].fields
    {
      assert Alike(g[a], FullSwept(h[a], a in live));
    }
    forall o: nat | IsUsed(g, o) && g[o].hidden ensures IsUsed(h, o) && h[o].hidden && h[o].fields == g[o].fields {
      assert o < |h| && Alike(g[o], FullSwept(h[o], o in live));
    }
    PinnedKept(h, g, starts);
  }

  lemma PinnedAdded(h: Heap, g: Heap, starts: set<nat>)
    requires h <= g && (forall a | |h| <= a < |g| :: !g[a].used) && AllKept(h, starts, g) && Pinned(h, starts)
    ensures Pinned(g, starts)
  {
    hide Kept, Reachable;
    assert forall a: nat | a < |h| :: g[a] == h[a];
    PinnedKept(h, g, starts);
  }

  lemma PinnedNew(h: Heap, n: nat, c: Cell, starts: set<nat>)
    requires Pinned(h, starts) && AllKept(h, starts, h) && n < |h| && !h[n].used && c.fields == []
    ensures Pinned(h[n := c], starts)
  {
    hide Reachable;
    var g := h[n := c];
    forall a: nat | Reachable(h, starts, a) ensures Kept(h, g, a) {
      assert Kept(h, h, a);
    }
    PinnedKept(h, g, starts);
  }

  // A change of one object that takes no pointer and no flag away: new pointers out of a
  // hidden object must lead to what is hidden or reachable.
  lemma PinnedUpdate(h: Heap, o: nat, c: Cell, starts: set<nat>, more: set<nat>)
    requires Pinned(h, starts) && IsUsed(h, o) && c.used && starts <= more && (h[o].hidden ==> c.hidden)
    requires forall a | a in h[o].fields :: a in c.fields
    requires c.hidden ==> forall a | a in c.fields ::
      || (h[o].hidden && a in h[o].fields) || (o in more && a < |h|)
      || (IsUsed(h, a) && h[a].hidden) || Reachable(h, starts, a)
    ensures Pinned(h[o := c], more)
  {
    hide Reachable;
    var g := h[o := c];
    forall b: nat, a: nat | IsUsed(g, b) && g[b].hidden && a in g[b].fields
      ensures (IsUsed(g, a) && g[a].hidden) || Reachable(g, more, a)
    {
      if Reachable(h, starts, a) {
        ReachGrows(h, g, starts, more, a);
      } else if b == o && o in more && a < |h| {
        RootReachable(g, more, o);
        FieldReachable(g, more, o, a);
      }
    }
  }

  // ---------- collections ----------

  lemma FullDone(m: Memory, d: set<nat>, m': Memory)
    requires SoundParts(m) && NoDangling(m.h)
    requires forall a: nat :: a in d <==> Reachable(m.h, Starts(m), a)
    requires FullAfter(m.h, m'.h, d) && FreeList(m'.h, m'.head, m'.free) && |m'.h| == m'.pages * HEAP_SLOTS
    requires m' == m.(h := m'.h, pages := m'.pages, head := m'.head, free := m'.free, young := [], remembered := [])
    ensures SoundParts(m') && AllKept(m.h, Starts(m), m'.h)
    ensures NoDangling(m'.h) <==> Pinned(m.h, Starts(m))
    ensures Pinned(m.h, Starts(m)) ==> Pinned(m'.h, Starts(m'))
  {
    hide FullAfter, FreeList, HiddenTraced, Barrier, Starts, Pinned, StartsUsed;
    LiveFacts(m, d);
    FullSweepSafe(m.h, m'.h, d);
    StartsKept(m, m'.h);
    FullDanglesIff(m.h, m'.h, d);
    PinnedIffTraced(m.h, Starts(m), d);
    NothingYoung(m'.h, m.olds);
    SameStarts(m, m');
    SameStarts(m.(h := m'.h), m');
    assert AllWhite(m'.h);
    assert forall a | Reachable(m.h, Starts(m), a) :: a in d && IsUsed(m.h, a);
    if Pinned(m.h, Starts(m)) {
      PinnedFull(m.h, m'.h, d, Starts(m));
    }
  }

  lemma SameStarts(m: Memory, m': Memory)
    requires m'.roots == m.roots && m'.olds == m.olds && m'.stack == m.stack && m'.hidden == m.hidden
    ensures Starts(m') == Starts(m) && (m'.h == m.h ==> (StartsUsed(m') <==> StartsUsed(m)))
  {
  }

  // What is reachable is in use and closed under following pointers.
  lemma LiveFacts(m: Memory, d: set<nat>)
    requires NoDangling(m.h) && StartsUsed(m) && forall a: nat :: a in d <==> Reachable(m.h, Starts(m), a)
    ensures Starts(m) <= d && forall a | a in d :: IsUsed(m.h, a)
    ensures forall o, a | o in d && o < |m.h| && a in m.h[o].fields :: a in d
  {
    hide Starts, StartsUsed;
    StartFacts(m);
    forall a | a in Starts(m) ensures a in d {
      RootReachable(m.h, Starts(m), a);
    }
    forall a | a in d ensures IsUsed(m.h, a) {
      ReachableUsed(m.h, Starts(m), a);
    }
    forall o, a | o in d && o < |m.h| && a in m.h[o].fields ensures a in d {
      assert IsUsed(m.h, a);
      FieldReachable(m.h, Starts(m), o, a);
    }
  }

  lemma NothingYoung(h: Heap, olds: seq<nat>)
    ensures Distinct([]) && AllUsed(h, []) && Barrier(h, [], []) && Covered(h, [], [], olds)
  {
  }

  lemma YoungDone(m: Memory, d: set<nat>, m': Memory)
    requires SoundParts(m) && NoDangling(m.h)
    requires Grayable(m.h, m.roots, true) <= d && Grayable(m.h, m.stack, true) <= d
    requires YoungAfter(m.h, m'.h, m.young, m.remembered, d) && FreeList(m'.h, m'.head, m'.free)
    requires m' == m.(h := m'.h, head := m'.head, free := m'.free, young := [], remembered := [])
    ensures SoundParts(m') && NoDangling(m'.h) && AllKept(m.h, Starts(m), m'.h)
    ensures Pinned(m.h, Starts(m)) ==> Pinned(m'.h, Starts(m'))
  {
    hide YoungAfter, FreeList, Starts, Pinned, StartsUsed, Kept, YoungDies, Grayable, Covered;
    YoungSweepSafe(m.h, m'.h, m.young, m.remembered, d);
    StartFacts(m);
    StartsSpared(m, d);
    YoungKeepsIff(m.h, m'.h, m.young, m.remembered, Starts(m), d);
    forall a | a in Starts(m) ensures Kept(m.h, m'.h, a) {
      RootReachable(m.h, Starts(m), a);
    }
    StartsKept(m, m'.h);
    NothingYoung(m'.h, m.olds);
    SameStarts(m, m');
    SameStarts(m.(h := m'.h), m');
    SameSize(m.h, m'.h, m.young, m.remembered, d);
    if Pinned(m.h, Starts(m)) {
      PinnedYoung(m.h, m'.h, m.young, m.remembered, d, Starts(m));
    }
  }

  lemma SameSize(h: Heap, g: Heap, young: seq<nat>, remembered: seq<nat>, d: set<nat>)
    requires YoungAfter(h, g, young, remembered, d)
    ensures |g| == |h|
  {
  }

  lemma StartsSpared(m: Memory, d: set<nat>)
    requires StartsUsed(m) && Covered(m.h, m.young, m.remembered, m.olds)
    requires Grayable(m.h, m.roots, true) <= d && Grayable(m.h, m.stack, true) <= d
    ensures forall a | a in Starts(m) :: !YoungDies(m.h, m.young, m.remembered, d, a)
  {
    forall a | a in Starts(m) ensures !YoungDies(m.h, m.young, m.remembered, d, a) {
      if a in m.roots && m.h[a].gen == GC_GEN_MIN {
        assert a in Grayable(m.h, m.roots, true);
      } else if a in m.stack && m.h[a].gen == GC_GEN_MIN {
        assert a in Grayable(m.h, m.stack, true);
      }
    }
  }

  // ---------- what collections do ----------

  // The slots of the free list are the unused ones that are not lost.
  lemma FreeAddrs(h: Heap, head: Ptr, f: seq<nat>)
    requires FreeList(h, head, f)
    ensures forall a: nat :: a in f <==> a < |h| && !h[a].used && a !in LostSlots(h, f)
  {
  }

  lemma LostUnused(h: Heap, f: seq<nat>, a: nat)
    ensures a in LostSlots(h, f) ==> a < |h| && !h[a].used
  {
  }

  // What saves a young object.
  ghost function YoungHeld(m: Memory): set<nat> {
    Addrs(m.roots) + Addrs(m.stack) + Addrs(m.remembered)
  }

  // A young collection looks at the objects of the young stack that are young and not
  // hidden.
  ghost predicate LooksAt(m: Memory, a: nat) {
    IsUsed(m.h, a) && a in m.young && m.h[a].gen == GC_GEN_MIN && !m.h[a].hidden
  }

  ghost function YoungGarbage(m: Memory): set<nat> {
    set a | a in m.young && LooksAt(m, a) && a !in YoungHeld(m)
  }

  // From m to m' a young collection: it frees exactly its garbage, which joins the free
  // list; the other objects it looks at are one generation older; all else is as it was.
  ghost predicate YoungCollected(m: Memory, m': Memory) {
    && m' == m.(h := m'.h, head := m'.head, free := m'.free, young := [], remembered := [])
    && |m'.h| == |m.h| && Addrs(m'.free) == Addrs(m.free) + YoungGarbage(m)
    && (forall a: nat | IsUsed(m'.h, a) :: IsUsed(m.h, a))
    && forall a: nat | IsUsed(m.h, a) ::
      if a in YoungGarbage(m) then !m'.h[a].used
      else Alike(m'.h[a], m.h[a].(gen := if LooksAt(m, a) then GC_GEN_MIN + 1 else m.h[a].gen))
  }

  // With nothing on the young stack it does nothing.
  ghost predicate YoungRun(m: Memory, m': Memory) {
    if m.young == [] then m' == m else YoungCollected(m, m')
  }

  // What is marked is reachable from what both collections visit, so that by the write
  // barrier's promise it is visited itself or remembered.
  lemma MarkedHeld(m: Memory, d: set<nat>, a: nat)
    requires SoundParts(m) && NoDangling(m.h) && AllReachable(m.h, Addrs(m.roots) + Addrs(m.stack), d)
    requires Grayable(m.h, m.roots, true) <= d && Grayable(m.h, m.stack, true) <= d && LooksAt(m, a)
    ensures a in d || a in m.remembered <==> a in YoungHeld(m)
  {
    hide FreeList;
    var starts := Addrs(m.roots) + Addrs(m.stack);
    if a in m.roots {
      assert a in Grayable(m.h, m.roots, true);
    } else if a in m.stack {
      assert a in Grayable(m.h, m.stack, true);
    } else if a in d {
      var o := ReachedBy(m.h, starts, a);
      assert forall r | r in starts :: IsUsed(m.h, r);
      ReachableUsed(m.h, starts, o);
    }
  }

  lemma YoungDoes(m: Memory, d: set<nat>, m': Memory)
    requires SoundParts(m) && NoDangling(m.h) && AllReachable(m.h, Addrs(m.roots) + Addrs(m.stack), d)
    requires Grayable(m.h, m.roots, true) <= d && Grayable(m.h, m.stack, true) <= d
    requires YoungAfter(m.h, m'.h, m.young, m.remembered, d) && FreeList(m'.h, m'.head, m'.free)
    requires LostSlots(m'.h, m'.free) == LostSlots(m.h, m.free)
    requires m' == m.(h := m'.h, head := m'.head, free := m'.free, young := [], remembered := [])
    ensures YoungCollected(m, m')
  {
    hide SoundParts, FreeList, Grayable, AllReachable, NoDangling, LostSlots, YoungHeld;
    SoundFacts(m);
    FreeAddrs(m.h, m.head, m.free);
    FreeAddrs(m'.h, m'.head, m'.free);
    forall a: nat | a < |m.h|
      ensures LooksAt(m, a) ==> (a in d || a in m.remembered <==> a in YoungHeld(m))
      ensures Alike(m'.h[a], YoungSwept(m.h[a], a in m.young, a in d || a in m.remembered))
    {
      if LooksAt(m, a) {
        MarkedHeld(m, d, a);
      }
    }
    forall a: nat ensures a in m'.free <==> a in m.free || a in YoungGarbage(m) {
      if a < |m.h| {
        assert Alike(m'.h[a], YoungSwept(m.h[a], a in m.young, a in d || a in m.remembered));
        assert a in YoungGarbage(m) <==> m.h[a].used && !m'.h[a].used;
        assert a in LostSlots(m.h, m.free) ==> !m.h[a].used by {
          LostUnused(m.h, m.free, a);
        }
      }
    }
  }

  // What a full collection frees.
  ghost function Garbage(m: Memory): set<nat> {
    set a: nat | a < |m.h| && IsUsed(m.h, a) && !m.h[a].hidden && !Reachable(m.h, Starts(m), a)
  }

  // The generation of what a full collection reaches, aged once when it is grayed and once
  // when it is swept.
  function TwiceOlder(gen: nat): nat {
    if gen + 2 <= GC_GEN_MAX then gen + 2 else if gen <= GC_GEN_MAX then GC_GEN_MAX else gen
  }

  // From m to m' a full collection: it frees exactly its garbage and ages what is
  // reachable; a page is added if twice the number freed is too small; the free list is
  // made of what was freed and of that page.
  ghost predicate FullCollected(m: Memory, m': Memory) {
    && m' == m.(h := m'.h, pages := m'.pages, head := m'.head, free := m'.free, young := [], remembered := [])
    && m'.pages == m.pages + (if 2 * |Garbage(m)| < FREE_MIN then 1 else 0)
    && |m.h| <= |m'.h| && (forall a: nat :: a in m'.free <==> a in Garbage(m) || |m.h| <= a < |m'.h|)
    && (forall a: nat | IsUsed(m'.h, a) :: IsUsed(m.h, a))
    && forall a: nat | IsUsed(m.h, a) ::
      if a in Garbage(m) then !m'.h[a].used
      else Alike(m'.h[a], m.h[a].(gen :=
        if Reachable(m.h, Starts(m), a) then TwiceOlder(m.h[a].gen) else m.h[a].gen))
  }

  ghost predicate PageAdded(m: Memory, m': Memory) {
    && m' == m.(h := m'.h, pages := m.pages + 1, head := m'.head, free := m'.free)
    && m.h <= m'.h && (forall a: nat | |m.h| <= a < |m'.h| :: !m'.h[a].used)
    && forall a: nat :: a in m'.free <==> a in m.free || |m.h| <= a < |m'.h|
  }

  lemma FullDoes(m: Memory, d: set<nat>, m': Memory)
    requires SoundParts(m) && NoDangling(m.h) && forall a: nat :: a in d <==> Reachable(m.h, Starts(m), a)
    requires FullAfter(m.h, m'.h, d) && FreeList(m'.h, m'.head, m'.free)
    requires LostSlots(m'.h, m'.free) == LostSlots(m.h, m.free) + Addrs(m.free)
    requires m' == m.(h := m'.h, pages := m'.pages, head := m'.head, free := m'.free, young := [], remembered := [])
    requires m'.pages == m.pages + if 2 * |FullDead(m.h, d)| < FREE_MIN then 1 else 0
    ensures FullCollected(m, m')
  {
    hide SoundParts, FreeList, LostSlots, Starts, Reachable, FullAfter, FullSwept;
    SoundFacts(m);
    assert Garbage(m) == FullDead(m.h, d);
    FreedFree(m, d, m');
    FullCells(m.h, d, m'.h);
  }

  lemma FullCells(h: Heap, d: set<nat>, g: Heap)
    requires FullAfter(h, g, d)
    ensures |h| <= |g| && forall a: nat | IsUsed(g, a) :: IsUsed(h, a)
    ensures forall a: nat | IsUsed(h, a) ::
      if a in FullDead(h, d) then !g[a].used
      else Alike(g[a], h[a].(gen := if a in d then TwiceOlder(h[a].gen) else h[a].gen))
  {
    forall a: nat | a < |h| ensures Alike(g[a], FullSwept(h[a], a in d)) {
    }
  }

  lemma FreedFree(m: Memory, d: set<nat>, m': Memory)
    requires FreeList(m.h, m.head, m.free) && FreeList(m'.h, m'.head, m'.free) && FullAfter(m.h, m'.h, d)
    requires LostSlots(m'.h, m'.free) == LostSlots(m.h, m.free) + Addrs(m.free)
    ensures forall a: nat :: a in m'.free <==> a in FullDead(m.h, d) || |m.h| <= a < |m'.h|
  {
    hide FreeList, LostSlots;
    FreeAddrs(m.h, m.head, m.free);
    FreeAddrs(m'.h, m'.head, m'.free);
    forall a: nat ensures a in m'.free <==> a in FullDead(m.h, d) || |m.h| <= a < |m'.h| {
      LostUnused(m.h, m.free, a);
      if a < |m.h| {
        assert Alike(m'.h[a], FullSwept(m.h[a], a in d));
      }
    }
  }

  lemma ReachedStay(h: Heap, g: Heap, starts: set<nat>, a: nat)
    requires |g| == |h| && NoDangling(h) && (forall r | r in starts :: IsUsed(h, r)) && Reachable(h, starts, a)
    requires forall b: nat | IsUsed(h, b) :: g[b].fields == h[b].fields
    ensures Reachable(g, starts, a)
  {
    hide Reachable;
    forall b: nat | Reachable(h, starts, b) ensures IsUsed(h, b) {
      ReachableUsed(h, starts, b);
    }
    ReachGrows(h, g, starts, starts, a);
  }

  // Where the same objects point to the same slots, the same slots are reachable.
  lemma SameReach(h: Heap, g: Heap, starts: set<nat>)
    requires |g| == |h| && NoDangling(h) && forall r | r in starts :: IsUsed(h, r)
    requires forall b: nat :: IsUsed(g, b) <==> IsUsed(h, b)
    requires forall b: nat | IsUsed(h, b) :: g[b].fields == h[b].fields
    ensures forall a: nat :: Reachable(g, starts, a) <==> Reachable(h, starts, a)
  {
    hide Reachable;
    assert NoDangling(g) by {
      forall o: nat, a: nat | IsUsed(g, o) && a in g[o].fields ensures IsUsed(g, a) {
        assert IsUsed(h, o) && a in h[o].fields;
      }
    }
    forall a: nat ensures Reachable(g, starts, a) <==> Reachable(h, starts, a) {
      if Reachable(h, starts, a) {
        ReachedStay(h, g, starts, a);
      }
      if Reachable(g, starts, a) {
        ReachedStay(g, h, starts, a);
      }
    }
  }

  // Without garbage a young collection only ages what it looks at.
  lemma NothingFreed(m: Memory, m': Memory)
    requires StartsUsed(m) && NoDangling(m.h) && YoungRun(m, m') && YoungGarbage(m) == {}
    ensures Garbage(m') == Garbage(m) && Addrs(m'.free) == Addrs(m.free) && |m'.h| == |m.h|
  {
    hide Reachable, YoungGarbage;
    SameStarts(m, m');
    StartFacts(m);
    if m.young != [] {
      SameReach(m.h, m'.h, Starts(m));
    }
  }

  lemma PageDoes(m: Memory, m': Memory)
    requires FreeList(m.h, m.head, m.free) && FreeList(m'.h, m'.head, m'.free)
    requires m.h <= m'.h && forall a: nat | |m.h| <= a < |m'.h| :: !m'.h[a].used
    requires LostSlots(m'.h, m'.free) == LostSlots(m.h, m.free)
    requires m' == m.(h := m'.h, pages := m.pages + 1, head := m'.head, free := m'.free)
    ensures PageAdded(m, m')
  {
    hide FreeList, LostSlots;
    FreeAddrs(m.h, m.head, m.free);
    FreeAddrs(m'.h, m'.head, m'.free);
    forall a: nat ensures a in m'.free <==> a in m.free || |m.h| <= a < |m'.h| {
      LostUnused(m.h, m.free, a);
      if a < |m.h| {
        assert m'.h[a] == m.h[a];
      }
    }
  }

  // From m to m' what making room for a new object does: nothing if a slot is free and the
  // young stack has room; a page more if collecting is off; otherwise a young collection,
  // and behind it a full one if that leaves no slot free.
  ghost predicate Roomed(m: Memory, isOld: bool, collecting: bool, m': Memory) {
    if m.head.At? && (isOld || |m.young| < YOUNG_MARK_STACK_MAX || !collecting) then m' == m
    else if !collecting then PageAdded(m, m')
    else if m.head.At? || YoungGarbage(m) != {} then YoungCollected(m, m')
    else exists mid :: YoungRun(m, mid) && FullCollected(mid, m')
  }

  // A young collection was enough.
  lemma YoungRooms(m: Memory, isOld: bool, m': Memory)
    requires FreeList(m.h, m.head, m.free) && FreeList(m'.h, m'.head, m'.free) && YoungRun(m, m') && m'.head.At?
    requires !(m.head.At? && (isOld || |m.young| < YOUNG_MARK_STACK_MAX))
    ensures Roomed(m, isOld, true, m')
  {
    FreeHead(m.h, m.head, m.free);
    FreeHead(m'.h, m'.head, m'.free);
    if m.young != [] {
      assert m'.free[0] in Addrs(m'.free);
    }
  }

  // It was not.
  lemma YoungLeaves(m: Memory, m': Memory)
    requires FreeList(m.h, m.head, m.free) && FreeList(m'.h, m'.head, m'.free) && YoungRun(m, m') && m'.head == Null
    ensures m.head == Null && YoungGarbage(m) == {}
  {
    FreeHead(m.h, m.head, m.free);
    FreeHead(m'.h, m'.head, m'.free);
    if m.young != [] {
      NoneLost({}, m.free);
      NoneLost({}, m'.free);
    }
  }

  // When no slot is free and the young collection frees none, everything that is neither
  // reachable nor hidden is gone, everything else is there, and a page is added if and
  // only if little was freed.
  lemma RoomFrees(m: Memory, isOld: bool, m': Memory)
    requires SoundParts(m) && NoDangling(m.h) && Roomed(m, isOld, true, m')
    requires m.head == Null && YoungGarbage(m) == {}
    ensures m'.pages == m.pages + if 2 * |Garbage(m)| < FREE_MIN then 1 else 0
    ensures forall a | a in Garbage(m) :: !IsUsed(m'.h, a) && a in m'.free
    ensures forall a: nat | IsUsed(m.h, a) && a !in Garbage(m) :: Kept(m.h, m'.h, a)
  {
    hide Garbage, YoungGarbage;
    var mid :| YoungRun(m, mid) && FullCollected(mid, m');
    NothingFreed(m, mid);
    forall a: nat | IsUsed(m.h, a) && a !in Garbage(m) ensures Kept(m.h, m'.h, a) {
      assert IsUsed(mid.h, a) && mid.h[a].fields == m.h[a].fields && mid.h[a].hidden == m.h[a].hidden;
    }
    assert forall a | a in Garbage(m) :: IsUsed(mid.h, a) by {
      GarbageUsed(mid);
    }
  }

  lemma GarbageUsed(m: Memory)
    ensures forall a | a in Garbage(m) :: IsUsed(m.h, a)
  {
  }

  // The memory with an object in the first free slot: a new one is on the young stack if
  // there is room for it.
  function Placed(m: Memory, isOld: bool, hide_: bool, inCCall: bool): Memory
    requires m.free != [] && m.free[0] < |m.h|
  {
    var n := m.free[0];
    m.(h := m.h[n := Cell(true, if isOld then GC_GEN_MAX else GC_GEN_MIN, false, hide_, [], Null)],
      head := m.h[n].nextFree, free := m.free[1..],
      young := m.young + (if !isOld && |m.young| < YOUNG_MARK_STACK_MAX then [n] else []),
      stack := m.stack + if inCCall then [n] else [])
  }

  // A page more changes nothing for the objects.
  lemma AddedSound(m: Memory, m': Memory)
    requires SoundParts(m) && NoDangling(m.h)
    requires m.h <= m'.h && forall a | |m.h| <= a < |m'.h| :: !m'.h[a].used
    requires |m'.h| == m'.pages * HEAP_SLOTS && FreeList(m'.h, m'.head, m'.free)
    requires m' == m.(h := m'.h, pages := m'.pages, head := m'.head, free := m'.free)
    ensures SoundParts(m') && NoDangling(m'.h) && AllKept(m.h, Starts(m), m'.h)
    ensures Pinned(m.h, Starts(m)) ==> Pinned(m'.h, Starts(m'))
  {
    hide FreeList, Pinned, Reachable;
    assert forall a: nat | a < |m.h| :: m'.h[a] == m.h[a];
    assert forall o: nat | IsUsed(m'.h, o) :: IsUsed(m.h, o) && m'.h[o] == m.h[o];
    KeptSelf(m);
    AddedGraph(m.h, m'.h, m.young, m.remembered);
    SameStarts(m, m');
    forall a: nat | Reachable(m.h, Starts(m), a) ensures Kept(m.h, m'.h, a) {
      assert Kept(m.h, m.h, a);
    }
    if Pinned(m.h, Starts(m)) {
      PinnedAdded(m.h, m'.h, Starts(m));
    }
  }

  lemma AddedGraph(h: Heap, g: Heap, young: seq<nat>, remembered: seq<nat>)
    requires NoDangling(h) && Barrier(h, young, remembered) && |h| <= |g|
    requires forall a: nat | a < |h| :: g[a] == h[a]
    requires forall o: nat | IsUsed(g, o) :: IsUsed(h, o) && g[o] == h[o]
    ensures NoDangling(g) && Barrier(g, young, remembered)
  {
    forall o: nat, a: nat | IsUsed(g, o) && a in g[o].fields
      ensures IsUsed(g, a) && g[a] == h[a] && IsUsed(h, o) && a in h[o].fields
    {
      assert IsUsed(h, o) && IsUsed(h, a);
    }
  }

  // ---------- changes by the program ----------

  // A new object without fields takes the first free slot.  Unless a pointer dangles,
  // nothing pointed there.
  lemma NewSound(m: Memory, c: Cell) returns (m': Memory)
    requires SoundParts(m) && m.head.At? && c.used && !c.dark && c.fields == []
    ensures m.free != [] && m.head == At(m.free[0]) && m.free[0] < |m.h| && !m.h[m.free[0]].used
    ensures m' == m.(h := m.h[m.free[0] := c], head := m.h[m.free[0]].nextFree, free := m.free[1..])
    ensures IsUsed(m'.h, m.free[0]) && LostSlots(m'.h, m'.free) == LostSlots(m.h, m.free)
    ensures NoDangling(m.h) ==>
      SoundParts(m') && SoundParts(m'.(young := m.young + [m.free[0]])) && NoDangling(m'.h)
    ensures NoDangling(m.h) && Pinned(m.h, Starts(m)) ==> Pinned(m'.h, Starts(m'))
  {
    hide Pinned, Reachable, LostSlots, FreeList, NoDangling;
    FreePop(m.h, m.head, m.free, c);
    var n := m.free[0];
    m' := m.(h := m.h[n := c], head := m.h[n].nextFree, free := m.free[1..]);
    if NoDangling(m.h) {
      NewGraph(m.h, n, c, m.young, m.remembered);
      NewStarts(m, n, c);
      NewYoung(m, n, c);
      if Pinned(m.h, Starts(m)) {
        KeptSelf(m);
        PinnedNew(m.h, n, c, Starts(m));
      }
    }
  }

  lemma NewStarts(m: Memory, n: nat, c: Cell)
    requires StartsUsed(m) && n < |m.h| && !m.h[n].used
    ensures StartsUsed(m.(h := m.h[n := c])) && Starts(m.(h := m.h[n := c])) == Starts(m)
  {
  }

  lemma NewYoung(m: Memory, n: nat, c: Cell)
    requires SoundParts(m) && n < |m.h| && !m.h[n].used && c.used && !c.dark
    ensures var g := m.h[n := c];
      && AllWhite(g) && AllUsed(g, m.young) && Distinct(m.young + [n]) && AllUsed(g, m.young + [n])
        && AllUsed(g, m.remembered)
      && Covered(g, m.young, m.remembered, m.olds) && Covered(g, m.young + [n], m.remembered, m.olds)
  {
    assert n !in m.young && n !in m.olds;
  }

  lemma NewGraph(h: Heap, n: nat, c: Cell, young: seq<nat>, remembered: seq<nat>)
    requires n < |h| && !h[n].used && NoDangling(h) && Barrier(h, young, remembered)
    requires c.fields == []
    ensures NoDangling(h[n := c]) && Barrier(h[n := c], young, remembered)
      && Barrier(h[n := c], young + [n], remembered)
  {
    var g := h[n := c];
    forall o: nat, a: nat | IsUsed(g, o) && a in g[o].fields
      ensures IsUsed(g, a) && a != n && g[a] == h[a] && IsUsed(h, o) && a in h[o].fields
    {
      assert o != n && IsUsed(h, o) && a in h[o].fields;
      assert IsUsed(h, a);
    }
  }

  lemma StackMore(m: Memory, a: nat)
    requires SoundParts(m) && IsUsed(m.h, a)
    ensures SoundParts(m.(stack := m.stack + [a]))
    ensures Pinned(m.h, Starts(m)) ==> Pinned(m.h, Starts(m.(stack := m.stack + [a])))
  {
    hide Pinned;
    var m' := m.(stack := m.stack + [a]);
    assert Starts(m) <= Starts(m');
    if Pinned(m.h, Starts(m)) {
      PinnedMore(m.h, Starts(m), Starts(m'));
    }
  }

  lemma NewKept(h: Heap, g: Heap, k: Heap, starts: set<nat>, a: nat)
    requires AllKept(h, starts, g) && |k| == |g| && a < |g| && !g[a].used && k == g[a := k[a]]
    ensures !Reachable(h, starts, a) && AllKept(h, starts, k)
  {
    hide Reachable;
    assert !Kept(h, g, a);
  }

  // One object changes: it may come to point to a young object only if that object is
  // remembered afterwards.
  lemma UpdateSound(m: Memory, o: nat, c: Cell, remembered: seq<nat>, hidden: seq<nat>) returns (m': Memory)
    requires SoundParts(m) && NoDangling(m.h)
    requires IsUsed(m.h, o) && c.used && !c.dark && (c.gen == GC_GEN_MIN ==> m.h[o].gen == GC_GEN_MIN)
    requires HiddenList(m.h[o := c], hidden)
    requires AllUsed(m.h, remembered) && forall a | a in m.remembered :: a in remembered
    requires forall a | a in c.fields ::
      a in m.h[o].fields || (IsUsed(m.h, a) && (m.h[a].gen == GC_GEN_MIN ==> a in remembered))
    ensures m' == m.(h := m.h[o := c], remembered := remembered, hidden := hidden)
    ensures SoundParts(m') && NoDangling(m'.h) && LostSlots(m'.h, m'.free) == LostSlots(m.h, m.free)
  {
    hide FreeList, LostSlots;
    m' := m.(h := m.h[o := c], remembered := remembered, hidden := hidden);
    FreeSame(m.h, m.head, m.free, o, c);
    UpdateGraph(m, o, c, remembered);
  }

  lemma UpdateGraph(m: Memory, o: nat, c: Cell, remembered: seq<nat>)
    requires NoDangling(m.h) && Barrier(m.h, m.young, m.remembered) && IsUsed(m.h, o) && c.used
    requires c.gen == GC_GEN_MIN ==> m.h[o].gen == GC_GEN_MIN
    requires forall a | a in m.remembered :: a in remembered
    requires forall a | a in c.fields ::
      a in m.h[o].fields || (IsUsed(m.h, a) && (m.h[a].gen == GC_GEN_MIN ==> a in remembered))
    ensures NoDangling(m.h[o := c]) && Barrier(m.h[o := c], m.young, remembered)
  {
    var g := m.h[o := c];
    forall b: nat, a: nat | IsUsed(g, b) && a in g[b].fields ensures IsUsed(g, a) {
      assert IsUsed(m.h, a);
    }
    forall b: nat, a: nat | IsUsed(g, b) && a in g[b].fields && a in m.young && a < |g| && g[a].gen == GC_GEN_MIN
      ensures a in remembered
    {
    }
  }

  // An object that something points to, or a root only full collections visit.
  ghost predicate Held(m: Memory, a: nat) {
    a in m.olds || exists o: nat :: IsUsed(m.h, o) && a in m.h[o].fields
  }

  // Putting an object back into the youngest generation keeps the invariants if and only
  // if the object is off the young stack, remembered, or held by nothing.
  lemma RejuvenatedIff(m: Memory, a: nat)
    requires SoundParts(m) && NoDangling(m.h) && IsUsed(m.h, a)
    ensures var m' := m.(h := m.h[a := m.h[a].(gen := GC_GEN_MIN)]);
      && NoDangling(m'.h) && LostSlots(m'.h, m'.free) == LostSlots(m.h, m.free)
      && (SoundParts(m') <==> a !in m.young || a in m.remembered || !Held(m, a))
  {
    hide FreeList, LostSlots;
    var c := m.h[a].(gen := GC_GEN_MIN);
    var m' := m.(h := m.h[a := c]);
    FreeSame(m.h, m.head, m.free, a, c);
    assert forall o: nat | IsUsed(m'.h, o) :: IsUsed(m.h, o) && m'.h[o].fields == m.h[o].fields;
    forall o: nat, b: nat | IsUsed(m'.h, o) && b in m'.h[o].fields ensures IsUsed(m'.h, b) {
      assert IsUsed(m.h, o) && b in m.h[o].fields && IsUsed(m.h, b);
    }
    if a in m.young && a !in m.remembered && Held(m, a) {
      if a !in m.olds {
        var o: nat :| IsUsed(m.h, o) && a in m.h[o].fields;
        assert IsUsed(m'.h, o) && a in m'.h[o].fields;
        assert !Barrier(m'.h, m.young, m.remembered);
      }
    } else {
      forall o: nat, b: nat | IsUsed(m'.h, o) && b in m'.h[o].fields && b in m.young && b < |m'.h|
        && m'.h[b].gen == GC_GEN_MIN
        ensures b in m.remembered
      {
        assert IsUsed(m.h, o) && b in m.h[o].fields;
      }
    }
  }

  lemma HiddenSame(h: Heap, o: nat, c: Cell, hidden: seq<nat>)
    requires HiddenList(h, hidden) && IsUsed(h, o) && c.used && (h[o].hidden ==> c.hidden)
    ensures HiddenList(h[o := c], hidden)
  {
  }

  lemma HiddenMore(h: Heap, o: nat, c: Cell, hidden: seq<nat>)
    requires HiddenList(h, hidden) && IsUsed(h, o) && !h[o].hidden && c.used && c.hidden
    ensures HiddenList(h[o := c], hidden + [o])
  {
  }

  lemma HiddenNot(h: Heap, o: nat, c: Cell, hidden: seq<nat>)
    requires HiddenList(h, hidden) && IsUsed(h, o) && c.used && forall j | 0 <= j < |hidden| :: hidden[j] != o
    ensures HiddenList(h[o := c], hidden) && Addrs(hidden) == Addrs(hidden) - {o}
  {
  }

  lemma HiddenLess(h: Heap, o: nat, c: Cell, hidden: seq<nat>, i: nat)
    requires HiddenList(h, hidden) && IsUsed(h, o) && c.used && i < |hidden| && hidden[i] == o
    ensures HiddenList(h[o := c], hidden[..i] + hidden[i + 1..])
    ensures Addrs(hidden[..i] + hidden[i + 1..]) == Addrs(hidden) - {o}
  {
    var g, r := h[o := c], hidden[..i] + hidden[i + 1..];
    forall j | 0 <= j < |r| ensures r[j] in hidden && r[j] != o && IsUsed(g, r[j]) && g[r[j]].hidden {
      var k := if j < i then j else j + 1;
      assert r[j] == hidden[k] && hidden[k] in hidden;
    }
    forall a | a in hidden && a != o ensures a in r {
      var k :| 0 <= k < |hidden| && hidden[k] == a;
      assert r[if k < i then k else k - 1] == a;
    }
    forall j, k | 0 <= j < k < |r| ensures r[j] != r[k] {
      var j', k' := (if j < i then j else j + 1), (if k < i then k else k + 1);
      assert r[j] == hidden[j'] && r[k] == hidden[k'];
    }
  }

  lemma HidingStarts(a: nat, roots: seq<nat>, olds: seq<nat>, stack: seq<nat>, hidden: seq<nat>)
    ensures From(roots, olds, stack, hidden) <= From(roots, olds, stack, hidden + [a])
    ensures a in From(roots, olds, stack, hidden + [a])
  {
    AddrsMore(hidden, a);
  }

  lemma HiddenFacts(m: Memory, o: nat)
    requires SoundParts(m) && IsUsed(m.h, o)
    ensures HiddenList(m.h, m.hidden) && AllUsed(m.h, m.remembered) && !m.h[o].dark
    ensures o in m.hidden ==> m.h[o].hidden
  {
  }

  lemma NewRoots(m: Memory, roots: seq<nat>, olds: seq<nat>, stack: seq<nat>)
    requires SoundParts(m) && AllUsed(m.h, roots) && AllUsed(m.h, olds) && AllUsed(m.h, stack)
    requires Covered(m.h, m.young, m.remembered, olds)
    ensures SoundParts(m.(roots := roots, olds := olds, stack := stack))
  {
  }

  // What was reachable and is kept stays reachable.
  lemma StillReachable(h: Heap, g: Heap, starts: set<nat>, a: nat)
    requires Reachable(h, starts, a) && AllKept(h, starts, g)
    ensures Reachable(g, starts, a)
  {
    forall b: nat | Reachable(h, starts, b) && b < |h| ensures b < |g| && h[b].fields == g[b].fields {
      assert Kept(h, g, b);
    }
    ReachGrows(h, g, starts, starts, a);
  }

  lemma KeptTwice(h: Heap, g: Heap, k: Heap, starts: set<nat>)
    requires AllKept(h, starts, g) && AllKept(g, starts, k)
    ensures AllKept(h, starts, k)
  {
    hide Reachable;
    forall b: nat | Reachable(h, starts, b) ensures Kept(h, k, b) {
      StillReachable(h, g, starts, b);
      assert Kept(h, g, b) && Kept(g, k, b);
    }
  }

  // ---------- a full collection ----------

  function FullSwept(c: Cell, live: bool): Cell {
    if !c.used then c
    else if live then c.(gen := Older(Older(c.gen)))
    else if c.hidden then c
    else c.(used := false)
  }

  ghost predicate FullDies(h: Heap, live: set<nat>, a: nat) {
    IsUsed(h, a) && a !in live && !h[a].hidden
  }

  // A full collection leaves a pointer to a freed slot exactly when an object it keeps
  // only for being flagged hidden, without tracing it, points to one that dies.
  ghost predicate HiddenTraced(h: Heap, live: set<nat>) {
    forall o: nat, a: nat | IsUsed(h, o) && h[o].hidden && o !in live && a in h[o].fields :: !FullDies(h, live, a)
  }

  lemma FullDanglesIff(h: Heap, g: Heap, live: set<nat>)
    requires NoDangling(h) && FullAfter(h, g, live)
    requires forall o, a | o in live && o < |h| && a in h[o].fields :: a in live
    ensures NoDangling(g) <==> HiddenTraced(h, live)
  {
    if HiddenTraced(h, live) {
      forall o: nat, a: nat | IsUsed(g, o) && a in g[o].fields ensures IsUsed(g, a) {
        assert Alike(g[o], FullSwept(h[o], o in live)) && IsUsed(h, o) && IsUsed(h, a);
        assert Alike(g[a], FullSwept(h[a], a in live));
        assert !FullDies(h, live, a);
      }
    } else {
      var o: nat, a: nat :| IsUsed(h, o) && h[o].hidden && o !in live && a in h[o].fields && FullDies(h, live, a);
      assert Alike(g[o], FullSwept(h[o], o in live)) && Alike(g[a], FullSwept(h[a], a in live));
      assert IsUsed(g, o) && a in g[o].fields && !IsUsed(g, a);
    }
  }

  // A full sweep that has passed the slots below p.
  ghost predicate FullPart(h: Heap, g: Heap, d: set<nat>, p: nat) {
    && |g| == |h|
    && (forall a: nat | a < |h| && a < p :: Alike(g[a], FullSwept(h[a], a in d)))
    && forall a: nat | p <= a < |h| :: Alike(g[a], if a in d then Grayed(h[a], false) else h[a])
  }

  lemma FullPartStep(h: Heap, g: Heap, d: set<nat>, p: nat, c: Cell)
    requires FullPart(h, g, d, p) && p < |h| && Alike(c, FullSwept(h[p], p in d))
    ensures FullPart(h, g[p := c], d, p + 1)
  {
  }

  ghost predicate FullAfter(h: Heap, g: Heap, d: set<nat>) {
    && |h| <= |g|
    && (forall a: nat | a < |h| :: Alike(g[a], FullSwept(h[a], a in d)))
    && forall a: nat | |h| <= a < |g| :: !g[a].used
  }

  lemma FullExtend(h: Heap, g: Heap, g': Heap, d: set<nat>)
    requires FullAfter(h, g, d) && |g| == |h| && g <= g' && forall a | |g| <= a < |g'| :: !g'[a].used
    ensures FullAfter(h, g', d)
  {
    forall a: nat | a < |h| ensures g'[a] == g[a] {
    }
  }

  ghost function FullDead(h: Heap, d: set<nat>): set<nat> {
    set a: nat | a < |h| && FullDies(h, d, a)
  }

  lemma FullSweepSafe(h: Heap, g: Heap, d: set<nat>)
    requires AllWhite(h) && FullAfter(h, g, d)
    ensures AllWhite(g)
    ensures forall a | a in d && IsUsed(h, a) :: Kept(h, g, a)
  {
  }

  // The sweep so far: the slots below p are swept, the free list is new and nothing
  // but the slots on it and those unused before is unused.
  ghost predicate Sweeping(h: Heap, g: Heap, d: set<nat>, p: nat, head: Ptr, f: seq<nat>) {
    && p <= |h| && (forall a | a in d :: IsUsed(h, a)) && FullPart(h, g, d, p) && FreeList(g, head, f)
    && LostSlots(g, f) == LostSlots(h, []) && Addrs(f) == FullDead(h[..p], d)
  }

  lemma SweepStart(h: Heap, g: Heap, d: set<nat>, gray: seq<nat>)
    requires MarkState(h, g, d, gray, false)
    ensures Sweeping(h, g, d, 0, Null, [])
  {
  }

  lemma SweepAt(h: Heap, g: Heap, d: set<nat>, p: nat, head: Ptr, f: seq<nat>)
    requires Sweeping(h, g, d, p, head, f) && p < |h| && AllWhite(h)
    ensures |g| == |h| && g[p].used == h[p].used && g[p].hidden == h[p].hidden
      && (h[p].used ==> (g[p].dark <==> p in d))
    ensures h[p].used ==> !h[p].dark
    ensures p in d ==> h[p].used
    ensures Alike(g[p], if p in d then Grayed(h[p], false) else h[p])
  {
  }

  lemma DeadMore(h: Heap, d: set<nat>, p: nat)
    requires p < |h|
    ensures FullDead(h[..p + 1], d) == FullDead(h[..p], d) + (if FullDies(h, d, p) then {p} else {})
  {
    assert h[..p + 1] == h[..p] + [h[p]];
    forall a: nat | a < p + 1 ensures FullDies(h[..p + 1], d, a)
      <==> (a < p && FullDies(h[..p], d, a)) || (a == p && FullDies(h, d, p)) {
    }
  }

  // A slot that the sweep leaves with or without an object, as it was.
  lemma SweepKeep(h: Heap, g: Heap, d: set<nat>, p: nat, head: Ptr, f: seq<nat>, c: Cell)
    requires Sweeping(h, g, d, p, head, f) && p < |h| && !FullDies(h, d, p)
    requires Alike(c, FullSwept(h[p], p in d)) && c.nextFree == g[p].nextFree && c.used == g[p].used
    ensures Sweeping(h, g[p := c], d, p + 1, head, f)
  {
    DeadMore(h, d, p);
    FullPartStep(h, g, d, p, c);
    if c.used {
      FreeSame(g, head, f, p, c);
    } else {
      ChainSame(g, g[p := c], head, f);
    }
  }

  lemma SweepFree(h: Heap, g: Heap, d: set<nat>, p: nat, head: Ptr, f: seq<nat>, c: Cell)
    requires Sweeping(h, g, d, p, head, f) && p < |h| && FullDies(h, d, p) && IsUsed(g, p)
    requires Alike(c, FullSwept(h[p], p in d)) && c.nextFree == head
    ensures Sweeping(h, g[p := c], d, p + 1, At(p), [p] + f)
  {
    DeadMore(h, d, p);
    FullPartStep(h, g, d, p, c);
    FreePush(g, head, f, p, c);
  }

  lemma SweepEnds(h: Heap, g: Heap, d: set<nat>, head: Ptr, f: seq<nat>)
    requires Sweeping(h, g, d, |h|, head, f)
    ensures FullAfter(h, g, d) && FreeList(g, head, f) && |g| == |h|
    ensures Addrs(f) == FullDead(h, d) && |f| == |FullDead(h, d)|
    ensures LostSlots(g, f) == LostSlots(h, [])
  {
    assert h[..|h|] == h;
    DistinctSize(f);
  }

  lemma {:induction false} DistinctSize(f: seq<nat>)
    requires Distinct(f)
    ensures |Addrs(f)| == |f|
  {
    if f != [] {
      var last := |f| - 1;
      DistinctSize(f[..last]);
      assert f == f[..last] + [f[last]];
      AddrsMore(f[..last], f[last]);
      assert f[last] !in Addrs(f[..last]);
    }
  }

  // A hidden string, which no list names, and its class, which a root leads to.
  lemma HiddenStringPinned(h: Heap, name: nat, class_: nat, starts: set<nat>)
    requires IsUsed(h, name) && h[name].hidden && h[name].fields == [class_]
    requires IsUsed(h, class_) && class_ in starts
    requires forall o: nat | IsUsed(h, o) && o != name :: !h[o].hidden
    ensures Pinned(h, starts)
  {
    RootReachable(h, starts, class_);
  }
}
