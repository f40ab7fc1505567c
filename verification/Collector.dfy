// The generational mark-and-sweep collector: allocation from a free list, the write
// barrier, hidden objects, the young collection and the full collection.
module Collectors {
  import opened Heaps

  function WithField(fields: seq<nat>, i: nat, a: nat): seq<nat>
    requires i <= |fields|
  {
    if i < |fields| then fields[i := a] else fields + [a]
  }

  function WithoutField(fields: seq<nat>, i: nat): seq<nat>
    requires i < |fields|
  {
    fields[..i] + fields[i + 1..]
  }

  // What a program may ask of the collector.
  datatype Action =
    | Allocate(isOld: bool, hide_: bool, inCCall: bool)
    | Store(owner: nat, field: nat, pointed: nat)
    | Remove(owner: nat, field: nat)
    | Age(obj: nat, gen: nat)
    | Hide(obj: nat)
    | Unhide(obj: nat)
    | Reroot(roots: seq<nat>, oldRoots: seq<nat>, stackObjects: seq<nat>)
    | Switch(turnOn: bool)
    | CollectYoung
    | CollectFull

  // When a program may ask it: it holds pointers to objects only.
  predicate Enabled(m: Memory, action: Action) {
    match action
    case Store(o, i, a) => IsUsed(m.h, o) && IsUsed(m.h, a) && i <= |m.h[o].fields|
    case Remove(o, i) => IsUsed(m.h, o) && i < |m.h[o].fields|
    case Age(a, gen) => IsUsed(m.h, a) && (gen > GC_GEN_MIN || a !in m.young || a in m.remembered)
    case Hide(a) => IsUsed(m.h, a)
    case Unhide(a) => IsUsed(m.h, a)
    case Reroot(rs, os, ss) =>
      AllUsed(m.h, rs) && AllUsed(m.h, os) && AllUsed(m.h, ss) && Covered(m.h, m.young, m.remembered, os)
    case _ => true
  }

  // The action may take hidden objects' hold on what they point to.
  predicate Unpins(action: Action) {
    action.Store? || action.Remove? || action.Unhide? || action.Reroot?
  }

  // What the action makes of the memory m, collecting being on or off.
  ghost predicate Does(action: Action, m: Memory, collecting: bool, m': Memory)
    requires Enabled(m, action)
  {
    match action
    case Allocate(isOld, hide_, inCCall) =>
      exists mid :: Roomed(m, isOld, collecting, mid) && mid.free != [] && mid.free[0] < |mid.h|
                    && m' == Placed(mid, isOld, hide_, inCCall)
    case Store(o, i, a) =>
      m' == m.(h := m.h[o := m.h[o].(fields := WithField(m.h[o].fields, i, a))],
               remembered := m.remembered + if m.h[a].gen == GC_GEN_MIN then [a] else [])
    case Remove(o, i) => m' == m.(h := m.h[o := m.h[o].(fields := WithoutField(m.h[o].fields, i))])
    case Age(a, gen) =>
      m' == m.(h := m.h[a := m.h[a].(gen := if gen > GC_GEN_MAX then GC_GEN_MAX else gen)])
    case Hide(a) =>
      m' == m.(h := m.h[a := m.h[a].(hidden := true)],
               hidden := m.hidden + if m.h[a].hidden then [] else [a])
    case Unhide(a) =>
      && m' == m.(h := m.h[a := m.h[a].(hidden := false)], hidden := m'.hidden)
      && Addrs(m'.hidden) == Addrs(m.hidden) - {a}
    case Reroot(rs, os, ss) => m' == m.(roots := rs, olds := os, stack := ss)
    case Switch(_) => m' == m
    case CollectYoung => if collecting then YoungRun(m, m') else m' == m
    case CollectFull => if collecting then FullCollected(m, m') else m' == m
  }

  // Requests that concern the collector alone.
  lemma CollectionsDo(m: Memory, collecting: bool)
    ensures forall turnOn :: Enabled(m, Switch(turnOn)) && Does(Switch(turnOn), m, collecting, m)
    ensures Enabled(m, CollectYoung) && Enabled(m, CollectFull)
    ensures forall m' :: Does(CollectYoung, m, collecting, m') <==> if collecting then YoungRun(m, m') else m' == m
    ensures forall m' :: Does(CollectFull, m, collecting, m') <==> if collecting then FullCollected(m, m') else m' == m
  {
  }

  // The memories of a run: from each to the next the action asked for in between does what
  // it is for, and one for which there is no object is passed over; only a switch turns
  // collecting on or off; all invariants hold in each.
  ghost predicate Chronicle(actions: seq<Action>, states: seq<Memory>, on: seq<bool>) {
    && 0 < |states| == |on| <= |actions| + 1
    && (forall i | 0 <= i < |states| - 1 ::
          if Enabled(states[i], actions[i]) then Does(actions[i], states[i], on[i], states[i + 1])
          else states[i + 1] == states[i])
    && (forall i | 0 <= i < |states| - 1 && !actions[i].Switch? :: on[i + 1] == on[i])
    && forall i | 0 <= i < |states| :: SoundParts(states[i]) && NoDangling(states[i].h)
  }

  lemma ChronicleMore(actions: seq<Action>, states: seq<Memory>, on: seq<bool>, m: Memory, now: bool)
    requires Chronicle(actions, states, on) && |states| <= |actions| && SoundParts(m) && NoDangling(m.h)
    requires var n := |states| - 1;
      && (if Enabled(states[n], actions[n]) then Does(actions[n], states[n], on[n], m) else m == states[n])
      && (actions[n].Switch? || now == on[n])
    ensures Chronicle(actions, states + [m], on + [now])
  {
    hide SoundParts, NoDangling, Enabled, Does;
  }

  class Collector {
    // Slots of all heap pages, page after page.
    var heap: Heap
    var heapsUsed: nat
    var freeList: Ptr
    const youngStack: array<nat>
    var youngStackSz: nat
    var rememberSet: seq<nat>
    var grayStack: seq<nat>
    var hiddenObjs: seq<nat>
    // Pointers held outside the heap: those that every collection visits, those that only
    // a full one visits, and the objects C code is working on.
    var roots: seq<nat>
    var oldRoots: seq<nat>
    var stackObjects: seq<nat>
    var gcOn: bool
    var disableGC: bool
    var inGC: bool
    var inYoungGC: bool
    var inFullGC: bool
    // The slots on the free list, in its order.
    ghost var free: seq<nat>
    // The slots grayed by the running collection.
    ghost var marked: set<nat>

    // ---------- invariants ----------

    function Young(): seq<nat>
      reads `youngStackSz, youngStack
      requires youngStackSz <= youngStack.Length
    {
      youngStack[..youngStackSz]
    }

    ghost function Here(): Memory
      reads this, youngStack
      requires youngStackSz <= youngStack.Length
    {
      Memory(heap, heapsUsed, freeList, free, Young(), rememberSet, hiddenObjs, roots, oldRoots, stackObjects)
    }

    // Everything the collector treats as a starting point.
    ghost function Roots(): set<nat>
      reads `roots, `oldRoots, `stackObjects, `hiddenObjs
    {
      From(roots, oldRoots, stackObjects, hiddenObjs)
    }

    // Unused slots that the free list does not reach.
    ghost function Lost(): set<nat>
      reads `heap, `free
    {
      LostSlots(heap, free)
    }

    ghost predicate Idle()
      reads this
    {
      !inGC && !inYoungGC && !inFullGC && grayStack == []
    }

    // All that holds between operations, but for pointers to freed slots.
    ghost predicate Sound()
      reads this, youngStack
    {
      && youngStack.Length == YOUNG_MARK_STACK_MAX && youngStackSz <= youngStack.Length && Idle()
      && SoundParts(Here())
    }

    ghost predicate Valid()
      reads this, youngStack
    {
      Sound() && NoDangling(heap)
    }

    // Whatever a hidden object points to is hidden or reachable.
    ghost predicate HiddenPinned()
      reads this
    {
      Pinned(heap, Roots())
    }

    predicate Collecting()
      reads `gcOn, `disableGC
    {
      gcOn && !disableGC
    }

    constructor (disableGC: bool)
      ensures Valid() && HiddenPinned() && heap == [] && roots == oldRoots == stackObjects == hiddenObjs == []
      ensures gcOn && this.disableGC == disableGC && Lost() == {} && fresh(youngStack)
    {
      heap, heapsUsed, freeList, free := [], 0, Null, [];
      youngStack, youngStackSz := new nat[YOUNG_MARK_STACK_MAX], 0;
      rememberSet, grayStack, hiddenObjs, roots, oldRoots, stackObjects := [], [], [], [], [], [];
      gcOn, this.disableGC, inGC, inYoungGC, inFullGC := true, disableGC, false, false, false;
      marked := {};
    }

    // ---------- graying ----------

    // The heap is that of the start of the collection with the marked slots grayed.
    ghost predicate Marking(h0: Heap)
      reads this
    {
      MarkState(h0, heap, marked, grayStack, inYoungGC)
    }

    method GrayObject(a: nat, ghost h0: Heap)
      requires Marking(h0) && AllWhite(h0) && IsUsed(h0, a)
      modifies `heap, `grayStack, `marked
      ensures Marking(h0)
      ensures marked == old(marked) + Grayable(h0, [a], inYoungGC)
      ensures Pushed(old(marked), old(grayStack), marked, grayStack)
    {
      hide MarkState, AllWhite, Mark, Grayable, Addrs, Pushed;
      MarkStep(h0, heap, marked, grayStack, inYoungGC, a);
      if heap[a].dark {
        return;
      }
      if inYoungGC && heap[a].gen > GC_GEN_MIN {
        return;
      }
      heap := heap[a := Grayed(heap[a], inYoungGC)];
      grayStack := grayStack + [a];
      marked := marked + {a};
    }

    // Grays every object of s in turn.
    method GrayAll(s: seq<nat>, ghost h0: Heap)
      requires Marking(h0) && AllWhite(h0) && AllUsed(h0, s)
      modifies `heap, `grayStack, `marked
      ensures Marking(h0)
      ensures marked == old(marked) + Grayable(h0, s, inYoungGC)
      ensures Pushed(old(marked), old(grayStack), marked, grayStack)
    {
      hide Marking, MarkState, AllWhite, Mark, Grayable, Addrs, Pushed, Grayed, IsUsed;
      NothingYet(h0, s, inYoungGC, marked, grayStack);
      for i := 0 to |s|
        invariant Marking(h0)
        invariant marked == old(marked) + Grayable(h0, s[..i], inYoungGC)
        invariant Pushed(old(marked), old(grayStack), marked, grayStack)
      {
        ghost var was, wasGray := marked, grayStack;
        GrayableMore(h0, s, i, inYoungGC);
        GrayObject(s[i], h0);
        PushedMore(old(marked), old(grayStack), was, wasGray, marked, grayStack);
      }
      assert s[..|s|] == s;
    }

    // Grays what the object points to.
    method BlackenObject(a: nat, ghost h0: Heap)
      requires Marking(h0) && AllWhite(h0) && a in marked && AllUsed(h0, h0[a].fields)
      modifies `heap, `grayStack, `marked
      ensures Marking(h0)
      ensures marked == old(marked) + Grayable(h0, h0[a].fields, inYoungGC)
      ensures Pushed(old(marked), old(grayStack), marked, grayStack)
    {
      if !heap[a].used {
        return;
      }
      GrayAll(heap[a].fields, h0);
    }

    lemma MarkingFacts(h0: Heap)
      requires Marking(h0)
      ensures |marked| <= |h0| && (forall a | a in marked :: IsUsed(h0, a)) && Addrs(grayStack) <= marked
      ensures |heap| == |h0|
    {
      BoundedSet(marked, |h0|);
    }

    method PopGray(ghost h0: Heap) returns (a: nat)
      requires Marking(h0) && |grayStack| > 0
      modifies `grayStack
      ensures Marking(h0) && old(grayStack) == grayStack + [a] && a in marked && IsUsed(h0, a)
    {
      var top := |grayStack| - 1;
      a := grayStack[top];
      assert a in Addrs(grayStack);
      grayStack := grayStack[..top];
      assert Addrs(grayStack) <= Addrs(old(grayStack));
    }

    // Pops and blackens until no slot is gray.
    method TraceReferences(ghost h0: Heap)
      requires Marking(h0) && AllWhite(h0) && NoDangling(h0) && !inYoungGC && marked == Addrs(grayStack)
      modifies `heap, `grayStack, `marked
      ensures Marking(h0) && grayStack == [] && old(marked) <= marked
      ensures AllReachable(h0, old(marked), marked) && TriColour(h0, marked, [])
    {
      hide Marking, MarkState, AllWhite, Mark, Grayable, Addrs, Pushed, NoDangling, TriColour, AllReachable;
      MarkingFacts(h0);
      TraceStart(h0, marked, grayStack);
      while |grayStack| > 0
        invariant Marking(h0) && old(marked) <= marked
        invariant AllReachable(h0, old(marked), marked) && TriColour(h0, marked, grayStack)
        decreases |h0| - |marked|, |grayStack|
      {
        ghost var wasMarked := marked;
        var a := PopGray(h0);
        ghost var wasGray := grayStack;
        FieldsUsed(h0, a);
        BlackenObject(a, h0);
        BlackenKeeps(h0, old(marked), wasMarked, wasGray, a, marked, grayStack);
        MarkingFacts(h0);
      }
    }

    // ---------- young collection ----------

    lemma NoYoung()
      requires youngStackSz == 0
      ensures Young() == []
    {
    }

    // The young gray loop: a counter of its own, which moves by what blackening pushed,
    // while the gray stack itself only grows.  Whatever was gray at the start has its young
    // fields marked, and nothing is marked that is not reachable.
    method TraceYoung(ghost h0: Heap, ghost starts: set<nat>)
      requires Marking(h0) && AllWhite(h0) && NoDangling(h0) && inYoungGC && Addrs(grayStack) == marked
      requires AllReachable(h0, starts, marked)
      modifies `heap, `grayStack, `marked
      ensures Marking(h0) && old(marked) <= marked && Addrs(grayStack) == marked
      ensures AllReachable(h0, starts, marked)
      ensures forall a | a in old(grayStack) :: a < |h0| && Grayable(h0, h0[a].fields, true) <= marked
    {
      hide Marking, MarkState, AllWhite, Mark, Grayable, Addrs, NoDangling, AllReachable;
      MarkingFacts(h0);
      var grayCount := |grayStack|;
      ghost var first := grayStack;
      while grayCount > 0
        invariant 0 <= grayCount <= |grayStack| && first <= grayStack
        invariant Marking(h0) && old(marked) <= marked && Addrs(grayStack) == marked
        invariant AllReachable(h0, starts, marked)
        invariant forall i | grayCount <= i < |first| ::
          first[i] < |h0| && Grayable(h0, h0[first[i]].fields, true) <= marked
        decreases |h0| - |marked|, grayCount
      {
        grayCount := grayCount - 1;
        var a := grayStack[grayCount];
        InAddrs(grayStack, grayCount);
        MarkingFacts(h0);
        YoungMarked(h0, a);
        FieldsUsed(h0, a);
        FieldsReachable(h0, starts, marked, a);
        var oldCount := |grayStack|;
        if heap[a].gen == GC_GEN_MIN {
          BlackenObject(a, h0);
        }
        var newCount := |grayStack|;
        grayCount := grayCount + (newCount - oldCount);
        MarkingFacts(h0);
      }
    }

    lemma YoungMarked(h0: Heap, a: nat)
      requires Marking(h0) && inYoungGC && a in marked
      ensures a < |heap| && heap[a].gen == GC_GEN_MIN
    {
    }

    // One slot of the young stack: kept, promoted or put on the new free list.
    method SweepYoung(a: nat, newFreeList: Ptr, ghost f: seq<nat>) returns (list: Ptr, ghost f': seq<nat>)
      requires FreeList(heap, newFreeList, f) && IsUsed(heap, a)
      modifies `heap
      ensures |heap| == |old(heap)| && heap == old(heap)[a := heap[a]]
      ensures FreeList(heap, list, f') && LostSlots(heap, f') == LostSlots(old(heap), f) && |f'| >= |f|
      ensures Alike(heap[a], YoungSwept(old(heap)[a], true, old(heap)[a].dark || a in rememberSet).(dark := false))
    {
      hide FreeList, LostSlots;
      list, f' := newFreeList, f;
      if heap[a].gen > GC_GEN_MIN || heap[a].hidden {
        FreeSame(heap, list, f, a, heap[a].(dark := false));
        heap := heap[a := heap[a].(dark := false)];
      } else if heap[a].dark {
        FreeSame(heap, list, f, a, heap[a].(gen := Older(heap[a].gen), dark := false));
        heap := heap[a := heap[a].(gen := Older(heap[a].gen), dark := false)];
      } else if a in rememberSet {
        FreeSame(heap, list, f, a, heap[a].(gen := Older(heap[a].gen), dark := false));
        heap := heap[a := heap[a].(gen := Older(heap[a].gen), dark := false)];
      } else {
        FreePush(heap, list, f, a, heap[a].(nextFree := list, used := false));
        heap := heap[a := heap[a].(nextFree := list, used := false)];
        list, f' := At(a), [a] + f;
      }
    }

    // Sweeps the young stack and leaves it to the caller to clear it.
    method SweepYoungStack(ghost h0: Heap, ghost young: seq<nat>)
      requires youngStack.Length == YOUNG_MARK_STACK_MAX && youngStackSz <= youngStack.Length && young == Young()
      requires Distinct(young) && AllUsed(h0, young) && AllWhite(h0)
      requires MarkState(h0, heap, marked, grayStack, true) && Addrs(grayStack) == marked
      requires FreeList(heap, freeList, free)
      modifies `heap, `freeList, `free
      ensures YoungOver(h0, heap, young, rememberSet, marked, grayStack)
      ensures FreeList(heap, freeList, free) && Lost() == old(Lost()) && |free| >= |old(free)|
    {
      hide FreeList, LostSlots, YoungPart, AllWhite, MarkState, Mark, Alike, YoungSwept;
      var newFreeList := freeList;
      ghost var f := free;
      YoungPartStart(h0, heap, young, rememberSet, marked, grayStack);
      for i := 0 to youngStackSz
        invariant YoungPart(h0, heap, young[..i], rememberSet, marked)
        invariant FreeList(heap, newFreeList, f) && LostSlots(heap, f) == old(Lost()) && |f| >= |old(free)|
      {
        var a := youngStack[i];
        assert young[i] == a && a in young;
        ghost var h := heap;
        YoungPartAt(h0, h, young, i, rememberSet, marked);
        newFreeList, f := SweepYoung(a, newFreeList, f);
        YoungCellSwept(h0[a], h[a], heap[a], a in marked, a in rememberSet);
        YoungPartStep(h0, h, young, i, rememberSet, marked, heap[a]);
      }
      assert young[..youngStackSz] == young;
      freeList, free := newFreeList, f;
      YoungSweepOver(h0, heap, young, rememberSet, marked, grayStack);
    }

    // Takes the marks of what is still on the gray stack.
    method WhitenGray(ghost h0: Heap, ghost young: seq<nat>)
      requires AllWhite(h0) && YoungOver(h0, heap, young, rememberSet, marked, grayStack)
      requires forall a | a in grayStack :: a in marked && IsUsed(h0, a)
      requires FreeList(heap, freeList, free)
      modifies `heap, `grayStack
      ensures grayStack == [] && YoungAfter(h0, heap, young, rememberSet, marked)
      ensures FreeList(heap, freeList, free) && Lost() == old(Lost())
    {
      hide FreeList, LostSlots, YoungOver, AllWhite, Alike, YoungSwept;
      while |grayStack| > 0
        invariant YoungOver(h0, heap, young, rememberSet, marked, grayStack)
        invariant forall a | a in grayStack :: a in marked && IsUsed(h0, a)
        invariant FreeList(heap, freeList, free) && Lost() == old(Lost())
        decreases |grayStack|
      {
        var top := |grayStack| - 1;
        var a := grayStack[top];
        assert grayStack == grayStack[..top] + [a];
        grayStack := grayStack[..top];
        WhitenStep(h0, heap, young, rememberSet, marked, grayStack, a);
        FreeSame(heap, freeList, free, a, heap[a].(dark := false));
        heap := heap[a := heap[a].(dark := false)];
      }
      YoungIsOver(h0, heap, young, rememberSet, marked);
    }

    // Grays the roots and what the young gray loop reaches from them.
    method MarkYoung(ghost h0: Heap)
      requires Marking(h0) && AllWhite(h0) && NoDangling(h0) && inYoungGC && marked == {} && grayStack == []
      requires AllUsed(h0, roots) && AllUsed(h0, stackObjects)
      modifies `heap, `grayStack, `marked
      ensures Marking(h0) && Addrs(grayStack) == marked
      ensures Grayable(h0, roots, true) <= marked && Grayable(h0, stackObjects, true) <= marked
      ensures AllReachable(h0, Addrs(roots) + Addrs(stackObjects), marked)
    {
      hide Marking, MarkState, AllWhite, NoDangling, Grayable, Pushed, Addrs, AllReachable;
      ghost var starts := Addrs(roots) + Addrs(stackObjects);
      NoneMarked(h0, starts);
      GrayedReachable(h0, starts, roots, {});
      GrayAll(roots, h0);
      ghost var was, wasGray := marked, grayStack;
      GrayedReachable(h0, starts, stackObjects, marked);
      GrayAll(stackObjects, h0);
      PushedMore({}, [], was, wasGray, marked, grayStack);
      PushedAll(marked, grayStack);
      TraceYoung(h0, starts);
    }

    // Marks, sweeps the young stack and takes the marks back.
    method MarkAndSweepYoung(ghost young: seq<nat>)
      requires youngStack.Length == YOUNG_MARK_STACK_MAX && youngStackSz <= youngStack.Length && young == Young()
      requires SoundParts(Here()) && NoDangling(heap) && inYoungGC && grayStack == []
      modifies `heap, `freeList, `free, `grayStack, `marked
      ensures grayStack == [] && YoungAfter(old(heap), heap, young, rememberSet, marked)
      ensures Grayable(old(heap), roots, true) <= marked && Grayable(old(heap), stackObjects, true) <= marked
      ensures AllReachable(old(heap), Addrs(roots) + Addrs(stackObjects), marked)
      ensures FreeList(heap, freeList, free) && Lost() == old(Lost()) && |free| >= |old(free)|
    {
      hide SoundParts, AllWhite, YoungOver, FreeList, LostSlots, AllUsed, Alike, YoungAfter, NoDangling, MarkState,
        Grayable, AllReachable;
      SoundFacts(Here());
      ghost var h0 := heap;
      marked := {};
      MarkNothing(h0, true);
      MarkYoung(h0);
      MarkLost(h0, heap, marked, grayStack, true, freeList, free);
      SweepYoungStack(h0, young);
      GrayFacts(h0, marked, grayStack);
      WhitenGray(h0, young);
    }

    // A young collection that has something to look at.
    method YoungCycle()
      requires Valid()
      modifies `heap, `freeList, `youngStackSz, `rememberSet, `grayStack, `inGC, `inYoungGC, `free, `marked
      ensures Valid() && Lost() == old(Lost()) && (old(HiddenPinned()) ==> HiddenPinned())
      ensures YoungCollected(old(Here()), Here()) && AllKept(old(heap), Roots(), heap)
    {
      hide SoundParts, NoDangling, Pinned, YoungAfter, LostSlots, AllKept, Grayable, From, FreeList, Young, AllWhite,
        Distinct, AllUsed, Addrs, StartsUsed, AllReachable, YoungCollected;
      ghost var m := Here();
      inGC, inYoungGC := true, true;
      MarkAndSweepYoung(Young());
      rememberSet := [];
      inYoungGC, inGC := false, false;
      youngStackSz := 0;
      NoYoung();
      ghost var m' := Here();
      assert m' == m.(h := heap, head := freeList, free := free, young := [], remembered := []);
      YoungDone(m, marked, m');
      YoungDoes(m, marked, m');
    }

    // Frees exactly the young objects that no root, C code or remembered entry names, and
    // ages the other young ones, whatever the gray loop has or has not traced.
    method CollectYoungGarbage()
      requires Valid()
      modifies `heap, `freeList, `youngStackSz, `rememberSet, `grayStack, `inGC, `inYoungGC, `free, `marked
      ensures Valid() && Lost() == old(Lost()) && (old(HiddenPinned()) ==> HiddenPinned())
      ensures if Collecting() then YoungRun(old(Here()), Here()) else Here() == old(Here())
      ensures AllKept(old(heap), Roots(), heap)
    {
      hide SoundParts, NoDangling, Pinned, LostSlots, AllKept, From, Young, YoungCollected;
      YoungSize();
      if gcOn && !disableGC && youngStackSz > 0 {
        YoungCycle();
      } else {
        StartKept();
      }
    }

    lemma YoungSize()
      requires youngStackSz <= youngStack.Length
      ensures |Young()| == youngStackSz
    {
    }

    lemma NoneMarked(h0: Heap, starts: set<nat>)
      ensures AllReachable(h0, starts, {})
    {
    }

    // ---------- full collection ----------

    // Adds a page of unused slots, whatever its memory held before.
    method AddHeap()
      requires FreeList(heap, freeList, free) && |heap| == heapsUsed * HEAP_SLOTS
      modifies `heap, `heapsUsed, `freeList, `free
      ensures FreeList(heap, freeList, free) && freeList.At? && Lost() == old(Lost())
      ensures heapsUsed == old(heapsUsed) + 1 && |heap| == heapsUsed * HEAP_SLOTS
      ensures old(heap) <= heap && forall a | |old(heap)| <= a < |heap| :: !heap[a].used
    {
      hide FreeList, LostSlots;
      var n := |heap| + HEAP_SLOTS;
      heapsUsed := heapsUsed + 1;
      while |heap| < n
        invariant heapsUsed == old(heapsUsed) + 1 && |old(heap)| <= |heap| <= n && old(heap) <= heap
        invariant forall a | |old(heap)| <= a < |heap| :: !heap[a].used
        invariant FreeList(heap, freeList, free) && Lost() == old(Lost())
        invariant |heap| > |old(heap)| ==> freeList.At?
      {
        var memory: Cell := *;
        var c := memory.(used := false, nextFree := freeList);
        FreeExtend(heap, freeList, free, c);
        freeList, free := At(|heap|), [|heap|] + free;
        heap := heap + [c];
      }
    }

    // One slot of the sweep, after p slots; counts what it frees, twice.
    method SweepSlot(p: nat, newFreeList: Ptr, freed: nat, ghost f: seq<nat>, ghost h0: Heap)
      returns (list: Ptr, numObjectsFreed: nat, ghost f': seq<nat>)
      requires Sweeping(h0, heap, marked, p, newFreeList, f) && p < |h0| && AllWhite(h0)
      requires (forall a | a in stackObjects :: a in marked) && freed == 2 * |f|
      modifies `heap
      ensures Sweeping(h0, heap, marked, p + 1, list, f') && numObjectsFreed == 2 * |f'|
    {
      hide Sweeping, AllWhite;
      list, numObjectsFreed, f' := newFreeList, freed, f;
      SweepAt(h0, heap, marked, p, list, f);
      var c := heap[p];
      if !c.used {
        SweepKeep(h0, heap, marked, p, list, f, c);
        assert heap[p := c] == heap;
      } else if !c.dark && !c.hidden {
        if p !in stackObjects {
          numObjectsFreed := numObjectsFreed + 1;
          var d := c.(nextFree := list, used := false);
          SweepFree(h0, heap, marked, p, list, f, d);
          heap := heap[p := d];
          list, f' := At(p), [p] + f;
          numObjectsFreed := numObjectsFreed + 1;
        }
      } else if c.hidden && !c.dark {
        SweepKeep(h0, heap, marked, p, list, f, c);
        assert heap[p := c] == heap;
      } else {
        var d := c.(gen := Older(c.gen), dark := false);
        SweepKeep(h0, heap, marked, p, list, f, d);
        heap := heap[p := d];
      }
    }

    // Sweeps page after page, building the free list anew.
    method SweepHeaps(ghost h0: Heap) returns (numObjectsFreed: nat)
      requires MarkState(h0, heap, marked, grayStack, false) && AllWhite(h0) && |heap| == heapsUsed * HEAP_SLOTS
      requires forall a | a in stackObjects :: a in marked
      modifies `heap, `freeList, `free
      ensures FullAfter(h0, heap, marked) && FreeList(heap, freeList, free) && |heap| == |h0|
      ensures Lost() == LostSlots(h0, []) && numObjectsFreed == 2 * |FullDead(h0, marked)|
      ensures Addrs(free) == FullDead(h0, marked) && |free| == |FullDead(h0, marked)|
    {
      hide Sweeping, MarkState, AllWhite, LostSlots, FullDead, FullAfter, FreeList;
      freeList, free, numObjectsFreed := Null, [], 0;
      SweepStart(h0, heap, marked, grayStack);
      MarkSize(h0, heap, marked, grayStack, false);
      for i := 0 to heapsUsed
        invariant Sweeping(h0, heap, marked, i * HEAP_SLOTS, freeList, free) && numObjectsFreed == 2 * |free|
      {
        var newFreeList := freeList;
        ghost var f := free;
        var p := i * HEAP_SLOTS;
        var pend := p + HEAP_SLOTS;
        while p < pend
          invariant i * HEAP_SLOTS <= p <= pend <= |h0|
          invariant Sweeping(h0, heap, marked, p, newFreeList, f) && numObjectsFreed == 2 * |f|
        {
          newFreeList, numObjectsFreed, f := SweepSlot(p, newFreeList, numObjectsFreed, f, h0);
          p := p + 1;
        }
        freeList, free := newFreeList, f;
      }
      SweepEnds(h0, heap, marked, freeList, free);
    }

    // Grays every starting point.
    method GrayStarts(ghost m: Memory)
      requires Marking(m.h) && AllWhite(m.h) && !inYoungGC && marked == {} && grayStack == [] && StartsUsed(m)
      requires m.roots == roots && m.olds == oldRoots && m.stack == stackObjects && m.hidden == hiddenObjs
      modifies `heap, `grayStack, `marked
      ensures Marking(m.h) && marked == Starts(m) == Addrs(grayStack)
    {
      hide Marking, MarkState, AllWhite, Grayable, Pushed, Addrs, From, AllUsed, StartsUsed;
      UsedStarts(m);
      GrayAll(roots, m.h);
      ghost var was, wasGray := marked, grayStack;
      GrayAll(oldRoots, m.h);
      PushedMore({}, [], was, wasGray, marked, grayStack);
      was, wasGray := marked, grayStack;
      GrayAll(stackObjects, m.h);
      PushedMore({}, [], was, wasGray, marked, grayStack);
      was, wasGray := marked, grayStack;
      GrayAll(hiddenObjs, m.h);
      PushedMore({}, [], was, wasGray, marked, grayStack);
      PushedAll(marked, grayStack);
      GrayableStarts(m);
    }

    // Grays every starting point and all they reach.
    method MarkFull(ghost m: Memory)
      requires Marking(m.h) && AllWhite(m.h) && !inYoungGC && marked == {} && grayStack == [] && StartsUsed(m)
      requires m.roots == roots && m.olds == oldRoots && m.stack == stackObjects && m.hidden == hiddenObjs
      requires NoDangling(m.h)
      modifies `heap, `grayStack, `marked
      ensures Marking(m.h) && grayStack == [] && Starts(m) <= marked
      ensures forall a: nat :: a in marked <==> Reachable(m.h, Starts(m), a)
    {
      hide Marking, AllWhite, NoDangling, From, AllReachable, TriColour, Reachable, StartsUsed;
      GrayStarts(m);
      TraceReferences(m.h);
      AllMarked(m.h, Starts(m), marked);
    }

    // A page added between collections.
    method AddPage()
      requires Valid()
      modifies `heap, `heapsUsed, `freeList, `free
      ensures Valid() && freeList.At? && Lost() == old(Lost()) && heapsUsed == old(heapsUsed) + 1 && old(heap) <= heap
      ensures AllKept(old(heap), Roots(), heap) && (old(HiddenPinned()) ==> HiddenPinned())
      ensures PageAdded(old(Here()), Here())
    {
      hide SoundParts, NoDangling, Pinned, LostSlots, AllKept, From, FreeList, Young, StartsUsed, PageAdded;
      SoundFacts(Here());
      AddHeap();
      SoundFacts(old(Here()));
      AddedSound(old(Here()), Here());
      PageDoes(old(Here()), Here());
    }

    lemma StartKept()
      requires Valid()
      ensures AllKept(heap, Roots(), heap)
    {
      KeptSelf(Here());
    }

    lemma RunEmpties(m: Memory)
      requires youngStackSz <= youngStack.Length && YoungRun(m, Here())
      ensures youngStackSz == 0
    {
      YoungSize();
    }

    lemma FullEmpties(m: Memory)
      requires youngStackSz <= youngStack.Length && FullCollected(m, Here())
      ensures youngStackSz == 0
    {
      YoungSize();
    }

    lemma SoundLists(m: Memory, m': Memory)
      requires SoundParts(m) && SoundParts(m')
      ensures FreeList(m.h, m.head, m.free) && FreeList(m'.h, m'.head, m'.free)
    {
    }

    // How room was made, by the number of tries.
    lemma MadeRoom(m: Memory, isOld: bool, tries: nat, mid: Memory)
      requires SoundParts(m) && Sound() && freeList.At? && tries <= 2
      requires tries == 0 ==> Here() == m && (isOld || |m.young| < YOUNG_MARK_STACK_MAX || !Collecting())
      requires tries >= 1 ==> !(m.head.At? && (isOld || |m.young| < YOUNG_MARK_STACK_MAX))
      requires tries == 1 && !Collecting() ==> m.head == Null && PageAdded(m, Here())
      requires tries == 1 && Collecting() ==> YoungRun(m, Here())
      requires tries == 2 ==> Collecting() && m.head == Null && YoungGarbage(m) == {}
      requires tries == 2 ==> YoungRun(m, mid) && FullCollected(mid, Here())
      ensures Roomed(m, isOld, Collecting(), Here())
    {
      hide SoundParts, FreeList, YoungRun, FullCollected, PageAdded, YoungGarbage, Young;
      SoundLists(m, Here());
      if tries == 1 && Collecting() {
        YoungRooms(m, isOld, Here());
      }
    }

    lemma NoneFree()
      requires Valid()
      ensures (freeList == Null <==> free == []) && (free == [] ==> Addrs(free) == {})
    {
      SoundFacts(Here());
      FreeHead(heap, freeList, free);
    }

    // Marks, sweeps every page and adds a page when little came free.
    method MarkAndSweep(ghost m: Memory)
      requires SoundParts(m) && m.h == heap && m.pages == heapsUsed && m.head == freeList && m.free == free
      requires m.hidden == hiddenObjs && m.roots == roots && m.olds == oldRoots && m.stack == stackObjects
      requires NoDangling(heap) && !inYoungGC && grayStack == []
      modifies `heap, `heapsUsed, `freeList, `free, `grayStack, `marked
      ensures grayStack == [] && Roots() <= marked && FullAfter(old(heap), heap, marked)
      ensures forall a: nat :: a in marked <==> Reachable(old(heap), Roots(), a)
      ensures FreeList(heap, freeList, free) && freeList.At? && |heap| == heapsUsed * HEAP_SLOTS
      ensures heapsUsed == old(heapsUsed) + if 2 * |FullDead(old(heap), marked)| < FREE_MIN then 1 else 0
      ensures Lost() == old(Lost()) + Addrs(old(free))
    {
      hide SoundParts, NoDangling, AllWhite, FreeList, LostSlots, FullDead, FullAfter, MarkState, Reachable, Addrs,
        From, StartsUsed;
      SoundFacts(m);
      LostAll(heap, freeList, free);
      ghost var h0 := heap;
      marked := {};
      MarkNothing(h0, false);
      MarkFull(m);
      MarkSize(h0, heap, marked, grayStack, false);
      StackMarked(m, marked);
      var numObjectsFreed := SweepHeaps(h0);
      ghost var h1 := heap;
      FreeHead(heap, freeList, free);
      if numObjectsFreed < FREE_MIN {
        AddHeap();
      }
      FullExtend(h0, h1, heap, marked);
    }

    // A full collection, when collecting is on.
    method FullCycle()
      requires Valid()
      modifies `heap, `heapsUsed, `freeList, `youngStackSz, `rememberSet, `grayStack, `inGC, `inFullGC, `free, `marked
      ensures Sound() && (old(HiddenPinned()) ==> HiddenPinned()) && (NoDangling(heap) <==> old(HiddenPinned()))
      ensures FullCollected(old(Here()), Here())
      ensures freeList.At? && Lost() == old(Lost()) + Addrs(old(free)) && AllKept(old(heap), Roots(), heap)
    {
      hide SoundParts, NoDangling, Pinned, FullAfter, FullDead, LostSlots, AllKept, Reachable, From, FreeList, Young,
        AllWhite, Distinct, AllUsed, Addrs, StartsUsed, FullCollected;
      ghost var m := Here();
      inFullGC, inGC := true, true;
      MarkAndSweep(m);
      rememberSet := [];
      youngStackSz := 0;
      inGC, inFullGC := false, false;
      NoYoung();
      ghost var m' := Here();
      assert m' == m.(h := heap, pages := heapsUsed, head := freeList, free := free, young := [], remembered := []);
      FullDone(m, marked, m');
      FullDoes(m, marked, m');
    }

    // Frees exactly the objects that are neither reachable nor hidden.  No pointer is left
    // dangling if and only if hidden objects point only to what is hidden or reachable.
    method CollectGarbage()
      requires Valid()
      modifies `heap, `heapsUsed, `freeList, `youngStackSz, `rememberSet, `grayStack, `inGC, `inFullGC, `free, `marked
      ensures Sound() && (old(HiddenPinned()) ==> Valid() && HiddenPinned())
      ensures Collecting() ==> FullCollected(old(Here()), Here()) && freeList.At?
      ensures !Collecting() ==> Here() == old(Here()) && Valid()
      ensures Collecting() ==> (NoDangling(heap) <==> old(HiddenPinned()))
      ensures Collecting() ==> Lost() == old(Lost()) + Addrs(old(free))
      ensures Collecting() ==> (Lost() == {} <==> old(Lost()) == {} && old(free) == [])
      ensures AllKept(old(heap), Roots(), heap)
    {
      hide SoundParts, NoDangling, Pinned, FullCollected, LostSlots, AllKept, Reachable, From, Young, Addrs;
      if !gcOn || disableGC {
        StartKept();
        return;
      }
      NoneLost(Lost(), free);
      FullCycle();
    }

    // ---------- allocation ----------

    // Making room will not leave pointers dangling: no full collection is needed, or it
    // finds hidden objects pinned.
    ghost predicate Spared()
      reads this
    {
      freeList.At? || !Collecting() || HiddenPinned()
    }

    // How far making room has come after so many tries, from m, mid being the memory behind
    // the young collection.
    ghost predicate Rooming(m: Memory, mid: Memory, tries: nat, tried: bool, noGC: bool)
      reads this, youngStack
    {
      && Sound() && tries <= 2 && (tries <= 1 ==> Valid())
      && (tries == 0 ==> tried == noGC == !Collecting() && Here() == m)
      && (tries == 1 && !Collecting() ==> tried && freeList.At? && m.head == Null && PageAdded(m, Here()))
      && (tries == 1 && Collecting() ==> tried && !noGC && YoungRun(m, Here()) && youngStackSz == 0)
      && (tries == 2 ==> tried && Collecting() && freeList.At? && youngStackSz == 0)
      && (tries == 2 ==> m.head == Null && YoungGarbage(m) == {} && YoungRun(m, mid) && FullCollected(mid, Here()))
    }

    // One try: a young collection, a page, or a full collection.
    method TryRoom(tries: nat, tried: bool, noGC: bool, ghost m: Memory, ghost mid: Memory)
      returns (tried': bool, noGC': bool, ghost mid': Memory)
      requires Rooming(m, mid, tries, tried, noGC) && SoundParts(m)
      requires (tries == 0 && Collecting()) || freeList == Null
      modifies `heap, `heapsUsed, `freeList, `youngStackSz, `rememberSet, `grayStack, `inGC, `inYoungGC, `inFullGC,
        `free, `marked
      ensures Rooming(m, mid', tries + 1, tried', noGC') && Lost() == old(Lost())
      ensures old(HiddenPinned()) ==> Valid() && HiddenPinned()
      ensures AllKept(old(heap), Roots(), heap)
    {
      hide SoundParts, NoDangling, Pinned, LostSlots, AllKept, From, FreeList, YoungRun, FullCollected, PageAdded,
        Addrs, Young;
      NoneFree();
      tried', noGC', mid' := tried, noGC, mid;
      if !tried && !noGC {
        CollectYoungGarbage();
        RunEmpties(m);
        tried' := true;
      } else if noGC {
        AddPage();
      } else {
        mid' := Here();
        SoundLists(m, mid');
        YoungLeaves(m, mid');
        CollectGarbage();
        FullEmpties(mid');
        noGC' := true;
      }
    }

    // Collects or adds pages until the free list holds a slot for the new object: after
    // two attempts at most, and losing no slot.
    method FindRoom(isOld: bool) returns (tries: nat)
      requires Valid()
      modifies `heap, `heapsUsed, `freeList, `youngStackSz, `rememberSet, `grayStack, `inGC, `inYoungGC, `inFullGC,
        `free, `marked
      ensures Sound() && freeList.At? && tries < 3 && Lost() == old(Lost())
      ensures Roomed(old(Here()), isOld, Collecting(), Here())
      ensures (old(Spared()) ==> Valid()) && (old(HiddenPinned()) ==> HiddenPinned())
      ensures isOld || youngStackSz < YOUNG_MARK_STACK_MAX || !Collecting()
      ensures AllKept(old(heap), Roots(), heap)
    {
      hide SoundParts, NoDangling, Pinned, LostSlots, AllKept, From, FreeList, YoungRun, FullCollected, PageAdded,
        Roomed, Addrs, Young;
      YoungSize();
      ghost var m, mid := Here(), Here();
      var noGC := disableGC || !gcOn;
      var triedYoungCollect := noGC;
      tries := 0;
      StartKept();
      while !(freeList.At? && (isOld || youngStackSz < YOUNG_MARK_STACK_MAX || triedYoungCollect))
        invariant Rooming(m, mid, tries, triedYoungCollect, noGC) && Lost() == old(Lost())
        invariant old(HiddenPinned()) ==> Valid() && HiddenPinned()
        invariant tries >= 1 ==> !(m.head.At? && (isOld || |m.young| < YOUNG_MARK_STACK_MAX))
        invariant AllKept(old(heap), Roots(), heap)
        decreases 2 - tries
      {
        ghost var was := heap;
        YoungSize();
        triedYoungCollect, noGC, mid := TryRoom(tries, triedYoungCollect, noGC, m, mid);
        KeptTwice(old(heap), was, heap, Roots());
        tries := tries + 1;
      }
      YoungSize();
      MadeRoom(m, isOld, tries, mid);
    }

    // Takes the first free slot, puts it on the young stack if it is young and fits, and
    // makes it an object.
    method TakeSlot(isOld: bool, hide_: bool) returns (a: nat)
      requires Sound() && freeList.At?
      modifies `heap, `freeList, `youngStackSz, `free, youngStack
      ensures Lost() == old(Lost()) && (old(Valid()) ==> Valid())
      ensures old(Valid()) && old(HiddenPinned()) ==> HiddenPinned()
      ensures old(free) == [a] + free && a < |old(heap)| && !IsUsed(old(heap), a) && youngStackSz <= youngStack.Length
      ensures Here() == Placed(old(Here()), isOld, hide_, false)
    {
      hide SoundParts, NoDangling, Pinned, LostSlots, From;
      a := freeList.addr;
      var c := Cell(true, if isOld then GC_GEN_MAX else GC_GEN_MIN, false, hide_, [], Null);
      ghost var young := Young();
      ghost var m' := NewSound(Here(), c);
      assert free == [a] + free[1..];
      freeList, free := heap[a].nextFree, free[1..];
      if !isOld && youngStackSz < YOUNG_MARK_STACK_MAX {
        youngStack[youngStackSz] := a;
        youngStackSz := youngStackSz + 1;
        assert Young() == young + [a];
      }
      heap := heap[a := c];
      assert Young() == young + if !isOld && old(youngStackSz) < YOUNG_MARK_STACK_MAX then [a] else [];
      assert Here() == m'.(young := Young());
    }

    // Makes the first free slot an object that C code may be working on.
    method Place(isOld: bool, hide_: bool, inCCall: bool) returns (a: nat)
      requires Sound() && freeList.At?
      modifies `heap, `freeList, `youngStackSz, `free, `stackObjects, youngStack
      ensures Lost() == old(Lost()) && (old(Valid()) ==> Valid())
      ensures old(Valid()) && old(HiddenPinned()) ==> HiddenPinned()
      ensures old(free) == [a] + free && a < |old(heap)| && !IsUsed(old(heap), a) && youngStackSz <= youngStack.Length
      ensures Here() == Placed(old(Here()), isOld, hide_, inCCall)
    {
      hide SoundParts, NoDangling, Pinned, LostSlots, From, Young;
      a := TakeSlot(isOld, hide_);
      if inCCall {
        if Sound() {
          StackMore(Here(), a);
        }
        stackObjects := stackObjects + [a];
      }
    }

    // Allocates an object in a slot that no reachable object occupies, after making room.
    method AllocateObject(isOld: bool, hide_: bool, inCCall: bool) returns (a: nat, ghost mid: Memory)
      requires Valid()
      modifies `heap, `heapsUsed, `freeList, `youngStackSz, `rememberSet, `grayStack, `inGC, `inYoungGC, `inFullGC,
        `free, `marked, `stackObjects, youngStack
      ensures Lost() == old(Lost()) && (old(Spared()) ==> Valid())
      ensures (old(HiddenPinned()) ==> HiddenPinned()) && youngStackSz <= youngStack.Length
      ensures Roomed(old(Here()), isOld, Collecting(), mid) && mid.free == [a] + free && a < |mid.h|
      ensures Here() == Placed(mid, isOld, hide_, inCCall)
      ensures !Reachable(old(heap), old(Roots()), a) && AllKept(old(heap), old(Roots()), heap)
    {
      hide SoundParts, NoDangling, Pinned, LostSlots, Reachable, From, Young, AllKept, Roomed;
      var tries := FindRoom(isOld);
      mid := Here();
      a := Place(isOld, hide_, inCCall);
      NewKept(old(heap), mid.h, heap, old(Roots()), a);
    }

    // ---------- the program ----------

    // A pointer from owner to pointed keeps hidden objects pinned.
    ghost predicate Pins(owner: nat, pointed: nat)
      reads this
      requires owner < |heap| && pointed < |heap|
    {
      heap[owner].hidden ==> heap[pointed].hidden || Reachable(heap, Roots(), pointed)
    }

    // Stores a pointer in a field of owner, or in a new field, through the write barrier.
    method Write(owner: nat, i: nat, pointed: nat)
      requires Valid() && IsUsed(heap, owner) && IsUsed(heap, pointed) && i <= |heap[owner].fields|
      modifies `heap, `rememberSet
      ensures Valid() && Lost() == old(Lost())
      ensures heap == old(heap)[owner := old(heap)[owner].(fields := WithField(old(heap)[owner].fields, i, pointed))]
      ensures rememberSet == old(rememberSet) + if old(heap)[pointed].gen == GC_GEN_MIN then [pointed] else []
      ensures old(HiddenPinned()) && i == |old(heap)[owner].fields| && old(Pins(owner, pointed)) ==> HiddenPinned()
    {
      hide SoundParts, NoDangling, Pinned, LostSlots, FreeList, HiddenList, Young, From, Reachable;
      HiddenFacts(Here(), owner);
      var c := heap[owner].(fields := WithField(heap[owner].fields, i, pointed));
      var remember := if heap[pointed].gen == GC_GEN_MIN then [pointed] else [];
      HiddenSame(heap, owner, c, hiddenObjs);
      ghost var m := UpdateSound(Here(), owner, c, rememberSet + remember, hiddenObjs);
      if Pinned(heap, Roots()) && i == |heap[owner].fields| && Pins(owner, pointed) {
        PinnedUpdate(heap, owner, c, Roots(), Roots());
      }
      if heap[pointed].gen == GC_GEN_MIN {
        rememberSet := rememberSet + [pointed];
      } else {
        assert rememberSet + remember == rememberSet;
      }
      heap := heap[owner := c];
      assert Here() == m;
    }

    // Takes a field away.
    method Erase(owner: nat, i: nat)
      requires Valid() && IsUsed(heap, owner) && i < |heap[owner].fields|
      modifies `heap
      ensures Valid() && Lost() == old(Lost())
      ensures heap == old(heap)[owner := old(heap)[owner].(fields := WithoutField(old(heap)[owner].fields, i))]
    {
      hide SoundParts, NoDangling, LostSlots, FreeList, HiddenList, Young;
      HiddenFacts(Here(), owner);
      var c := heap[owner].(fields := WithoutField(heap[owner].fields, i));
      HiddenSame(heap, owner, c, hiddenObjs);
      ghost var m := UpdateSound(Here(), owner, c, rememberSet, hiddenObjs);
      heap := heap[owner := c];
      assert Here() == m;
    }

    // Sets an object's generation.  Making it young again is harmless if and only if it is
    // off the young stack, remembered or held by nothing; raising it always is.
    method Promote(a: nat, gen: nat)
      requires Valid() && IsUsed(heap, a)
      modifies `heap
      ensures heap == old(heap)[a := old(heap)[a].(gen := if gen > GC_GEN_MAX then GC_GEN_MAX else gen)]
      ensures Valid() <==> gen > GC_GEN_MIN || a !in Young() || a in rememberSet || !old(Held(Here(), a))
      ensures Lost() == old(Lost()) && (old(HiddenPinned()) ==> HiddenPinned())
    {
      hide SoundParts, NoDangling, LostSlots, FreeList, HiddenList, Young, Pinned, From, Held;
      HiddenFacts(Here(), a);
      var c := heap[a].(gen := if gen > GC_GEN_MAX then GC_GEN_MAX else gen);
      HiddenSame(heap, a, c, hiddenObjs);
      if Pinned(heap, Roots()) {
        PinnedUpdate(heap, a, c, Roots(), Roots());
      }
      ghost var m := Here().(h := heap[a := c]);
      if gen > GC_GEN_MIN {
        m := UpdateSound(Here(), a, c, rememberSet, hiddenObjs);
      } else {
        RejuvenatedIff(Here(), a);
      }
      heap := heap[a := c];
      assert Here() == m;
    }

    method HideFromGC(a: nat)
      requires Valid() && IsUsed(heap, a)
      modifies `heap, `hiddenObjs
      ensures Valid() && Lost() == old(Lost()) && (old(HiddenPinned()) ==> HiddenPinned())
      ensures heap == old(heap)[a := old(heap)[a].(hidden := true)]
      ensures hiddenObjs == old(hiddenObjs) + if old(heap)[a].hidden then [] else [a]
    {
      hide SoundParts, NoDangling, LostSlots, FreeList, HiddenList, Young, Pinned, From, Reachable;
      if !heap[a].hidden {
        HiddenFacts(Here(), a);
        var c := heap[a].(hidden := true);
        HiddenMore(heap, a, c, hiddenObjs);
        ghost var m := UpdateSound(Here(), a, c, rememberSet, hiddenObjs + [a]);
        if Pinned(heap, Roots()) {
          FieldsUsed(heap, a);
          HidingStarts(a, roots, oldRoots, stackObjects, hiddenObjs);
          PinnedUpdate(heap, a, c, Roots(), From(roots, oldRoots, stackObjects, hiddenObjs + [a]));
        }
        hiddenObjs := hiddenObjs + [a];
        heap := heap[a := c];
        assert Here() == m;
      }
    }

    method UnhideFromGC(a: nat)
      requires Valid() && IsUsed(heap, a)
      modifies `heap, `hiddenObjs
      ensures Valid() && Lost() == old(Lost())
      ensures heap == old(heap)[a := old(heap)[a].(hidden := false)]
      ensures Addrs(hiddenObjs) == Addrs(old(hiddenObjs)) - {a}
    {
      hide SoundParts, NoDangling, LostSlots, FreeList, HiddenList, Young;
      HiddenFacts(Here(), a);
      if heap[a].hidden {
        var c := heap[a].(hidden := false);
        ghost var was := hiddenObjs;
        var i := 0;
        while i < |hiddenObjs| && hiddenObjs[i] != a
          invariant i <= |hiddenObjs| && forall j | 0 <= j < i :: hiddenObjs[j] != a
          invariant heap == old(heap) && hiddenObjs == was
        {
          i := i + 1;
        }
        ghost var rest := if i < |was| then was[..i] + was[i + 1..] else was;
        if i < |was| {
          HiddenLess(heap, a, c, was, i);
        } else {
          HiddenNot(heap, a, c, was);
        }
        ghost var m := UpdateSound(Here(), a, c, rememberSet, rest);
        if i < |hiddenObjs| {
          hiddenObjs := hiddenObjs[..i] + hiddenObjs[i + 1..];
        }
        heap := heap[a := c];
        assert Here() == m;
      }
    }

    // Any change of the pointers held outside the heap, to objects that still exist, as long
    // as a young collection need not visit what only full ones visit.
    method SetRoots(roots': seq<nat>, oldRoots': seq<nat>, stack': seq<nat>)
      requires Valid() && AllUsed(heap, roots') && AllUsed(heap, oldRoots') && AllUsed(heap, stack')
      requires Covered(heap, Young(), rememberSet, oldRoots')
      modifies `roots, `oldRoots, `stackObjects
      ensures Valid() && roots == roots' && oldRoots == oldRoots' && stackObjects == stack'
    {
      hide SoundParts, NoDangling, Young, Covered;
      NewRoots(Here(), roots', oldRoots', stack');
      roots, oldRoots, stackObjects := roots', oldRoots', stack';
    }

    method SetGCOnOff(turnOn: bool)
      modifies `gcOn
      ensures gcOn == turnOn && (old(Valid()) ==> Valid()) && (old(HiddenPinned()) ==> HiddenPinned())
    {
      gcOn := turnOn;
    }

    // Whether the program may ask it.
    predicate Askable(action: Action): (askable: bool)
      reads this, youngStack
      requires youngStackSz <= youngStack.Length
      ensures askable <==> Enabled(Here(), action)
    {
      match action
      case Store(o, i, a) => IsUsed(heap, o) && IsUsed(heap, a) && i <= |heap[o].fields|
      case Remove(o, i) => IsUsed(heap, o) && i < |heap[o].fields|
      case Age(a, gen) => IsUsed(heap, a) && (gen > GC_GEN_MIN || a !in Young() || a in rememberSet)
      case Hide(a) => IsUsed(heap, a)
      case Unhide(a) => IsUsed(heap, a)
      case Reroot(rs, os, ss) =>
        AllUsed(heap, rs) && AllUsed(heap, os) && AllUsed(heap, ss) && Covered(heap, Young(), rememberSet, os)
      case _ => true
    }

    // Whether no pointer leads to a slot without an object.
    method Intact() returns (intact: bool)
      ensures intact <==> NoDangling(heap)
    {
      for o := 0 to |heap|
        invariant forall b: nat, a: nat | b < o && IsUsed(heap, b) && a in heap[b].fields :: IsUsed(heap, a)
      {
        var fields := heap[o].fields;
        for i := 0 to |fields|
          invariant heap[o].used ==> forall a | a in fields[..i] :: IsUsed(heap, a)
        {
          assert fields[..i + 1] == fields[..i] + [fields[i]];
          if heap[o].used && !IsUsed(heap, fields[i]) {
            assert IsUsed(heap, o) && fields[i] in heap[o].fields;
            return false;
          }
        }
        assert fields[..|fields|] == fields;
      }
      return true;
    }

    // Does what the program asks for.  Only a full collection, asked for or made to
    // allocate, can leave a pointer dangling, and only if it finds hidden objects that are
    // not pinned.  Then nothing is allocated.
    method Perform(action: Action) returns (intact: bool)
      requires Valid() && Enabled(Here(), action)
      modifies this, youngStack
      ensures (intact ==> Valid()) && youngStackSz <= youngStack.Length
      ensures intact || action.CollectFull? ==> Does(action, old(Here()), old(Collecting()), Here())
      ensures !intact ==>
        && !old(HiddenPinned()) && old(Collecting())
        && (action.CollectFull? || (action.Allocate? && old(freeList) == Null))
      ensures intact && old(HiddenPinned()) && !Unpins(action) ==> HiddenPinned()
      ensures !action.CollectFull? ==> Lost() == old(Lost())
      ensures gcOn == (if action.Switch? then action.turnOn else old(gcOn)) && disableGC == old(disableGC)
      ensures action.Allocate? || action.CollectYoung? || action.CollectFull? ==>
        AllKept(old(heap), old(Roots()), heap)
    {
      hide SoundParts, NoDangling, Pinned, LostSlots, Reachable, AllKept, From, Young, Does, Enabled, YoungRun,
        FullCollected;
      CollectionsDo(Here(), Collecting());
      intact := true;
      match action
      case Allocate(isOld, hide_, inCCall) =>
        intact := Allocating(isOld, hide_, inCCall);
      case Switch(turnOn) =>
        SetGCOnOff(turnOn);
      case CollectYoung =>
        CollectYoungGarbage();
      case CollectFull =>
        CollectGarbage();
        intact := Intact();
      case _ =>
        Change(action);
    }

    // What the program does to objects and roots.
    method Change(action: Action)
      requires Valid() && Enabled(Here(), action)
      requires !action.Allocate? && !action.Switch? && !action.CollectYoung? && !action.CollectFull?
      modifies `heap, `rememberSet, `hiddenObjs, `roots, `oldRoots, `stackObjects
      ensures Valid() && Does(action, old(Here()), Collecting(), Here()) && Lost() == old(Lost())
      ensures old(HiddenPinned()) && !Unpins(action) ==> HiddenPinned()
    {
      hide SoundParts, NoDangling, Pinned, LostSlots, Reachable, From, Young, Addrs, Covered, Held;
      match action
      case Store(owner, field, pointed) =>
        Write(owner, field, pointed);
      case Remove(owner, field) =>
        Erase(owner, field);
      case Age(obj, gen) =>
        Promote(obj, gen);
      case Hide(obj) =>
        HideFromGC(obj);
      case Unhide(obj) =>
        UnhideFromGC(obj);
      case Reroot(roots', oldRoots', stack') =>
        SetRoots(roots', oldRoots', stack');
      case _ =>
    }

    lemma FirstState(actions: seq<Action>)
      requires Valid()
      ensures Chronicle(actions, [Here()], [Collecting()])
    {
    }

    // Allocates unless making room has left a pointer dangling.
    method Allocating(isOld: bool, hide_: bool, inCCall: bool) returns (intact: bool)
      requires Valid()
      modifies `heap, `heapsUsed, `freeList, `youngStackSz, `rememberSet, `grayStack, `inGC, `inYoungGC, `inFullGC,
        `free, `marked, `stackObjects, youngStack
      ensures (intact ==> Valid()) && (old(Spared()) ==> intact) && Lost() == old(Lost())
      ensures youngStackSz <= youngStack.Length
      ensures intact ==> Does(Allocate(isOld, hide_, inCCall), old(Here()), Collecting(), Here())
      ensures (old(HiddenPinned()) ==> HiddenPinned()) && AllKept(old(heap), old(Roots()), heap)
    {
      hide SoundParts, NoDangling, Pinned, LostSlots, Reachable, From, Young, AllKept, Roomed;
      var tries := FindRoom(isOld);
      intact := Intact();
      if intact {
        ghost var mid := Here();
        var a := Place(isOld, hide_, inCCall);
        NewKept(old(heap), mid.h, heap, old(Roots()), a);
      }
    }

    // Every run: each action does what it is for, and after it no pointer leads to a freed
    // slot, whatever is young and pointed to is remembered, the free list runs through
    // distinct unused slots and nothing stays marked, until, if ever, a full collection
    // finds hidden objects that are not pinned.  None does while hidden objects start out
    // pinned and the program takes no pointers away and stores none.  No slot is lost
    // unless a full collection is asked for.  A request for which there is no object is
    // passed over.
    method Run(actions: seq<Action>) returns (done: nat, ghost states: seq<Memory>, ghost on: seq<bool>)
      requires Valid()
      modifies this, youngStack
      ensures Chronicle(actions, states, on) && |states| == done + 1
      ensures done == |actions| ==> Valid() && states[done] == Here()
      ensures states[0] == old(Here()) && on[0] == old(Collecting())
      ensures done < |actions| ==>
        && !Pinned(states[done].h, Starts(states[done])) && on[done]
        && (actions[done].CollectFull? || (actions[done].Allocate? && states[done].head == Null))
      ensures old(HiddenPinned()) && (forall i | 0 <= i < |actions| :: !Unpins(actions[i])) ==>
        done == |actions| && HiddenPinned()
      ensures (forall i | 0 <= i < |actions| :: !actions[i].CollectFull?) ==> Lost() == old(Lost())
    {
      hide SoundParts, NoDangling, Pinned, LostSlots, Young, From, Enabled, Does, Chronicle;
      states, on := [Here()], [Collecting()];
      FirstState(actions);
      done := 0;
      while done < |actions|
        invariant done <= |actions| && Valid() && |states| == |on| == done + 1 && Chronicle(actions, states, on)
        invariant states[0] == old(Here()) && on[0] == old(Collecting())
        invariant states[done] == Here() && on[done] == Collecting()
        invariant old(HiddenPinned()) && (forall j | 0 <= j < done :: !Unpins(actions[j])) ==> HiddenPinned()
        invariant (forall j | 0 <= j < done :: !actions[j].CollectFull?) ==> Lost() == old(Lost())
        decreases |actions| - done
      {
        if Askable(actions[done]) {
          var intact := Perform(actions[done]);
          if !intact {
            return;
          }
        }
        ChronicleMore(actions, states, on, Here(), Collecting());
        states, on := states + [Here()], on + [Collecting()];
        done := done + 1;
      }
    }
  }

  // ---------- where a full collection goes wrong ----------

  // An object C code is working on is kept.
  lemma StackKept(h: Heap, g: Heap, roots: seq<nat>, olds: seq<nat>, stack: seq<nat>, hidden: seq<nat>, a: nat)
    requires AllKept(h, From(roots, olds, stack, hidden), g) && a in stack && a < |h|
    ensures Kept(h, g, a)
  {
    RootReachable(h, From(roots, olds, stack, hidden), a);
  }

  lemma NothingReached(h: Heap)
    ensures forall a: nat :: !Reachable(h, {}, a)
  {
    assert forall p: seq<nat> :: !Path(h, {}, p);
  }

  lemma OnlyHiddenKept(m: Memory, m': Memory, name: nat, class_: nat)
    requires FullCollected(m, m') && (forall a: nat :: !Reachable(m.h, Starts(m), a))
    requires IsUsed(m.h, name) && m.h[name].hidden && IsUsed(m.h, class_) && !m.h[class_].hidden
    ensures IsUsed(m'.h, name) && m'.h[name].fields == m.h[name].fields && !IsUsed(m'.h, class_)
  {
    hide Reachable;
    assert class_ in Garbage(m) && name !in Garbage(m);
  }

  // A string allocated hidden in a new collector: hiding it again does not list it.
  method HideName() returns (c: Collector, name: nat)
    ensures fresh(c) && fresh(c.youngStack) && c.Valid() && c.HiddenPinned() && c.Collecting()
    ensures c.roots == c.oldRoots == c.hiddenObjs == [] && c.stackObjects == [name]
    ensures IsUsed(c.heap, name) && c.heap[name].hidden && c.heap[name].fields == []
  {
    hide SoundParts, NoDangling, LostSlots, From, AllKept, FreeList, Reachable, Pinned;
    c := new Collector(false);
    ghost var mid;
    name, mid := c.AllocateObject(true, true, true);
    c.HideFromGC(name);
  }

  method NameAndClass() returns (c: Collector, name: nat, class_: nat)
    ensures fresh(c) && fresh(c.youngStack) && c.Valid() && c.Collecting() && c.hiddenObjs == []
    ensures IsUsed(c.heap, name) && c.heap[name].hidden && c.heap[name].fields == []
    ensures IsUsed(c.heap, class_) && !c.heap[class_].hidden
  {
    hide SoundParts, NoDangling, LostSlots, From, AllKept, FreeList, Reachable, Pinned, Kept, Roomed;
    c, name := HideName();
    ghost var h, mid := c.heap, c.Here();
    class_, mid := c.AllocateObject(false, false, true);
    StackKept(h, c.heap, [], [], [name], [], name);
    KeptCell(h, c.heap, name);
  }

  // And it points to an object that nothing else holds.
  method NameHolds() returns (c: Collector, name: nat, class_: nat)
    ensures fresh(c) && fresh(c.youngStack) && c.Valid() && c.Collecting() && c.Roots() == {}
    ensures IsUsed(c.heap, name) && c.heap[name].hidden && class_ in c.heap[name].fields
    ensures IsUsed(c.heap, class_) && !c.heap[class_].hidden
  {
    hide SoundParts, NoDangling, LostSlots, From, AllKept, FreeList, Reachable, Pinned, Kept;
    c, name, class_ := NameAndClass();
    c.Write(name, 0, class_);
    c.SetRoots([], [], []);
    NoStarts();
  }

  lemma NoStarts()
    ensures From([], [], [], []) == {}
  {
  }

  // A run that leaves a pointer dangling: the full collection frees what the string points
  // to and keeps the string.
  method HiddenUntraced() returns (c: Collector, name: nat, class_: nat)
    ensures fresh(c) && c.Sound() && IsUsed(c.heap, name) && class_ in c.heap[name].fields && !IsUsed(c.heap, class_)
  {
    hide SoundParts, NoDangling, LostSlots, From, AllKept, Reachable, Pinned, FullCollected;
    c, name, class_ := NameHolds();
    ghost var m := c.Here();
    c.CollectGarbage();
    NothingReached(m.h);
    OnlyHiddenKept(m, c.Here(), name, class_);
  }

  lemma KeptCell(h: Heap, g: Heap, a: nat)
    requires Kept(h, g, a)
    ensures IsUsed(h, a) && IsUsed(g, a) && g[a].fields == h[a].fields && g[a].hidden == h[a].hidden
  {
  }

  // A run that loses slots: a full collection is asked for while the free list is not
  // empty.
  method SlotsLost() returns (c: Collector)
    ensures fresh(c) && c.Valid() && c.Lost() != {}
  {
    hide SoundParts, NoDangling, Pinned, LostSlots, From, AllKept, FreeList, FullCollected;
    c := new Collector(false);
    c.CollectGarbage();
    c.NoneFree();
    c.CollectGarbage();
  }
}
