// The instruction sequence: a doubly linked list of instructions with links from
// jumps to other instructions, and the operations that add, find, remove and patch.
module Iseqs {
  import opened Opcodes
  import opened Machine
  import opened Code
  import opened Patch

  class Node {
    var code: nat
    var operands: seq<nat>
    var isNumber: bool
    var isLabel: bool
    var next: Node?
    var prev: Node?
    var jumpTo: Node?
    var jumpToPrev: Node?

    constructor (code: nat, operands: seq<nat>, isNumber: bool, isLabel: bool)
      ensures this.code == code && this.operands == operands
      ensures this.isNumber == isNumber && this.isLabel == isLabel
      ensures jumpTo == null && jumpToPrev == null
    {
      this.code := code;
      this.operands := operands;
      this.isNumber := isNumber;
      this.isLabel := isLabel;
      next, prev, jumpTo, jumpToPrev := null, null, null, null;
    }
  }

  // ---------- lists of distinct nodes ----------

  ghost predicate Distinct(nodes: seq<Node>) {
    forall i, j | 0 <= i < j < |nodes| :: nodes[i] != nodes[j]
  }

  ghost function IndexOf(nodes: seq<Node>, n: Node): (i: nat)
    requires n in nodes
    ensures i < |nodes| && nodes[i] == n
  {
    if nodes[|nodes| - 1] == n then |nodes| - 1 else IndexOf(nodes[..|nodes| - 1], n)
  }

  lemma IndexUnique(nodes: seq<Node>, i: nat)
    requires Distinct(nodes) && i < |nodes|
    ensures IndexOf(nodes, nodes[i]) == i
  {
  }

  ghost function LinkOf(nodes: seq<Node>, n: Node?): Link {
    if n == null then NoLink else if n in nodes then To(IndexOf(nodes, n)) else Freed
  }

  ghost function Shown(nodes: seq<Node>, n: Node): Insn
    reads n`code, n`operands, n`isNumber, n`isLabel, n`jumpTo, n`jumpToPrev
  {
    Insn(n.code, n.operands, n.isNumber, n.isLabel, LinkOf(nodes, n.jumpTo), LinkOf(nodes, n.jumpToPrev))
  }

  ghost function Without(nodes: seq<Node>, k: nat): (r: seq<Node>)
    requires k < |nodes|
    ensures |r| == |nodes| - 1
    ensures forall j | 0 <= j < |r| :: r[j] == nodes[Up(j, k)]
  {
    nodes[..k] + nodes[k + 1..]
  }

  lemma WithoutDistinct(nodes: seq<Node>, k: nat)
    requires Distinct(nodes) && k < |nodes|
    ensures Distinct(Without(nodes, k)) && nodes[k] !in Without(nodes, k)
  {
  }

  lemma WithoutIndex(nodes: seq<Node>, k: nat, n: Node)
    requires Distinct(nodes) && k < |nodes| && n in nodes && n != nodes[k]
    ensures n in Without(nodes, k) && IndexOf(Without(nodes, k), n) == Down(IndexOf(nodes, n), k)
  {
    var r, i := Without(nodes, k), IndexOf(nodes, n);
    WithoutDistinct(nodes, k);
    assert Up(Down(i, k), k) == i;
    assert r[Down(i, k)] == n;
    IndexUnique(r, Down(i, k));
  }

  // Removing a node frees the links to it and shifts the others.
  lemma WithoutLink(nodes: seq<Node>, k: nat, n: Node?)
    requires Distinct(nodes) && k < |nodes|
    ensures LinkOf(Without(nodes, k), n) == ShiftLink(LinkOf(nodes, n), k)
  {
    WithoutDistinct(nodes, k);
    if n != null && n in nodes {
      if n == nodes[k] {
        IndexUnique(nodes, k);
      } else {
        WithoutIndex(nodes, k, n);
        IndexUnique(nodes, IndexOf(nodes, n));
      }
    } else if n != null {
      assert n !in Without(nodes, k);
    }
  }

  lemma AppendLink(nodes: seq<Node>, m: Node, n: Node?)
    requires Distinct(nodes) && m !in nodes && n != m
    ensures LinkOf(nodes + [m], n) == LinkOf(nodes, n)
  {
    if n != null && n in nodes {
      assert (nodes + [m])[..|nodes|] == nodes;
    }
  }

  // The nodes stand for the instructions of v.
  ghost predicate Showing(nodes: seq<Node>, v: Insns)
    reads nodes`code, nodes`operands, nodes`isNumber, nodes`isLabel, nodes`jumpTo, nodes`jumpToPrev
  {
    |v| == |nodes| && forall i | 0 <= i < |nodes| :: v[i] == Shown(nodes, nodes[i])
  }

  lemma ShownIs(nodes: seq<Node>, n: Node)
    ensures Shown(nodes, n)
         == Insn(n.code, n.operands, n.isNumber, n.isLabel, LinkOf(nodes, n.jumpTo), LinkOf(nodes, n.jumpToPrev))
  {
  }

  lemma ShownSize(nodes: seq<Node>, v: Insns, k: nat)
    requires Showing(nodes, v) && k < |nodes|
    ensures |v| == |nodes| && Size(v[k]) == |nodes[k].operands| + 1
  {
  }

  lemma OtherNodes(nodes: seq<Node>, k: nat)
    requires Distinct(nodes) && k < |nodes|
    ensures forall j | 0 <= j < |nodes| && j != k :: nodes[j] != nodes[k]
  {
  }

  lemma ShowingAll(nodes: seq<Node>, v: Insns)
    requires Showing(nodes, v)
    ensures |v| == |nodes| && forall j | 0 <= j < |nodes| :: v[j] == Shown(nodes, nodes[j])
  {
  }

  lemma ShowingWith(nodes: seq<Node>, v: Insns, k: nat)
    requires |v| == |nodes| && k < |nodes| && forall j | 0 <= j < |nodes| && j != k :: v[j] == Shown(nodes, nodes[j])
    ensures Showing(nodes, v[k := Shown(nodes, nodes[k])])
  {
  }

  lemma AppendShowing(nodes: seq<Node>, v: Insns, m: Node)
    requires Distinct(nodes) && Showing(nodes, v) && m !in nodes
    requires forall n | n in nodes + [m] :: n.jumpTo != m && n.jumpToPrev != m
    ensures Showing(nodes + [m], v + [Shown(nodes + [m], m)])
  {
    forall i | 0 <= i < |nodes| ensures v[i] == Shown(nodes + [m], nodes[i]) {
      AppendLink(nodes, m, nodes[i].jumpTo);
      AppendLink(nodes, m, nodes[i].jumpToPrev);
    }
  }

  ghost predicate ChainedAt(nodes: seq<Node>, i: nat)
    reads nodes`next, nodes`prev
  {
    i < |nodes| && nodes[i].next == NodeAt(nodes, i + 1) && nodes[i].prev == NodeAt(nodes, i - 1)
  }

  // The next and prev links follow the list.
  ghost predicate Chained(nodes: seq<Node>)
    reads nodes`next, nodes`prev
  {
    forall i: nat | i < |nodes| :: ChainedAt(nodes, i)
  }

  ghost function NodeAt(nodes: seq<Node>, i: int): Node? {
    if 0 <= i < |nodes| then nodes[i] else null
  }

  lemma IndexSame(nodes: seq<Node>, n: Node, i: nat)
    requires Distinct(nodes) && i < |nodes| && nodes[i] == n
    ensures n in nodes && IndexOf(nodes, n) == i
  {
    IndexUnique(nodes, i);
  }

  lemma NextIndex(nodes: seq<Node>, i: nat)
    requires Distinct(nodes) && i < |nodes|
    ensures LinkOf(nodes, NodeAt(nodes, i + 1)) == if i + 1 < |nodes| then To(i + 1) else NoLink
  {
    if i + 1 < |nodes| {
      IndexUnique(nodes, i + 1);
    }
  }

  lemma NextNode(nodes: seq<Node>, i: nat)
    requires Chained(nodes) && i < |nodes|
    ensures nodes[i].next == NodeAt(nodes, i + 1)
  {
    assert ChainedAt(nodes, i);
  }

  lemma ViewSize(nodes: seq<Node>, v: Insns)
    requires Showing(nodes, v)
    ensures |v| == |nodes|
  {
  }

  lemma IndexFacts(nodes: seq<Node>, n: Node)
    ensures LinkOf(nodes, n).To? <==> n in nodes
    ensures n in nodes ==> LinkOf(nodes, n) == To(IndexOf(nodes, n)) && nodes[IndexOf(nodes, n)] == n
  {
  }

  lemma ShownLinks(nodes: seq<Node>, v: Insns, i: nat)
    requires Showing(nodes, v) && i < |nodes|
    ensures |v| == |nodes| && v[i] == Shown(nodes, nodes[i])
    ensures v[i].code == nodes[i].code && v[i].operands == nodes[i].operands
    ensures v[i].isNumber == nodes[i].isNumber && v[i].isLabel == nodes[i].isLabel
    ensures v[i].jumpTo == LinkOf(nodes, nodes[i].jumpTo) && v[i].jumpToPrev == LinkOf(nodes, nodes[i].jumpToPrev)
  {
  }

  // The links of node i as they are when node k has been bypassed.
  ghost predicate BypassedAt(nodes: seq<Node>, k: nat, i: nat)
    reads nodes`next, nodes`prev
  {
    && i < |nodes|
    && nodes[i].next == NodeAt(nodes, if i + 1 == k then k + 1 else i + 1)
    && nodes[i].prev == NodeAt(nodes, if i == k + 1 then k - 1 else i - 1)
  }

  lemma BypassedChained(nodes: seq<Node>, k: nat)
    requires k < |nodes| && forall i: nat | i < |nodes| && i != k :: BypassedAt(nodes, k, i)
    ensures Chained(Without(nodes, k))
  {
    var r := Without(nodes, k);
    forall j: nat | j < |r| ensures ChainedAt(r, j) {
      assert BypassedAt(nodes, k, Up(j, k));
    }
  }

  lemma WithoutEnds(nodes: seq<Node>, k: nat)
    requires k < |nodes|
    ensures var r := Without(nodes, k);
      && (r == [] <==> |nodes| == 1)
      && (r != [] ==> r[0] == (if k == 0 then nodes[1] else nodes[0]))
      && (r != [] ==> r[|r| - 1] == (if k == |nodes| - 1 then nodes[k - 1] else nodes[|nodes| - 1]))
  {
  }

  // ---------- lists without one instruction ----------

  ghost function Dropped(v: Insns, k: nat): (w: Insns)
    requires k < |v|
    ensures |w| == |v| - 1 && forall j | 0 <= j < |w| :: w[j] == ShiftLinks(v[Up(j, k)], k)
  {
    seq(|v| - 1, j requires 0 <= j < |v| - 1 => ShiftLinks(v[Up(j, k)], k))
  }

  lemma DroppedRemoved(v: Insns, w: Insns, k: nat)
    requires k < |v| == |w| && Removable(v, k)
    requires forall i | 0 <= i < |v| && i != k :: PatchForRemoval(v, k, i) == Some(w[i])
    ensures Dropped(w, k) == Removed(v, k)
  {
    forall j | 0 <= j < |v| - 1 ensures Dropped(w, k)[j] == Removed(v, k)[j] {
      assert PatchForRemoval(v, k, Up(j, k)) == Some(w[Up(j, k)]);
    }
  }

  // The list w is v with the first n instructions patched for the removal of k.
  ghost predicate Patching(v: Insns, w: Insns, k: nat, n: nat) {
    && k < |v| == |w|
    && (forall i: nat | i < n && i < |v| && i != k :: PatchForRemoval(v, k, i) == Some(w[i]))
    && (forall i: nat | i < |v| && (n <= i || i == k) :: w[i] == v[i])
  }

  lemma PatchingStart(v: Insns, k: nat)
    requires k < |v|
    ensures Patching(v, v, k, 0)
  {
  }

  lemma PatchingStep(v: Insns, w: Insns, w': Insns, k: nat, i: nat)
    requires Patching(v, w, k, i) && i < |v|
    requires w' ==
      if i == k then w else if PatchForRemoval(w, k, i).Some? then w[i := PatchForRemoval(w, k, i).value] else v
    ensures i == k || PatchForRemoval(w, k, i).Some? ==> Patching(v, w', k, i + 1)
    ensures i != k && PatchForRemoval(w, k, i).None? ==> !Removable(v, k)
  {
    assert i != k ==> PatchForRemoval(w, k, i) == PatchForRemoval(v, k, i);
  }

  lemma PatchingOver(v: Insns, w: Insns, k: nat)
    requires Patching(v, w, k, |v|)
    ensures Removable(v, k) && Dropped(w, k) == Removed(v, k) && w[k] == v[k]
    ensures Off(Removed(v, k), |v| - 1) == Off(v, |v|) - Size(v[k])
  {
    hide PatchForRemoval, Removed, Dropped, Off;
    PatchingAll(v, w, k);
    DroppedRemoved(v, w, k);
    RemovedOff(v, k, |v| - 1);
  }

  lemma PatchingAll(v: Insns, w: Insns, k: nat)
    requires Patching(v, w, k, |v|)
    ensures Removable(v, k) && forall i | 0 <= i < |v| && i != k :: PatchForRemoval(v, k, i) == Some(w[i])
  {
    hide PatchForRemoval;
  }

  // The list w is v with instruction k grown and the others below n patched for it.
  ghost predicate Growing(v: Insns, w: Insns, k: nat, operand: nat, n: nat) {
    && k < |v| == |w| && |v[k].operands| < MAX_OPERANDS
    && w[k] == v[k].(operands := v[k].operands + [operand])
    && (forall i: nat | i < n && i < |v| && i != k :: PatchForGrowth(v, k, i) == Some(w[i]))
    && (forall i: nat | n <= i < |v| && i != k :: w[i] == v[i])
  }

  lemma GrowingStart(v: Insns, k: nat, operand: nat)
    requires k < |v| && |v[k].operands| < MAX_OPERANDS
    ensures Growing(v, v[k := v[k].(operands := v[k].operands + [operand])], k, operand, 0)
  {
  }

  lemma GrowingStep(v: Insns, w: Insns, w': Insns, k: nat, operand: nat, i: nat)
    requires Growing(v, w, k, operand, i) && i < |v|
    requires w' ==
      if i == k then w else if PatchForGrowth(w, k, i).Some? then w[i := PatchForGrowth(w, k, i).value] else v
    ensures i == k || PatchForGrowth(w, k, i).Some? ==> Growing(v, w', k, operand, i + 1)
    ensures i != k && PatchForGrowth(w, k, i).None? ==> !Growable(v, k)
  {
    assert i != k ==> PatchForGrowth(w, k, i) == PatchForGrowth(v, k, i);
  }

  lemma GrowingOver(v: Insns, w: Insns, k: nat, operand: nat)
    requires Growing(v, w, k, operand, |v|)
    ensures Growable(v, k) && w == Grown(v, k, operand) && Off(w, |w|) == Off(v, |v|) + 1
  {
    hide PatchForGrowth;
    assert Growable(v, k);
    forall i | 0 <= i < |v| ensures w[i] == GrownInsn(v, k, operand, i) {
    }
    GrownOff(v, k, operand, |v|);
  }

  lemma DroppedShowing(nodes: seq<Node>, v: Insns, k: nat)
    requires Distinct(nodes) && k < |nodes| && Showing(nodes, v)
    ensures Showing(Without(nodes, k), Dropped(v, k))
  {
    var r := Without(nodes, k);
    forall j | 0 <= j < |r| ensures Dropped(v, k)[j] == Shown(r, r[j]) {
      var i := Up(j, k);
      WithoutLink(nodes, k, nodes[i].jumpTo);
      WithoutLink(nodes, k, nodes[i].jumpToPrev);
    }
  }

  // ---------- the sequence ----------

  class Iseq {
    var count: int
    var wordCount: int
    var tail: Node?
    var insns: Node?
    var constants: seq<Constant>
    ghost var nodes: seq<Node>
    // The instructions of the list.
    ghost var view: Insns
    // Words that wordCount still counts although their instruction has shrunk.
    ghost var stale: int

    ghost predicate Valid()
      reads `nodes, `view, `insns, `tail, `count, `wordCount, `stale, nodes
    {
      && Distinct(nodes) && Showing(nodes, view) && Chained(nodes)
      && Ends() && count == |nodes| && wordCount == Off(view, |view|) + stale
    }

    constructor ()
      ensures Valid() && nodes == [] && view == [] && stale == 0 && constants == []
    {
      constants := [];
      count, wordCount := 0, 0;
      tail, insns := null, null;
      nodes, view, stale := [], [], 0;
    }

    ghost predicate Ends()
      reads `nodes, `insns, `tail
    {
      && insns == (if nodes == [] then null else nodes[0])
      && tail == (if nodes == [] then null else nodes[|nodes| - 1])
    }

    // The links of a node put at the end.
    method LinkAtEnd(toAdd: Node)
      requires Distinct(nodes) && Chained(nodes) && Ends() && toAdd !in nodes
      modifies `insns, `tail, `nodes, nodes`next, toAdd`next, toAdd`prev
      ensures nodes == old(nodes) + [toAdd] && Distinct(nodes) && Chained(nodes) && Ends()
    {
      var last := tail;
      if last != null {
        last.next := toAdd;
      } else {
        insns := toAdd;
      }
      toAdd.prev := last;
      toAdd.next := null;
      tail := toAdd;
      nodes := nodes + [toAdd];
      forall i: nat | i < |nodes| ensures ChainedAt(nodes, i) {
        assert i < |old(nodes)| ==> old(ChainedAt(nodes, i));
      }
    }

    // Appends an instruction without links.
    method AddInsn(toAdd: Node)
      requires Valid() && toAdd !in nodes && toAdd.jumpTo == null && toAdd.jumpToPrev == null
      requires forall n | n in nodes :: n.jumpTo != toAdd && n.jumpToPrev != toAdd
      modifies `insns, `tail, `nodes, `view, `count, `wordCount, nodes`next, toAdd`next, toAdd`prev
      ensures Valid() && nodes == old(nodes) + [toAdd]
      ensures view == old(view) + [Insn(toAdd.code, toAdd.operands, toAdd.isNumber, toAdd.isLabel, NoLink, NoLink)]
    {
      hide Showing, Chained, Distinct;
      ghost var was, wasView := nodes, view;
      LinkAtEnd(toAdd);
      count := count + 1;
      wordCount := wordCount + 1 + |toAdd.operands|;
      view := view + [Shown(nodes, toAdd)];
      OffSame(wasView, view, |wasView|);
      AppendShowing(was, wasView, toAdd);
    }

    ghost predicate Listed()
      reads `nodes, `view, `insns, `tail, nodes
    {
      Distinct(nodes) && Showing(nodes, view) && Chained(nodes) && Ends()
    }

    method InsnIndex(insn: Node?) returns (i: int)
      requires Distinct(nodes) && Chained(nodes) && Ends()
      ensures i == match LinkOf(nodes, insn) case To(j) => j case _ => -1
    {
      if insn == null {
        return -1;
      }
      var cur := insns;
      i := 0;
      while cur != null && cur != insn
        invariant 0 <= i <= |nodes| && cur == NodeAt(nodes, i)
        invariant forall j | 0 <= j < i :: nodes[j] != insn
        decreases |nodes| - i
      {
        assert ChainedAt(nodes, i);
        cur := cur.next;
        i := i + 1;
      }
      if cur == null {
        i := -1;
      } else {
        IndexSame(nodes, insn, i);
      }
    }

    // Takes node k out of the chain.
    method Unlink(toRm: Node, ghost k: nat)
      requires Distinct(nodes) && Chained(nodes) && Ends() && k < |nodes| && nodes[k] == toRm
      modifies `insns, `tail, `nodes, nodes`next, nodes`prev
      ensures nodes == Without(old(nodes), k) && Distinct(nodes) && Chained(nodes) && Ends()
    {
      ghost var all := nodes;
      WithoutDistinct(nodes, k);
      WithoutEnds(nodes, k);
      var before, after := toRm.prev, toRm.next;
      assert ChainedAt(nodes, k);
      forall i: nat | i < |nodes| ensures old(ChainedAt(nodes, i)) {
      }
      if before != null {
        before.next := after;
      } else {
        insns := after;
      }
      if after != null {
        after.prev := before;
      } else {
        tail := before;
      }
      if tail == null {
        insns := null;
      }
      forall i: nat | i < |all| && i != k ensures BypassedAt(all, k, i) {
        assert old(ChainedAt(nodes, i));
      }
      BypassedChained(all, k);
      nodes := Without(nodes, k);
    }

    // And out of the list of instructions.
    method UnlinkShown(toRm: Node, ghost k: nat)
      requires Distinct(nodes) && Chained(nodes) && Ends() && k < |nodes| && nodes[k] == toRm && |view| == |nodes|
      requires Showing(Without(nodes, k), Dropped(view, k))
      modifies `insns, `tail, `nodes, `view, nodes`next, nodes`prev
      ensures Listed() && nodes == Without(old(nodes), k) && view == Dropped(old(view), k)
    {
      hide Showing, Chained, Distinct, Without, Dropped, Ends;
      Unlink(toRm, k);
      view := Dropped(view, k);
    }

    // Takes node k out of the sequence and frees it; links to it are left behind.
    method RmAt(toRm: Node, ghost k: nat)
      requires Listed() && k < |nodes| && nodes[k] == toRm
      modifies `insns, `tail, `nodes, `view, `count, `wordCount, nodes`next, nodes`prev
      ensures Listed() && |old(view)| == |old(nodes)|
      ensures nodes == Without(old(nodes), k) && view == Dropped(old(view), k)
      ensures count == old(count) - 1 && wordCount == old(wordCount) - Size(old(view)[k])
    {
      hide Showing, Chained, Distinct, Without, Dropped, ShiftLinks, Off, Shown, LinkOf, IndexOf, Ends;
      ShownLinks(nodes, view, k);
      ShownSize(nodes, view, k);
      DroppedShowing(nodes, view, k);
      count := count - 1;
      wordCount := wordCount - (|toRm.operands| + 1);
      UnlinkShown(toRm, k);
    }

    // Finds an instruction and removes it.
    method RmInsn(toRm: Node) returns (found: bool)
      requires Listed()
      modifies `insns, `tail, `nodes, `view, `count, `wordCount, nodes`next, nodes`prev
      ensures Listed() && found == (toRm in old(nodes)) && |old(view)| == |old(nodes)|
      ensures !found ==> nodes == old(nodes) && view == old(view) && count == old(count) && wordCount == old(wordCount)
      ensures found ==> var k := IndexOf(old(nodes), toRm);
        && nodes == Without(old(nodes), k) && view == Dropped(old(view), k) && count == old(count) - 1
        && wordCount == old(wordCount) - Size(old(view)[k])
    {
      hide Showing, Chained, Distinct, Without, Dropped, LinkOf, IndexOf;
      var i := InsnIndex(toRm);
      IndexFacts(nodes, toRm);
      ViewSize(nodes, view);
      if i < 0 {
        return false;
      }
      RmAt(toRm, i);
      return true;
    }

    // ---------- patching jumps ----------

    // The index of the instruction a jump records as its target, or -1 where an
    // assertion stops the patcher or a freed instruction would be read.
    method RecordedIndex(n: Node, ghost idx: nat) returns (r: int)
      requires Listed() && idx < |nodes| && nodes[idx] == n
      ensures |view| == |nodes| && Recorded(view, idx) == if r >= 0 then Some(r) else None
    {
      hide Showing, Distinct, Shown;
      ShownLinks(nodes, view, idx);
      if n.jumpTo != null {
        r := InsnIndex(n.jumpTo);
      } else if n.jumpToPrev != null {
        var p := InsnIndex(n.jumpToPrev);
        if p < 0 {
          return -1;
        }
        assert ChainedAt(nodes, p);
        r := InsnIndex(n.jumpToPrev.next);
        NextIndex(nodes, p);
      } else {
        r := -1;
      }
    }

    method RecordedLoopIndex(n: Node, ghost idx: nat) returns (r: int)
      requires Listed() && idx < |nodes| && nodes[idx] == n
      ensures |view| == |nodes| && RecordedLoop(view, idx) == if r >= 0 then Some(r) else None
    {
      hide Showing, Distinct, Shown, Chained;
      ShownLinks(nodes, view, idx);
      r := InsnIndex(n.jumpTo);
    }

    // Rewrites one instruction in place.
    method Rewrite(n: Node, code: nat, operands: seq<nat>, jumpTo: Node?, jumpToPrev: Node?, ghost idx: nat)
      requires Listed() && idx < |nodes| && nodes[idx] == n
      modifies `view, n`code, n`operands, n`jumpTo, n`jumpToPrev
      ensures Listed() && |old(view)| == |nodes|
      ensures view == old(view)[idx := old(view)[idx].(code := code, operands := operands,
        jumpTo := LinkOf(nodes, jumpTo), jumpToPrev := LinkOf(nodes, jumpToPrev))]
    {
      hide Chained, LinkOf, Distinct, Showing, Shown;
      ShownLinks(nodes, view, idx);
      OtherNodes(nodes, idx);
      ShowingAll(nodes, view);
      n.code, n.operands, n.jumpTo, n.jumpToPrev := code, operands, jumpTo, jumpToPrev;
      ShownIs(nodes, n);
      forall j | 0 <= j < |nodes| && j != idx ensures view[j] == Shown(nodes, nodes[j]) {
        assert nodes[j] != n && view[j] == old(Shown(nodes, nodes[j]));
      }
      ShowingWith(nodes, view, idx);
      view := view[idx := Shown(nodes, n)];
    }

    method MarkLabel(n: Node, ghost idx: nat)
      requires Listed() && idx < |nodes| && nodes[idx] == n
      modifies `view, n`isLabel
      ensures Listed() && |old(view)| == |nodes|
      ensures view == old(view)[idx := old(view)[idx].(isLabel := true)]
    {
      hide Chained, LinkOf, Distinct, Showing;
      ShownLinks(nodes, view, idx);
      OtherNodes(nodes, idx);
      ShowingAll(nodes, view);
      n.isLabel := true;
      ghost var i := Shown(nodes, n);
      forall j | 0 <= j < |nodes| && j != idx ensures view[j] == Shown(nodes, nodes[j]) {
        assert nodes[j] != n && view[j] == old(Shown(nodes, nodes[j]));
      }
      ShowingWith(nodes, view, idx);
      view := view[idx := i];
    }

    // Changes a jump's operand and links, stopping where the sum would be zero.
    method Repatch(n: Node, jumpTo: Node?, jumpToPrev: Node?, offset: int, ghost idx: nat) returns (ok: bool)
      requires Listed() && idx < |nodes| && nodes[idx] == n
      modifies `view, n`code, n`operands, n`jumpTo, n`jumpToPrev
      ensures |old(view)| == |nodes|
      ensures var patched := PatchOperand(
          old(view)[idx].(jumpTo := LinkOf(nodes, jumpTo), jumpToPrev := LinkOf(nodes, jumpToPrev)), offset);
        && (ok <==> patched.Some?)
        && (ok ==> Listed() && view == old(view)[idx := patched.value])
    {
      hide Chained, Showing, Distinct, LinkOf, Shown;
      ShownLinks(nodes, view, idx);
      if |n.operands| != 1 {
        return false;
      }
      var w := (n.operands[0] + offset) % WORD_LIMIT;
      if w == 0 {
        return false;
      }
      Rewrite(n, n.code, [w], jumpTo, jumpToPrev, idx);
      return true;
    }

    // One instruction's turn when another is about to be removed.
    method PatchForRemoving(n: Node, idx: nat, insn: Node, insnIdx: nat) returns (ok: bool)
      requires Listed() && idx < |nodes| && nodes[idx] == n && insnIdx < |nodes| && nodes[insnIdx] == insn
        && idx != insnIdx
      modifies `view, n`code, n`operands, n`jumpTo, n`jumpToPrev
      ensures |old(view)| == |nodes| && (ok <==> PatchForRemoval(old(view), insnIdx, idx).Some?)
      ensures ok ==> Listed() && view == old(view)[idx := PatchForRemoval(old(view), insnIdx, idx).value]
    {
      hide Showing, Distinct, Shown, Chained, Recorded, RecordedLoop;
      ShownLinks(nodes, view, idx);
      ShownLinks(nodes, view, insnIdx);
      NextFacts(insnIdx);
      ok := true;
      if idx < insnIdx && IsJump(n.code) {
        var r := RecordedIndex(n, idx);
        if r < 0 {
          return false;
        }
        if r >= insnIdx {
          var jumpTo := if r == insnIdx then insn.next else n.jumpTo;
          ok := Repatch(n, jumpTo, n.jumpToPrev, -(1 + |insn.operands|), idx);
          return;
        }
      } else if idx > insnIdx && IsLoop(n.code) {
        var r := RecordedLoopIndex(n, idx);
        if r < 0 {
          return false;
        }
        if r <= insnIdx {
          var jumpTo := if r == insnIdx then insn.next else n.jumpTo;
          ok := Repatch(n, jumpTo, n.jumpToPrev, -(1 + |insn.operands|), idx);
          return;
        }
      }
      assert view[idx := view[idx]] == view;
    }

    lemma NextFacts(k: nat)
      requires Listed() && k < |nodes|
      ensures |view| == |nodes| && LinkOf(nodes, nodes[k].next) == NextLink(view, k)
    {
      assert ChainedAt(nodes, k);
      NextIndex(nodes, k);
    }

    // Patches every jump and loop that spans the instruction, in turn.
    method PatchAround(insn: Node, insnIdx: nat) returns (ok: bool)
      requires Listed() && insnIdx < |nodes| && nodes[insnIdx] == insn && |view| == |nodes|
      modifies `view, nodes`code, nodes`operands, nodes`jumpTo, nodes`jumpToPrev
      ensures ok <==> Removable(old(view), insnIdx)
      ensures ok ==> Listed() && Patching(old(view), view, insnIdx, |old(view)|)
    {
      hide Showing, Distinct, Shown, Chained, Patching, PatchForRemoval, Removable, LinkOf, IndexOf;
      IndexSame(nodes, insn, insnIdx);
      ghost var v := view;
      var n := insns;
      var idx := 0;
      PatchingStart(v, insnIdx);
      while n != null
        invariant Listed() && 0 <= idx <= |nodes| && n == NodeAt(nodes, idx)
        invariant Patching(v, view, insnIdx, idx)
        decreases |nodes| - idx
      {
        NextNode(nodes, idx);
        ghost var w := view;
        if n != insn {
          ok := PatchForRemoving(n, idx, insn, insnIdx);
          if !ok {
            PatchingStep(v, w, v, insnIdx, idx);
            return false;
          }
        } else {
          IndexSame(nodes, insn, idx);
        }
        PatchingStep(v, w, view, insnIdx, idx);
        NextNode(nodes, idx);
        n := n.next;
        idx := idx + 1;
      }
      PatchingAll(v, view, insnIdx);
      return true;
    }


    // Patches every jump that spans the instruction, as its links record it, then takes
    // the instruction out; ok unless an assertion stops it.
    method RmInsnAndPatchJumps(insn: Node) returns (ok: bool)
      requires Valid() && insn in nodes
      modifies `insns, `tail, `nodes, `view, `count, `wordCount, nodes
      ensures var v, k := old(view), IndexOf(old(nodes), insn);
        && k < |v| && (ok <==> Removable(v, k))
        && (ok ==> Valid() && nodes == Without(old(nodes), k) && view == Removed(v, k))
    {
      hide Showing, Distinct, Shown, Chained, Patching, Dropped, Without, Removed, Off, Removable, LinkOf, IndexOf,
        Ends;
      var insnIdx := InsnIndex(insn);
      IndexFacts(nodes, insn);
      ViewSize(nodes, view);
      ghost var v := view;
      ok := PatchAround(insn, insnIdx);
      if !ok {
        return false;
      }
      PatchingOver(v, view, insnIdx);
      var found := RmInsn(insn);
      return true;
    }

    // One instruction's turn when another has been given an operand.
    method PatchForGrowing(n: Node, idx: nat, insn: Node, insnIdx: nat) returns (ok: bool)
      requires Listed() && idx < |nodes| && nodes[idx] == n && insnIdx < |nodes| && nodes[insnIdx] == insn
        && idx != insnIdx
      modifies `view, n`code, n`operands, n`jumpTo, n`jumpToPrev
      ensures |old(view)| == |nodes| && (ok <==> PatchForGrowth(old(view), insnIdx, idx).Some?)
      ensures ok ==> Listed() && view == old(view)[idx := PatchForGrowth(old(view), insnIdx, idx).value]
    {
      hide Showing, Distinct, Shown, Chained, Recorded, RecordedLoop;
      ShownLinks(nodes, view, idx);
      NextFacts(insnIdx);
      ok := true;
      if idx < insnIdx && IsJump(n.code) {
        var r := RecordedIndex(n, idx);
        if r < 0 {
          return false;
        }
        if r >= insnIdx {
          if r == insnIdx {
            ok := Repatch(n, insn.next, null, 1, idx);
          } else {
            ok := Repatch(n, n.jumpTo, n.jumpToPrev, 1, idx);
          }
          return;
        }
      } else if idx > insnIdx && IsLoop(n.code) {
        var r := RecordedLoopIndex(n, idx);
        if r < 0 {
          return false;
        }
        if r <= insnIdx {
          var jumpTo := if r == insnIdx then insn.next else n.jumpTo;
          ok := Repatch(n, jumpTo, n.jumpToPrev, 1, idx);
          return;
        }
      }
      assert view[idx := view[idx]] == view;
    }

    // Gives an instruction one more operand and patches every jump that spans it, as its
    // links record it; ok unless an assertion stops it.
    method AddInsnOperand(insn: Node, operand: nat) returns (ok: bool)
      requires Valid() && insn in nodes
      modifies `view, `wordCount, nodes`code, nodes`operands, nodes`jumpTo, nodes`jumpToPrev
      ensures var v, k := old(view), IndexOf(nodes, insn);
        && k < |v| && (ok <==> Growable(v, k))
        && (ok ==> Valid() && view == Grown(v, k, operand))
    {
      hide Showing, Distinct, Shown, Chained, Growing, Grown, Off, PatchForGrowth, LinkOf, IndexOf;
      var insnIdx := InsnIndex(insn);
      IndexFacts(nodes, insn);
      ViewSize(nodes, view);
      ShownLinks(nodes, view, insnIdx);
      ghost var v := view;
      if |insn.operands| >= MAX_OPERANDS {
        return false;
      }
      GrowingStart(v, insnIdx, operand);
      Rewrite(insn, insn.code, insn.operands + [operand], insn.jumpTo, insn.jumpToPrev, insnIdx);
      wordCount := wordCount + 1;
      var n := insns;
      var idx := 0;
      while n != null
        invariant Listed() && 0 <= idx <= |nodes| && n == NodeAt(nodes, idx) && wordCount == old(wordCount) + 1
        invariant Growing(v, view, insnIdx, operand, idx)
        decreases |nodes| - idx
      {
        NextNode(nodes, idx);
        ghost var w := view;
        if n != insn {
          ok := PatchForGrowing(n, idx, insn, insnIdx);
          if !ok {
            GrowingStep(v, w, v, insnIdx, operand, idx);
            return false;
          }
        } else {
          IndexSame(nodes, insn, idx);
        }
        GrowingStep(v, w, view, insnIdx, operand, idx);
        NextNode(nodes, idx);
        n := n.next;
        idx := idx + 1;
      }
      GrowingOver(v, view, insnIdx, operand);
      return true;
    }
  }
}
