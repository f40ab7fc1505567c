// The optimizer on the linked list: one cursor that moves on, steps back after a fold
// and starts over after a removal.
module IseqOptimizer {
  import opened Opcodes
  import opened Machine
  import opened Code
  import opened Patch
  import opened Simplify
  import opened Optimizer
  import opened OptimizerRuns
  import opened Iseqs

  // What a check of the cursor came to: it did not apply; it changed the list; the cursor
  // moves on; or an assertion, or behaviour C does not define, stopped it.
  datatype Taken = NotTaken | Changed | MoveOn | Stops

  ghost function Now(iseq: Iseq): Listing
    reads iseq`view, iseq`constants
  {
    Listing(iseq.view, iseq.constants)
  }

  lemma AtNode(iseq: Iseq, at: nat)
    requires iseq.Valid() && at < |iseq.nodes|
    ensures |iseq.view| == |iseq.nodes| && iseq.view[at].code == iseq.nodes[at].code
    ensures iseq.view[at].operands == iseq.nodes[at].operands
    ensures iseq.view[at].isNumber == iseq.nodes[at].isNumber && iseq.view[at].isLabel == iseq.nodes[at].isLabel
    ensures iseq.nodes[at].next == NodeAt(iseq.nodes, at + 1) && iseq.nodes[at].prev == NodeAt(iseq.nodes, at - 1)
    ensures iseq.nodes[at] in iseq.nodes && IndexOf(iseq.nodes, iseq.nodes[at]) == at
  {
    ShownLinks(iseq.nodes, iseq.view, at);
    assert ChainedAt(iseq.nodes, at);
    IndexUnique(iseq.nodes, at);
  }

  // The choice leads nowhere: the outcome is undefined, or an assertion stops its step.
  predicate Fails(s: Listing, c: Choice) {
    c.Halt? || (c.Do? && Enabled(s, c.a) && Apply(s, c.a).None?)
  }

  // What was done at `at` is what was chosen there, and the cursor is at at' afterwards.
  predicate Followed(s: Listing, c: Choice, t: Taken, a: Action, at: nat, at': nat) {
    match t
    case NotTaken => false
    case Changed => c == Do(a, at')
    case MoveOn => c == Skip && at' == at + 1
    case Stops => Fails(s, c)
  }

  // Folds the operator at the cursor with the number literals before it.
  method FoldStep(iseq: Iseq, cur: Node, ghost at: nat) returns (t: Taken, ghost a: Action)
    requires iseq.Valid() && at < |iseq.nodes| && iseq.nodes[at] == cur
    modifies iseq, iseq.nodes
    ensures t.NotTaken? || t.MoveOn? ==>
      iseq.Valid() && Now(iseq) == old(Now(iseq)) && iseq.nodes == old(iseq.nodes) && iseq.stale == old(iseq.stale)
    ensures t.Changed? ==>
      && at >= 2 && iseq.Valid() && iseq.nodes == Without(Without(old(iseq.nodes), at), at - 1)
        && iseq.stale == old(iseq.stale)
      && Enabled(old(Now(iseq)), a) && a.Fold? && Apply(old(Now(iseq)), a) == Some(Now(iseq))
    ensures t.NotTaken? <==> !FoldPlace(old(iseq.view), at)
    ensures !t.NotTaken? ==>
      Followed(old(Now(iseq)), ChooseFold(old(Now(iseq)), at), t, a, at, if t.Changed? then at - 2 else at + 1)
  {
    hide Showing, Chained, Distinct, Removed, Removable, Without, FoldConstant, Off;
    a := DropUnused(0);
    AtNode(iseq, at);
    if ArithOf(cur.code).None? {
      return NotTaken, a;
    }
    var bin := cur.prev;
    if bin == null {
      return NotTaken, a;
    }
    AtNode(iseq, at - 1);
    var ain := bin.prev;
    if ain != null {
      AtNode(iseq, at - 2);
    }
    if ain == null || !(bin.code == OP_CONSTANT && bin.isNumber) || !(ain.code == OP_CONSTANT && ain.isNumber) {
      return NotTaken, a;
    }
    ghost var j := at - 2;
    var x := NumberConstant(iseq, ain);
    var y := NumberConstant(iseq, bin);
    if x.None? || y.None? {
      return Stops, a;
    }
    assert FoldsAt(iseq.view, iseq.constants, j);
    match FoldConstant(ArithOf(cur.code).value, x.value, y.value)
    case ZeroDivisor =>
      t := MoveOn;
    case FoldUndefined =>
      t := Stops;
    case Folds(r) =>
      a := Fold(j, r);
      t := FoldAway(iseq, cur, bin, ain, r, j);
  }

  method NumberConstant(iseq: Iseq, n: Node) returns (x: Option<real>)
    ensures x.Some? <==>
      |n.operands| == 1 && n.operands[0] < |iseq.constants| && iseq.constants[n.operands[0]].NumberConst?
    ensures x.Some? ==> x.value == iseq.constants[n.operands[0]].r
  {
    if |n.operands| == 1 && n.operands[0] < |iseq.constants| && iseq.constants[n.operands[0]].NumberConst? {
      return Some(iseq.constants[n.operands[0]].r);
    }
    return None;
  }

  // Stores the folded number and removes the operator and the second literal.
  method FoldAway(iseq: Iseq, cur: Node, bin: Node, ain: Node, r: real, ghost j: nat) returns (t: Taken)
    requires iseq.Valid() && j + 2 < |iseq.nodes| && iseq.nodes[j] == ain && iseq.nodes[j + 1] == bin
      && iseq.nodes[j + 2] == cur
    requires FoldsAt(iseq.view, iseq.constants, j) && |iseq.view| == |iseq.nodes|
    modifies iseq, iseq.nodes
    ensures t.Stops? || t.Changed?
    ensures t.Stops? ==> !FoldRemovable(old(iseq.view), j)
    ensures t.Changed? ==>
      && iseq.Valid() && iseq.nodes == Without(Without(old(iseq.nodes), j + 2), j + 1) && iseq.stale == old(iseq.stale)
      && FoldRemovable(old(iseq.view), j) && iseq.view == FoldedList(old(iseq.view), j)
      && iseq.constants == FoldedPool(old(iseq.view), old(iseq.constants), j, r)
  {
    hide Showing, Chained, Distinct, Removed, Removable, FoldConstant, Off;
    AtNode(iseq, j);
    AtNode(iseq, j + 2);
    iseq.constants := iseq.constants[ain.operands[0] := NumberConst(r)];
    t := RmTwo(iseq, cur, bin, j + 2, j + 1);
  }

  // Removes the instructions at k and then at l.
  method RmTwo(iseq: Iseq, first: Node, second: Node, ghost k: nat, ghost l: nat) returns (t: Taken)
    requires iseq.Valid() && k < |iseq.nodes| && l < |iseq.nodes| - 1 && iseq.nodes[k] == first
    requires Without(iseq.nodes, k)[l] == second
    modifies iseq`insns, iseq`tail, iseq`nodes, iseq`view, iseq`count, iseq`wordCount, iseq.nodes
    ensures t.Stops? || t.Changed?
    ensures t.Stops? ==>
      var v := old(iseq.view); k < |v| && l < |v| - 1 && !(Removable(v, k) && Removable(Removed(v, k), l))
    ensures t.Changed? ==>
      && iseq.Valid() && iseq.nodes == Without(Without(old(iseq.nodes), k), l)
      && k < |old(iseq.view)| && l < |old(iseq.view)| - 1
      && Removable(old(iseq.view), k) && Removable(Removed(old(iseq.view), k), l)
      && iseq.view == Removed(Removed(old(iseq.view), k), l)
  {
    hide Showing, Chained, Distinct, Removed, Removable, Without, Off;
    AtNode(iseq, k);
    var ok := iseq.RmInsnAndPatchJumps(first);
    if !ok {
      return Stops;
    }
    AtNode(iseq, l);
    ok := iseq.RmInsnAndPatchJumps(second);
    return if ok then Changed else Stops;
  }

  lemma {:induction false} ExchangeOff(v: Insns, k: nat, i: Insn, n: nat)
    requires k < |v| && n <= |v|
    ensures Off(v[k := i], n) == Off(v, n) + if n > k then Size(i) - Size(v[k]) else 0
  {
    if n > 0 {
      ExchangeOff(v, k, i, n - 1);
    }
  }

  // Rewrites code and operands of one instruction; the words it gains or loses are not
  // counted.
  method Overwrite(iseq: Iseq, cur: Node, code: nat, operands: seq<nat>, ghost at: nat)
    requires iseq.Valid() && at < |iseq.nodes| && iseq.nodes[at] == cur
    modifies iseq`view, iseq`stale, cur`code, cur`operands, cur`jumpTo, cur`jumpToPrev
    ensures iseq.Valid() && |old(iseq.view)| == |iseq.nodes|
    ensures iseq.view == old(iseq.view)[at := old(iseq.view)[at].(code := code, operands := operands)]
    ensures iseq.stale == old(iseq.stale) + |old(iseq.view)[at].operands| - |operands|
  {
    hide Showing, Chained, Distinct, Off;
    ShownLinks(iseq.nodes, iseq.view, at);
    iseq.Rewrite(cur, code, operands, cur.jumpTo, cur.jumpToPrev, at);
    iseq.stale := iseq.stale + |old(iseq.view)[at].operands| - |operands|;
    ExchangeOff(old(iseq.view), at, iseq.view[at], |iseq.view|);
  }

  // Fuses the pop at the cursor with the one before it.
  method FuseStep(iseq: Iseq, cur: Node, ghost at: nat) returns (t: Taken)
    requires iseq.Valid() && at < |iseq.nodes| && iseq.nodes[at] == cur
    modifies iseq`insns, iseq`tail, iseq`nodes, iseq`view, iseq`count, iseq`wordCount, iseq`stale, iseq.nodes
    ensures t.NotTaken? || t.Changed? || t.Stops?
    ensures t.NotTaken? <==> !FusePlace(old(iseq.view), at)
    ensures t.Stops? ==> !Fusible(old(iseq.view), at - 1)
    ensures t.NotTaken? ==>
      iseq.Valid() && iseq.view == old(iseq.view) && iseq.nodes == old(iseq.nodes) && iseq.stale == old(iseq.stale)
    ensures t.Changed? ==>
      && at >= 1 && iseq.Valid() && iseq.nodes == Without(old(iseq.nodes), at - 1) && iseq.stale == old(iseq.stale)
      && FusesAt(old(iseq.view), at - 1) && Fusible(old(iseq.view), at - 1)
      && iseq.view == FusedList(old(iseq.view), at - 1)
  {
    hide Showing, Chained, Distinct, Removed, Removable, Without, Grown, Growable, Off;
    AtNode(iseq, at);
    var prev := cur.prev;
    if prev == null {
      return NotTaken;
    }
    AtNode(iseq, at - 1);
    if !(prev.code in {OP_POP, OP_POP_N} && cur.code in {OP_POP, OP_POP_N} && !prev.isLabel && !cur.isLabel) {
      return NotTaken;
    }
    t := FuseTwo(iseq, prev, cur, at - 1);
  }

  // Removes the first pop and merges it into the second.
  method FuseTwo(iseq: Iseq, prev: Node, cur: Node, ghost j: nat) returns (t: Taken)
    requires iseq.Valid() && j + 1 < |iseq.nodes| && iseq.nodes[j] == prev && iseq.nodes[j + 1] == cur
    requires |iseq.view| == |iseq.nodes| && FusesAt(iseq.view, j)
    modifies iseq`insns, iseq`tail, iseq`nodes, iseq`view, iseq`count, iseq`wordCount, iseq`stale, iseq.nodes
    ensures t.Changed? || t.Stops?
    ensures t.Stops? ==> !Fusible(old(iseq.view), j)
    ensures t.Changed? ==>
      && iseq.Valid() && iseq.nodes == Without(old(iseq.nodes), j) && iseq.stale == old(iseq.stale)
      && Fusible(old(iseq.view), j) && iseq.view == FusedList(old(iseq.view), j)
  {
    hide Showing, Chained, Distinct, Removed, Removable, Without, Grown, Growable, Off, FusedList, Fusible, LinkOf,
      IndexOf, Shown, FusesAt;
    ShownLinks(iseq.nodes, iseq.view, j);
    IndexSame(iseq.nodes, prev, j);
    FuseNode(iseq.nodes, j);
    var n := if prev.code == OP_POP || |prev.operands| == 0 then 1 else prev.operands[0];
    ghost var v := iseq.view;
    var ok := iseq.RmInsnAndPatchJumps(prev);
    if !ok {
      FuseStuck(v, j);
      return Stops;
    }
    FuseMiddle(v, j);
    ViewSize(iseq.nodes, iseq.view);
    t := MergePops(iseq, cur, n, j);
    if t.Changed? {
      FuseView(v, j, iseq.view);
    } else {
      FuseStuck(v, j);
    }
  }

  lemma FuseNode(nodes: seq<Node>, j: nat)
    requires j + 1 < |nodes|
    ensures Without(nodes, j)[j] == nodes[j + 1]
  {
  }

  lemma FuseMiddle(v: Insns, j: nat)
    requires FusesAt(v, j) && Removable(v, j)
    ensures var w := Removed(v, j); |w| == |v| - 1 && w[j].code == v[j + 1].code && w[j].operands == v[j + 1].operands
    ensures Removed(v, j)[j].code in {OP_POP, OP_POP_N}
  {
    RemovedSame(v, j, j);
  }

  lemma FuseStuck(v: Insns, j: nat)
    requires FusesAt(v, j)
    requires Removable(v, j) ==>
      var w := Removed(v, j); if w[j].code == OP_POP then !Growable(w, j) else |w[j].operands| != 1
    ensures !Fusible(v, j)
  {
    hide Removed, Removable, Growable;
    if Removable(v, j) {
      FuseMiddle(v, j);
    }
  }

  lemma FuseView(v: Insns, j: nat, x: Insns)
    requires FusesAt(v, j) && Removable(v, j)
    requires var w, n := Removed(v, j), PopCount(v[j]);
      if w[j].code == OP_POP
      then Growable(w, j) && x == Grown(w, j, n + 1)[j := Grown(w, j, n + 1)[j].(code := OP_POP_N)]
      else |w[j].operands| == 1 && x == w[j := w[j].(operands := [w[j].operands[0] + n])]
    ensures Fusible(v, j) && x == FusedList(v, j)
  {
    hide Removed, Removable, Grown, Growable;
    FuseMiddle(v, j);
  }

  // The pop at the cursor takes n more values off.
  method MergePops(iseq: Iseq, cur: Node, n: nat, ghost at: nat) returns (t: Taken)
    requires iseq.Valid() && at < |iseq.nodes| && iseq.nodes[at] == cur && |iseq.view| == |iseq.nodes|
    requires iseq.view[at].code in {OP_POP, OP_POP_N}
    modifies iseq`view, iseq`wordCount, iseq`stale, iseq.nodes`code, iseq.nodes`operands, iseq.nodes`jumpTo,
      iseq.nodes`jumpToPrev
    ensures t.Changed? || t.Stops?
    ensures var w := old(iseq.view); t.Stops? ==>
      if w[at].code == OP_POP then !Growable(w, at) else |w[at].operands| != 1
    ensures var w := old(iseq.view); t.Changed? ==>
      && iseq.Valid() && iseq.stale == old(iseq.stale)
      && (if w[at].code == OP_POP
          then Growable(w, at) && iseq.view == Grown(w, at, n + 1)[at := Grown(w, at, n + 1)[at].(code := OP_POP_N)]
          else |w[at].operands| == 1 && iseq.view == w[at := w[at].(operands := [w[at].operands[0] + n])])
  {
    hide Showing, Chained, Distinct, Grown, Growable, Off;
    AtNode(iseq, at);
    if cur.code == OP_POP {
      var ok := iseq.AddInsnOperand(cur, n + 1);
      if !ok {
        return Stops;
      }
      AtNode(iseq, at);
      Overwrite(iseq, cur, OP_POP_N, cur.operands, at);
    } else {
      if |cur.operands| != 1 {
        return Stops;
      }
      Overwrite(iseq, cur, cur.code, [cur.operands[0] + n], at);
    }
    return Changed;
  }

  // Removes a jump, or turns the jump of a statement into a pop, unless it is labelled.
  method ReplaceJumpInsn(iseq: Iseq, cur: Node, ghost at: nat) returns (t: Taken, removed: bool)
    requires iseq.Valid() && at < |iseq.nodes| && iseq.nodes[at] == cur && IsJump(cur.code)
    modifies iseq`insns, iseq`tail, iseq`nodes, iseq`view, iseq`count, iseq`wordCount, iseq`stale, iseq.nodes
    ensures !t.NotTaken? && |old(iseq.view)| == |old(iseq.nodes)|
    ensures t.Stops? ==>
      if old(cur.code) in {OP_JUMP, OP_JUMP_IF_FALSE_PEEK, OP_JUMP_IF_TRUE_PEEK}
      then !old(cur.isLabel) && !Removable(old(iseq.view), at)
      else old(cur.code) != OP_JUMP_IF_FALSE
    ensures t.MoveOn? ==>
      && old(cur.isLabel) && old(cur.code) in {OP_JUMP, OP_JUMP_IF_FALSE_PEEK, OP_JUMP_IF_TRUE_PEEK, OP_JUMP_IF_FALSE}
      && iseq.Valid() && iseq.view == old(iseq.view) && iseq.nodes == old(iseq.nodes) && iseq.stale == old(iseq.stale)
    ensures t.Changed? && removed ==>
      && old(cur.code) in {OP_JUMP, OP_JUMP_IF_FALSE_PEEK, OP_JUMP_IF_TRUE_PEEK} && !old(cur.isLabel)
      && iseq.Valid() && iseq.nodes == Without(old(iseq.nodes), at) && iseq.stale == old(iseq.stale)
      && Removable(old(iseq.view), at) && iseq.view == Removed(old(iseq.view), at)
    ensures t.Changed? && !removed ==>
      && old(cur.code) == OP_JUMP_IF_FALSE && !old(cur.isLabel)
      && iseq.Valid() && iseq.nodes == old(iseq.nodes) && iseq.view == JumpPopped(old(iseq.view), at)
      && iseq.stale == old(iseq.stale) + |old(cur.operands)|
  {
    hide Showing, Chained, Distinct, Removed, Removable, Without, Off;
    removed := false;
    AtNode(iseq, at);
    if cur.code in {OP_JUMP, OP_JUMP_IF_FALSE_PEEK, OP_JUMP_IF_TRUE_PEEK} {
      if cur.isLabel {
        return MoveOn, false;
      }
      var ok := iseq.RmInsnAndPatchJumps(cur);
      return if ok then Changed else Stops, true;
    } else if cur.code == OP_JUMP_IF_FALSE {
      if cur.isLabel {
        return MoveOn, false;
      }
      Overwrite(iseq, cur, OP_POP, [], at);
      return Changed, false;
    } else {
      return Stops, false;
    }
  }

  // Whether the cursor pops a constant just pushed, and nothing after needs its value.
  method PopsUnused(iseq: Iseq, cur: Node, ghost at: nat) returns (unused: bool)
    requires iseq.Valid() && at < |iseq.nodes| && iseq.nodes[at] == cur
    ensures |iseq.view| == |iseq.nodes|
    ensures unused <==> UnusedPlace(iseq.view, at)
    ensures unused ==> cur.prev == iseq.nodes[at - 1]
  {
    hide Showing, Chained, Distinct;
    AtNode(iseq, at);
    var prev := cur.prev;
    if cur.code != OP_POP || prev == null {
      return false;
    }
    AtNode(iseq, at - 1);
    if prev.code !in {OP_CONSTANT, OP_FALSE, OP_TRUE, OP_NIL} {
      return false;
    }
    if cur.next == null {
      return true;
    }
    AtNode(iseq, at + 1);
    return cur.next.code != OP_BLOCK_CONTINUE;
  }

  lemma UnusedChosen(s: Listing, at: nat)
    requires UnusedPlace(s.v, at)
    ensures 1 <= at < |s.v| && Enabled(s, DropUnused(at - 1))
    ensures !UnusedRemovable(s.v, at - 1) ==> Fails(s, Do(DropUnused(at - 1), 0))
  {
    hide UnusedRemovable, UnusedDropped;
  }

  // Removes an unused constant and the pop at the cursor behind it.
  method UnusedStep(iseq: Iseq, cur: Node, ghost at: nat) returns (t: Taken)
    requires iseq.Valid() && at < |iseq.nodes| && iseq.nodes[at] == cur
    modifies iseq`insns, iseq`tail, iseq`nodes, iseq`view, iseq`count, iseq`wordCount, iseq.nodes
    ensures !t.MoveOn?
    ensures t.NotTaken? <==> !UnusedPlace(old(iseq.view), at)
    ensures t.Stops? ==> !UnusedRemovable(old(iseq.view), at - 1)
    ensures t.NotTaken? ==> iseq.Valid() && iseq.view == old(iseq.view) && iseq.nodes == old(iseq.nodes)
    ensures t.Changed? ==>
      && at >= 1 && iseq.Valid() && iseq.nodes == Without(Without(old(iseq.nodes), at - 1), at - 1)
      && Enabled(old(Now(iseq)), DropUnused(at - 1)) && UnusedRemovable(old(iseq.view), at - 1)
      && iseq.view == UnusedDropped(old(iseq.view), at - 1)
  {
    hide Showing, Chained, Distinct, Removed, Removable, Without, Off, UnusedPlace, Enabled, Fails;
    var unused := PopsUnused(iseq, cur, at);
    if !unused {
      return NotTaken;
    }
    UnusedChosen(Now(iseq), at);
    FuseNode(iseq.nodes, at - 1);
    t := RmTwo(iseq, cur.prev, cur, at - 1, at - 1);
  }

  ghost predicate Within(nodes: seq<Node>, was: seq<Node>) {
    forall n | n in nodes :: n in was
  }

  lemma WithoutWithin(nodes: seq<Node>, k: nat)
    requires k < |nodes|
    ensures Within(Without(nodes, k), nodes)
  {
  }

  lemma WithinTwice(a: seq<Node>, b: seq<Node>, c: seq<Node>)
    requires Within(a, b) && Within(b, c)
    ensures Within(a, c)
  {
  }

  // Where the cursor is afterwards: the list has become shorter, or the cursor has moved on.
  ghost predicate Onward(was: seq<Node>, at: nat, nodes: seq<Node>, at': nat, next: Node?) {
    && Within(nodes, was) && at' <= |nodes| && next == NodeAt(nodes, at')
    && (|nodes| < |was| || (nodes == was && at' == at + 1))
  }

  ghost predicate NoPopJump(trace: seq<Action>) {
    forall i | 0 <= i < |trace| :: !trace[i].PopJump?
  }

  // A list as the cursor finds or leaves it.
  datatype Shape = Shape(s: Listing, nodes: seq<Node>, stale: int)

  ghost function ShapeOf(iseq: Iseq): Shape
    reads iseq`view, iseq`constants, iseq`nodes, iseq`stale
  {
    Shape(Now(iseq), iseq.nodes, iseq.stale)
  }

  // What checking the cursor at `at` came to: nothing, or the action a; and where the
  // cursor is afterwards.
  ghost predicate Took(was: Shape, at: nat, t: Taken, a: Action, now: Shape, at': nat, next: Node?) {
    && (t.NotTaken? || t.MoveOn? ==> now == was)
    && (t.Changed? ==>
          && Enabled(was.s, a) && Apply(was.s, a) == Some(now.s)
          && (if a.PopJump? then now.stale >= was.stale else now.stale == was.stale))
    && (t.Changed? || t.MoveOn? ==> Onward(was.nodes, at, now.nodes, at', next))
  }

  // The check for an operator on two number literals.
  method FoldVisit(iseq: Iseq, cur: Node, ghost at: nat)
    returns (t: Taken, next: Node?, ghost a: Action, ghost at': nat)
    requires iseq.Valid() && at < |iseq.nodes| && iseq.nodes[at] == cur
    modifies iseq, iseq.nodes
    ensures !t.Stops? ==> iseq.Valid() && Took(old(ShapeOf(iseq)), at, t, a, ShapeOf(iseq), at', next)
    ensures t.NotTaken? <==> !FoldPlace(old(iseq.view), at)
    ensures !t.NotTaken? ==> Followed(old(Now(iseq)), ChooseFold(old(Now(iseq)), at), t, a, at, at')
  {
    hide Showing, Chained, Distinct, Removed, Removable, Without, Off, Enabled, Apply;
    AtNode(iseq, at);
    next, at' := cur.next, at + 1;
    var before := if cur.prev == null then null else cur.prev.prev;
    if cur.prev != null {
      AtNode(iseq, at - 1);
    }
    t, a := FoldStep(iseq, cur, at);
    if t.Changed? {
      next, at' := before, at - 2;
      WithoutBefore(old(iseq.nodes), at, at - 2);
      WithoutBefore(Without(old(iseq.nodes), at), at - 1, at - 2);
      WithoutWithin(old(iseq.nodes), at);
      WithoutWithin(Without(old(iseq.nodes), at), at - 1);
    }
  }

  lemma WithoutBefore(nodes: seq<Node>, k: nat, i: nat)
    requires i < k < |nodes|
    ensures |Without(nodes, k)| == |nodes| - 1 && NodeAt(Without(nodes, k), i) == NodeAt(nodes, i)
  {
  }

  // The check for two pops.
  method FuseVisit(iseq: Iseq, cur: Node, ghost at: nat)
    returns (t: Taken, next: Node?, ghost a: Action, ghost at': nat)
    requires iseq.Valid() && at < |iseq.nodes| && iseq.nodes[at] == cur
    modifies iseq`insns, iseq`tail, iseq`nodes, iseq`view, iseq`count, iseq`wordCount, iseq`stale, iseq.nodes
    ensures !t.Stops? ==> iseq.Valid() && Took(old(ShapeOf(iseq)), at, t, a, ShapeOf(iseq), at', next)
    ensures t.NotTaken? <==> !FusePlace(old(iseq.view), at)
    ensures !t.NotTaken? ==> Followed(old(Now(iseq)), Do(Fuse(at - 1), at), t, a, at, at')
  {
    hide Showing, Chained, Distinct, Removed, Removable, Without, Off, FusesAt, Fusible, FusedList;
    a, next, at' := DropUnused(0), cur.next, at;
    t := FuseStep(iseq, cur, at);
    if t.Changed? {
      // What is left is a pop of several values, to which no further check applies.
      a := Fuse(at - 1);
      WithoutWithin(old(iseq.nodes), at - 1);
      AfterFuse(old(iseq.nodes), at - 1, iseq.nodes);
      AtNode(iseq, at - 1);
      next := cur.next;
    }
  }

  lemma AfterFuse(was: seq<Node>, j: nat, nodes: seq<Node>)
    requires j + 1 < |was| && nodes == Without(was, j)
    ensures j < |nodes| == |was| - 1 && nodes[j] == was[j + 1]
  {
  }

  lemma ReplaceEnabled(s: Listing, at: nat, restart: bool)
    requires JumpPlace(s.v, at) && ChooseJump(s.v, at) == ChooseReplace(s.v[at], at, restart)
    ensures var c := ChooseJump(s.v, at);
      && (c.Do? ==> Enabled(s, c.a)) && (c.Halt? ==> Fails(s, c))
      && (c.Do? && c.a.DropJump? && !Removable(s.v, at) ==> Fails(s, c))
      && (c.Do? && c.a.DropJump? && Removable(s.v, at) ==> Apply(s, c.a) == Some(s.(v := Removed(s.v, at))))
      && (c.Do? && c.a.PopJump? ==> Apply(s, c.a) == Some(s.(v := JumpPopped(s.v, at))))
  {
    hide Removable, Removed, JumpPopped;
  }

  // Replaces the jump at the cursor; after a removal the cursor may start over.
  method ReplaceVisit(iseq: Iseq, cur: Node, restart: bool, ghost at: nat)
    returns (t: Taken, next: Node?, ghost a: Action, ghost at': nat)
    requires iseq.Valid() && at < |iseq.nodes| && iseq.nodes[at] == cur && JumpPlace(iseq.view, at)
    requires ChooseJump(iseq.view, at) == ChooseReplace(iseq.view[at], at, restart)
    modifies iseq`insns, iseq`tail, iseq`nodes, iseq`view, iseq`count, iseq`wordCount, iseq`stale, iseq.nodes
    ensures !t.NotTaken?
    ensures !t.Stops? ==> iseq.Valid() && Took(old(ShapeOf(iseq)), at, t, a, ShapeOf(iseq), at', next)
    ensures Followed(old(Now(iseq)), ChooseJump(old(iseq.view), at), t, a, at, at')
  {
    hide Showing, Chained, Distinct, Removed, Removable, Without, Off, Enabled, Apply, Fails, JumpPopped;
    AtNode(iseq, at);
    ReplaceEnabled(Now(iseq), at, restart);
    WithoutWithin(iseq.nodes, at);
    WithoutNext(iseq.nodes, at);
    next, at' := cur.next, at + 1;
    var removed;
    t, removed := ReplaceJumpInsn(iseq, cur, at);
    a := if removed then DropJump(at) else PopJump(at);
    if t.Changed? && removed {
      at' := at;
      if restart {
        next, at' := iseq.insns, 0;
      }
    }
  }

  // The checks for jumps.
  method JumpStep(iseq: Iseq, cur: Node, ghost at: nat)
    returns (t: Taken, next: Node?, ghost a: Action, ghost at': nat)
    requires iseq.Valid() && at < |iseq.nodes| && iseq.nodes[at] == cur
    modifies iseq`insns, iseq`tail, iseq`nodes, iseq`view, iseq`count, iseq`wordCount, iseq`stale, iseq.nodes
    ensures !t.Stops? ==> iseq.Valid() && Took(old(ShapeOf(iseq)), at, t, a, ShapeOf(iseq), at', next)
    ensures t.NotTaken? <==> !JumpPlace(old(iseq.view), at)
    ensures !t.NotTaken? ==> Followed(old(Now(iseq)), ChooseJump(old(iseq.view), at), t, a, at, at')
  {
    hide Showing, Chained, Distinct, Removed, Removable, Without, Off, Enabled, Apply;
    t, next, a, at' := NotTaken, cur.next, DropUnused(0), at + 1;
    AtNode(iseq, at);
    MovesOn(iseq, at);
    if !IsJump(cur.code) {
      return;
    }
    if |cur.operands| == 1 && cur.operands[0] == 0 {
      t, next, a, at' := ReplaceVisit(iseq, cur, false, at);
      return;
    }
    var prev := cur.prev;
    if prev == null {
      return;
    }
    AtNode(iseq, at - 1);
    if prev.code !in {OP_CONSTANT, OP_FALSE, OP_TRUE, OP_NIL} {
      return;
    }
    var truth := prev.code in {OP_CONSTANT, OP_TRUE};
    if (cur.code == OP_JUMP_IF_FALSE && truth) || (cur.code == OP_JUMP_IF_TRUE_PEEK && !truth) {
      t, next, a, at' := ReplaceVisit(iseq, cur, true, at);
    } else {
      t := MoveOn;
    }
  }

  // The check for an unused constant; after a removal the cursor starts over.
  method UnusedVisit(iseq: Iseq, cur: Node, ghost at: nat)
    returns (t: Taken, next: Node?, ghost a: Action, ghost at': nat)
    requires iseq.Valid() && at < |iseq.nodes| && iseq.nodes[at] == cur
    modifies iseq`insns, iseq`tail, iseq`nodes, iseq`view, iseq`count, iseq`wordCount, iseq.nodes
    ensures !t.Stops? ==> iseq.Valid() && Took(old(ShapeOf(iseq)), at, t, a, ShapeOf(iseq), at', next)
    ensures t.NotTaken? <==> !UnusedPlace(old(iseq.view), at)
    ensures !t.NotTaken? ==> Followed(old(Now(iseq)), Do(DropUnused(at - 1), 0), t, a, at, at')
  {
    hide Showing, Chained, Distinct, Removed, Removable, Without, Off, Enabled, UnusedRemovable, UnusedDropped,
      UnusedPlace, Fails;
    a, next, at' := DropUnused(0), null, 0;
    if UnusedPlace(iseq.view, at) {
      UnusedChosen(Now(iseq), at);
    }
    t := UnusedStep(iseq, cur, at);
    if t.Changed? {
      a := DropUnused(at - 1);
      WithoutWithin(old(iseq.nodes), at - 1);
      WithoutWithin(Without(old(iseq.nodes), at - 1), at - 1);
      next := iseq.insns;
    }
  }

  // One visit of the cursor.
  method Visit(iseq: Iseq, cur: Node, noRemoveUnusedExpressions: bool, ghost at: nat)
    returns (t: Taken, next: Node?, ghost a: Action, ghost at': nat)
    requires iseq.Valid() && at < |iseq.nodes| && iseq.nodes[at] == cur
    modifies iseq, iseq.nodes
    ensures !t.Stops? ==> iseq.Valid() && Took(old(ShapeOf(iseq)), at, t, a, ShapeOf(iseq), at', next)
    ensures at < |old(iseq.view)|
    ensures Followed(old(Now(iseq)), Choose(old(Now(iseq)), at, noRemoveUnusedExpressions), t, a, at, at')
  {
    hide Showing, Chained, Distinct, Onward, Enabled, Apply, Fails, FoldPlace, FusePlace, JumpPlace, UnusedPlace,
      ChooseFold, ChooseJump;
    AtNode(iseq, at);
    t, next, a, at' := FoldVisit(iseq, cur, at);
    if !t.NotTaken? {
      return;
    }
    t, next, a, at' := FuseVisit(iseq, cur, at);
    if !t.NotTaken? {
      return;
    }
    t, next, a, at' := JumpStep(iseq, cur, at);
    if !t.NotTaken? {
      return;
    }
    if !noRemoveUnusedExpressions {
      t, next, a, at' := UnusedVisit(iseq, cur, at);
      if !t.NotTaken? {
        return;
      }
    }
    t, next, at' := MoveOn, cur.next, at + 1;
    MovesOn(iseq, at);
  }

  lemma MovesOn(iseq: Iseq, at: nat)
    requires iseq.Valid() && at < |iseq.nodes|
    ensures Onward(iseq.nodes, at, iseq.nodes, at + 1, iseq.nodes[at].next)
  {
    AtNode(iseq, at);
  }

  lemma WithoutNext(nodes: seq<Node>, k: nat)
    requires k < |nodes|
    ensures NodeAt(Without(nodes, k), k) == NodeAt(nodes, k + 1)
  {
  }

  lemma NoPopJumpMore(trace: seq<Action>, a: Action)
    ensures NoPopJump(trace + [a]) <==> NoPopJump(trace) && !a.PopJump?
  {
    assert (trace + [a])[|trace|] == a;
    assert forall i | 0 <= i < |trace| :: (trace + [a])[i] == trace[i];
  }

  lemma NoSteps(s: Listing)
    ensures Leads(s, [], s)
  {
  }

  lemma GoesOn(s: Listing, at: nat, trace: seq<Action>, keepUnused: bool, t: Taken, a: Action, at': nat)
    requires at < |s.v| && Followed(s, Choose(s, at, keepUnused), t, a, at, at')
    ensures t.MoveOn? ==> Optimized(s, at, trace, keepUnused) == Optimized(s, at', trace, keepUnused)
    ensures t.Stops? ==> Optimized(s, at, trace, keepUnused).Stopped?
    ensures t.Changed? && Enabled(s, a) && Apply(s, a).Some? ==>
      && at' <= |Apply(s, a).value.v|
      && Optimized(s, at, trace, keepUnused) == Optimized(Apply(s, a).value, at', trace + [a], keepUnused)
  {
    hide Choose, Enabled, Apply;
    if t.Changed? && Enabled(s, a) && Apply(s, a).Some? {
      ChosenLength(s, at, keepUnused);
    }
  }

  // Optimizes the list in place.  The cursor comes to the end of every list, or an
  // assertion stops it: each visit makes the list shorter or leaves fewer instructions
  // to visit.  What it makes of the list is what the optimizer on values makes of it,
  // and the word count is exact unless a jump was turned into a pop.
  method OptimizeIseq(iseq: Iseq, noRemoveUnusedExpressions: bool) returns (finished: bool, ghost trace: seq<Action>)
    requires iseq.Valid()
    modifies iseq, iseq.nodes
    ensures finished <==> Optimized(old(Now(iseq)), 0, [], noRemoveUnusedExpressions).Finished?
    ensures finished ==>
      iseq.Valid() && Optimized(old(Now(iseq)), 0, [], noRemoveUnusedExpressions) == Finished(Now(iseq), trace)
    ensures finished ==> Leads(old(Now(iseq)), trace, Now(iseq))
    ensures finished && NoPopJump(trace) ==> iseq.stale == old(iseq.stale)
  {
    hide Showing, Chained, Distinct, Leads, Enabled, Apply, Choose, Optimized;
    var cur := iseq.insns;
    ghost var at: nat := 0;
    ghost var outcome := Optimized(Now(iseq), 0, [], noRemoveUnusedExpressions);
    trace := [];
    NoSteps(Now(iseq));
    Sizes(iseq);
    while cur != null
      invariant iseq.Valid() && at <= |iseq.nodes| == |iseq.view| && cur == NodeAt(iseq.nodes, at)
      invariant Within(iseq.nodes, old(iseq.nodes))
      invariant Leads(old(Now(iseq)), trace, Now(iseq))
      invariant NoPopJump(trace) ==> iseq.stale == old(iseq.stale)
      invariant Optimized(Now(iseq), at, trace, noRemoveUnusedExpressions) == outcome
      decreases |iseq.nodes|, |iseq.nodes| - at
    {
      ghost var was, nodes := Now(iseq), iseq.nodes;
      assert forall i | 0 <= i < |iseq.nodes| :: iseq.nodes[i] in old(iseq.nodes);
      var t;
      ghost var a;
      ghost var at';
      t, cur, a, at' := Visit(iseq, cur, noRemoveUnusedExpressions, at);
      GoesOn(was, at, trace, noRemoveUnusedExpressions, t, a, at');
      if t.Stops? {
        return false, trace;
      }
      if t.Changed? {
        LeadsMore(old(Now(iseq)), trace, was, a);
        NoPopJumpMore(trace, a);
        trace := trace + [a];
      }
      WithinTwice(iseq.nodes, nodes, old(iseq.nodes));
      at := at';
      Sizes(iseq);
    }
    AtEnd(Now(iseq), trace, noRemoveUnusedExpressions);
    finished := true;
  }

  lemma Sizes(iseq: Iseq)
    requires iseq.Valid()
    ensures |iseq.nodes| == |iseq.view|
  {
  }

  lemma AtEnd(s: Listing, trace: seq<Action>, keepUnused: bool)
    ensures Optimized(s, |s.v|, trace, keepUnused) == Finished(s, trace)
  {
  }
}
