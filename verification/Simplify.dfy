// The rewriting steps of the optimizer, as changes of an instruction list and its
// constants, and which of them keep what the program does.
module Simplify {
  import opened Opcodes
  import opened Machine
  import opened Code
  import opened Patch
  import opened Rewrite

  // ---------- what the optimizer looks for ----------

  predicate IsBinOp(i: Insn) {
    ArithOf(i.code).Some?
  }

  predicate IsNumConst(i: Insn) {
    i.code == OP_CONSTANT && i.isNumber
  }

  predicate IsConst(i: Insn) {
    i.code in {OP_CONSTANT, OP_FALSE, OP_TRUE, OP_NIL}
  }

  predicate ConstBool(i: Insn) {
    i.code in {OP_CONSTANT, OP_TRUE}
  }

  predicate IsPopType(i: Insn) {
    i.code in {OP_POP, OP_POP_N}
  }

  // Codes that leave a value which folding may merge with its neighbours.
  predicate IsValueCode(code: nat) {
    code in {OP_CONSTANT, OP_FALSE, OP_TRUE, OP_NIL} || ArithOf(code).Some?
  }

  predicate UsesPool(i: Insn) {
    |i.operands| == 1 && i.code in {OP_CONSTANT, OP_GET_GLOBAL, OP_SET_GLOBAL, OP_DEFINE_GLOBAL}
  }

  // ---------- the state between steps ----------

  // What a jump records is labelled.
  ghost predicate Labelled(v: Insns) {
    forall i | 0 <= i < |v| ::
      && (IsJump(v[i].code) && Recorded(v, i).Some? ==> v[Recorded(v, i).value].isLabel)
      && (IsLoop(v[i].code) && RecordedLoop(v, i).Some? ==> v[RecordedLoop(v, i).value].isLabel)
  }

  // No jump lands behind a value that is still on its way to an operator.
  ghost predicate NoTargetAfterValue(v: Insns, p: seq<Ins>) {
    |p| == |v| &&
    forall i | 0 <= i < |v| && Target(p[i]).Some? ::
      var t := Target(p[i]).value;
      0 < t < |v| ==> !IsValueCode(v[t - 1].code)
  }

  // A number literal has a constant of its own, and what is no literal has no number.
  ghost predicate OwnNumbers(v: Insns, pool: seq<Constant>) {
    && (forall i | 0 <= i < |v| && UsesPool(v[i]) && !v[i].isNumber && v[i].operands[0] < |pool| ::
          pool[v[i].operands[0]].StringConst?)
    && (forall i | 0 <= i < |v| && v[i].isNumber ::
          v[i].code == OP_CONSTANT && |v[i].operands| == 1
          && v[i].operands[0] < |pool| && pool[v[i].operands[0]].NumberConst?)
    && (forall i, j | 0 <= i < |v| && 0 <= j < |v| && i != j && v[i].isNumber && UsesPool(v[j]) ::
          |v[i].operands| == 1 ==> v[i].operands[0] != v[j].operands[0])
  }

  ghost predicate Good(v: Insns, pool: seq<Constant>, p: seq<Ins>) {
    Linkable(v, pool, p) && Labelled(v) && NoTargetAfterValue(v, p) && OwnNumbers(v, pool)
  }

  // ---------- removing an instruction that no jump depends on ----------

  ghost predicate Droppable(v: Insns, p: seq<Ins>, k: nat) {
    && |p| == |v| && k + 1 < |v|
    && forall i | 0 <= i < |v| ::
         !Records(v, k, i) && !LosesLink(v, k, i) && Target(p[i]) != Some(k + 1)
  }

  lemma DroppableSafe(v: Insns, pool: seq<Constant>, p: seq<Ins>, k: nat)
    requires Linkable(v, pool, p) && Droppable(v, p, k)
    ensures SafeToRemove(v, p, k)
  {
    hide Means;
    forall i | 0 <= i < |v| ensures !WrongLanding(v, p, k, i) && !LosesLink(v, k, i) && !EmptiesLoop(v, p, k, i) {
      assert Linked(v, i, p[i]) && !Records(v, k, i) && !LosesLink(v, k, i);
    }
  }

  lemma DropKeepsGood(v: Insns, pool: seq<Constant>, p: seq<Ins>, k: nat)
    requires Good(v, pool, p) && Droppable(v, p, k)
    ensures Removable(v, k) && Good(Removed(v, k), pool, RemoveIns(p, k))
  {
    hide Means, Off, Linked;
    DroppableSafe(v, pool, p, k);
    RemoveKeeps(v, pool, p, k);
    DropKeepsLabels(v, pool, p, k);
    DropKeepsTargets(v, pool, p, k);
    DropKeepsNumbers(v, pool, k);
  }

  // Fields that patching leaves alone.
  lemma RemovedSame(v: Insns, k: nat, j: nat)
    requires k < |v| && Removable(v, k) && j < |v| - 1
    ensures var w, i := Removed(v, k)[j], Up(j, k);
            && w.code == v[i].code && w.isNumber == v[i].isNumber && w.isLabel == v[i].isLabel
            && |w.operands| == |v[i].operands|
            && (!IsJump(v[i].code) && !IsLoop(v[i].code) ==> w.operands == v[i].operands)
  {
    assert PatchForRemoval(v, k, Up(j, k)).Some?;
  }

  lemma DropKeepsNumbers(v: Insns, pool: seq<Constant>, k: nat)
    requires OwnNumbers(v, pool) && k < |v| && Removable(v, k)
    ensures OwnNumbers(Removed(v, k), pool)
  {
    hide Removable, Removed;
    var w := Removed(v, k);
    forall j | 0 <= j < |w|
      ensures w[j].isNumber == v[Up(j, k)].isNumber && w[j].code == v[Up(j, k)].code
      ensures UsesPool(w[j]) == UsesPool(v[Up(j, k)])
      ensures w[j].isNumber || UsesPool(w[j]) ==> w[j].operands == v[Up(j, k)].operands
    {
      RemovedSame(v, k, j);
    }
  }

  lemma DropKeepsTargets(v: Insns, pool: seq<Constant>, p: seq<Ins>, k: nat)
    requires NoTargetAfterValue(v, p) && Droppable(v, p, k) && Removable(v, k)
    ensures NoTargetAfterValue(Removed(v, k), RemoveIns(p, k))
  {
    hide Removable, Removed;
    var w, q := Removed(v, k), RemoveIns(p, k);
    forall j | 0 <= j < |w| && Target(q[j]).Some?
      ensures var t := Target(q[j]).value; 0 < t < |w| ==> !IsValueCode(w[t - 1].code)
    {
      var i := Up(j, k);
      var s, t := Target(p[i]).value, Target(q[j]).value;
      assert t == Down(s, k) && s != k + 1;
      if 0 < t < |w| {
        RemovedSame(v, k, t - 1);
        assert Up(t - 1, k) == s - 1;
      }
    }
  }

  lemma DropKeepsLabels(v: Insns, pool: seq<Constant>, p: seq<Ins>, k: nat)
    requires Linkable(v, pool, p) && Labelled(v) && Droppable(v, p, k) && Removable(v, k)
    ensures Labelled(Removed(v, k))
  {
    hide Removable, Removed, Means, Labelled;
    var w := Removed(v, k);
    forall j | 0 <= j < |w|
      ensures IsJump(w[j].code) && Recorded(w, j).Some? ==> w[Recorded(w, j).value].isLabel
      ensures IsLoop(w[j].code) && RecordedLoop(w, j).Some? ==> w[RecordedLoop(w, j).value].isLabel
    {
      DropKeepsLabel(v, pool, p, k, j);
    }
    assert Labelled(w) by { LabelledIntro(w); }
  }

  lemma LabelledIntro(v: Insns)
    requires forall i | 0 <= i < |v| :: IsJump(v[i].code) && Recorded(v, i).Some? ==> v[Recorded(v, i).value].isLabel
    requires forall i | 0 <= i < |v| :: IsLoop(v[i].code) && RecordedLoop(v, i).Some? ==>
      v[RecordedLoop(v, i).value].isLabel
    ensures Labelled(v)
  {
  }

  lemma DropKeepsLabel(v: Insns, pool: seq<Constant>, p: seq<Ins>, k: nat, j: nat)
    requires Linkable(v, pool, p) && Labelled(v) && Droppable(v, p, k) && Removable(v, k) && j < |v| - 1
    ensures var w := Removed(v, k);
            && (IsJump(w[j].code) && Recorded(w, j).Some? ==> w[Recorded(w, j).value].isLabel)
            && (IsLoop(w[j].code) && RecordedLoop(w, j).Some? ==> w[RecordedLoop(w, j).value].isLabel)
  {
    hide Means;
    var w, i := Removed(v, k), Up(j, k);
    assert PatchForRemoval(v, k, i).Some? && Linked(v, i, p[i]);
    assert !Records(v, k, i) && !LosesLink(v, k, i);
    RemovedSame(v, k, j);
    if IsJump(w[j].code) && Recorded(w, j).Some? {
      var r := Recorded(v, i).value;
      assert Recorded(w, j).value == Down(r, k);
      RemovedSame(v, k, Down(r, k));
    }
    if IsLoop(w[j].code) && RecordedLoop(w, j).Some? {
      var r := RecordedLoop(v, i).value;
      assert RecordedLoop(w, j).value == Down(r, k);
      RemovedSame(v, k, Down(r, k));
    }
  }

  // A value after a value is nothing a jump depends on.
  lemma ValueDroppable(v: Insns, pool: seq<Constant>, p: seq<Ins>, j: nat)
    requires Linkable(v, pool, p) && NoTargetAfterValue(v, p) && j + 2 < |v|
    requires IsValueCode(v[j].code) && IsValueCode(v[j + 1].code)
    ensures Droppable(v, p, j + 1)
  {
    hide Means, IsValueCode;
    var k := j + 1;
    forall i | 0 <= i < |v| ensures !Records(v, k, i) && !LosesLink(v, k, i) && Target(p[i]) != Some(k + 1) {
      assert Linked(v, i, p[i]);
      NoTargetBehind(v, p, i, j);
      NoTargetBehind(v, p, i, k);
    }
  }

  // Nothing jumps to an instruction that follows a value.
  lemma NoTargetBehind(v: Insns, p: seq<Ins>, i: nat, j: nat)
    requires NoTargetAfterValue(v, p) && i < |v| && j + 1 < |v| && IsValueCode(v[j].code)
    ensures Target(p[i]) != Some(j + 1)
  {
    if Target(p[i]).Some? {
      var t := Target(p[i]).value;
      assert 0 < t < |v| ==> !IsValueCode(v[t - 1].code);
    }
  }

  ghost predicate NoTarget(p: seq<Ins>, t: nat) {
    forall i | 0 <= i < |p| :: Target(p[i]) != Some(t)
  }

  ghost predicate NotRecorded(v: Insns, k: nat) {
    forall i | 0 <= i < |v| :: !Records(v, k, i)
  }

  lemma NoTargetAfter(v: Insns, p: seq<Ins>, j: nat)
    requires NoTargetAfterValue(v, p) && j + 1 < |v| && IsValueCode(v[j].code)
    ensures NoTarget(p, j + 1)
  {
    forall i | 0 <= i < |p| ensures Target(p[i]) != Some(j + 1) {
      NoTargetBehind(v, p, i, j);
    }
  }

  lemma AddressedPlain(v: Insns, i: Ins)
    requires Target(i).Some? ==> Target(i).value <= |v|
    ensures Target(Addressed(v, i)).Some? == Target(i).Some?
    ensures Target(i).None? ==> Addressed(v, i) == i
  {
  }

  lemma DownPlain(i: Ins, k: nat)
    requires Target(i).None?
    ensures DownIns(i, k) == i
  {
  }

  // ---------- constant folding ----------

  // What folding an operator with the two number constants before it yields: a new
  // constant, nothing for a zero divisor, or behaviour C does not define.
  datatype Folding = Folds(r: real) | ZeroDivisor | FoldUndefined

  function FoldConstant(op: ArithOp, a: real, b: real): Folding {
    if DividesByZero(op, b) then ZeroDivisor
    else match Calculate(op, a, b)
      case Some(r) => Folds(r)
      case None => FoldUndefined
  }

  // Two number literals at j and j + 1 and an operator behind them.
  predicate FoldsAt(v: Insns, pool: seq<Constant>, j: nat) {
    && j + 2 < |v| && IsBinOp(v[j + 2]) && NumberAt(v, pool, j) && NumberAt(v, pool, j + 1)
  }

  predicate NumberAt(v: Insns, pool: seq<Constant>, i: nat)
    requires i < |v|
  {
    && IsNumConst(v[i]) && |v[i].operands| == 1
    && v[i].operands[0] < |pool| && pool[v[i].operands[0]].NumberConst?
  }

  function NumberOf(v: Insns, pool: seq<Constant>, i: nat): real
    requires i < |v| && NumberAt(v, pool, i)
  {
    pool[v[i].operands[0]].r
  }

  function FoldAt(v: Insns, pool: seq<Constant>, j: nat): Folding
    requires FoldsAt(v, pool, j)
  {
    FoldConstant(ArithOf(v[j + 2].code).value, NumberOf(v, pool, j), NumberOf(v, pool, j + 1))
  }

  function FoldedPool(v: Insns, pool: seq<Constant>, j: nat, r: real): seq<Constant>
    requires FoldsAt(v, pool, j)
  {
    pool[v[j].operands[0] := NumberConst(r)]
  }

  // Folding removes the operator and then the second literal.
  predicate FoldRemovable(v: Insns, j: nat) {
    j + 2 < |v| && Removable(v, j + 2) && Removable(Removed(v, j + 2), j + 1)
  }

  function FoldedList(v: Insns, j: nat): Insns
    requires FoldRemovable(v, j)
  {
    Removed(Removed(v, j + 2), j + 1)
  }

  function FoldedIns(p: seq<Ins>, j: nat, r: real): seq<Ins>
    requires j + 2 < |p|
  {
    RemoveIns(RemoveIns(p[j := Push(Num(r))], j + 2), j + 1)
  }

  // Only the literal whose constant changes means something else.
  lemma FoldMeans(v: Insns, pool: seq<Constant>, p: seq<Ins>, j: nat, r: real)
    requires Good(v, pool, p) && FoldsAt(v, pool, j)
    ensures Good(v, FoldedPool(v, pool, j, r), p[j := Push(Num(r))])
  {
    hide Off, Linked;
    var qool, q := FoldedPool(v, pool, j, r), p[j := Push(Num(r))];
    forall i | 0 <= i < |v| ensures Means(v, qool, i, q[i]) && Linked(v, i, q[i]) {
      assert Means(v, pool, i, p[i]) && Linked(v, i, p[i]);
      if i == j {
        assert !IsJump(v[i].code) && !IsLoop(v[i].code);
        LinkedPlain(v, i, q[i]);
      } else {
        OtherConstant(v, pool, v[j].operands[0], NumberConst(r), i, p[i]);
      }
    }
    FoldNumbers(v, pool, j, r);
    FoldTargets(v, p, j, r);
  }

  lemma FoldNumbers(v: Insns, pool: seq<Constant>, j: nat, r: real)
    requires OwnNumbers(v, pool) && FoldsAt(v, pool, j)
    ensures OwnNumbers(v, FoldedPool(v, pool, j, r))
  {
  }

  lemma FoldTargets(v: Insns, p: seq<Ins>, j: nat, r: real)
    requires NoTargetAfterValue(v, p) && j < |v|
    ensures NoTargetAfterValue(v, p[j := Push(Num(r))])
  {
  }

  lemma LinkedPlain(v: Insns, i: nat, ins: Ins)
    requires i < |v| && !IsJump(v[i].code) && !IsLoop(v[i].code)
    ensures Linked(v, i, ins)
  {
  }

  lemma OtherConstant(v: Insns, pool: seq<Constant>, x: nat, c: Constant, i: nat, ins: Ins)
    requires i < |v| && Means(v, pool, i, ins) && x < |pool|
    requires UsesPool(v[i]) ==> v[i].operands[0] != x
    ensures Means(v, pool[x := c], i, ins)
  {
    hide Off;
  }

  // What the three instructions are.
  lemma NumberMeans(v: Insns, pool: seq<Constant>, p: seq<Ins>, i: nat)
    requires AllMean(v, pool, p) && i < |v| && NumberAt(v, pool, i)
    ensures p[i] == Push(Num(NumberOf(v, pool, i)))
  {
    hide Off;
    assert Means(v, pool, i, p[i]);
    AddressedPlain(v, p[i]);
  }

  lemma OperatorMeans(v: Insns, pool: seq<Constant>, p: seq<Ins>, i: nat)
    requires AllMean(v, pool, p) && i < |v| && IsBinOp(v[i])
    ensures p[i] == Arith(ArithOf(v[i].code).value)
  {
    hide Off;
    assert Means(v, pool, i, p[i]);
    AddressedPlain(v, p[i]);
  }

  lemma FoldEffect(p: seq<Ins>, j: nat, q: seq<Ins>, op: ArithOp, a: real, b: real, r: real,
                   stack: seq<Value>, env: Env)
    requires j + 2 < |p| && p[j] == Push(Num(a)) && p[j + 1] == Push(Num(b)) && p[j + 2] == Arith(op)
    requires j < |q| && q[j] == Push(Num(r)) && FoldConstant(op, a, b) == Folds(r)
    ensures SameEffect(p, j, 3, q, 1, stack, env)
  {
    hide Calculate;
    var s := Running(j, stack, env);
    var t := Running(j + 2, stack + [Num(a)] + [Num(b)], env);
    assert Step(p, Step(p, s)) == t;
    assert t.stack[..|stack|] == stack;
    assert Step(p, t) == Running(j + 3, stack + [Num(r)], env);
    assert Steps(p, s, 3) == Steps(p, Step(p, s), 2) == Steps(p, t, 1) == Steps(p, Step(p, t), 0);
    assert Steps(q, s, 1) == Steps(q, Step(q, s), 0);
  }

  lemma FoldOutside(p: seq<Ins>, j: nat, r: real, i: nat)
    requires j + 2 < |p| && i < |p| && !(j <= i < j + 3)
    requires Target(p[i]) != Some(j + 1) && Target(p[i]) != Some(j + 2)
    ensures |FoldedIns(p, j, r)| == |p| - 2
    ensures FoldedIns(p, j, r)[Move(i, j, 3, 1)] == MoveIns(p[i], j, 3, 1)
  {
    hide DownIns, MoveIns;
    var p1, q := p[j := Push(Num(r))], FoldedIns(p, j, r);
    var q1, m := RemoveIns(p1, j + 2), Move(i, j, 3, 1);
    assert q[m] == DownIns(q1[Up(m, j + 1)], j + 1);
    assert Up(Up(m, j + 1), j + 2) == i;
    DownTwice(p[i], j);
  }

  lemma DownTwice(i: Ins, j: nat)
    requires Target(i) != Some(j + 1) && Target(i) != Some(j + 2)
    ensures DownIns(DownIns(i, j + 2), j + 1) == MoveIns(i, j, 3, 1)
  {
  }

  lemma FoldInside(p: seq<Ins>, j: nat, r: real)
    requires j + 2 < |p|
    ensures |FoldedIns(p, j, r)| == |p| - 2 && FoldedIns(p, j, r)[j] == Push(Num(r))
  {
    hide DownIns;
    var p1, q := p[j := Push(Num(r))], FoldedIns(p, j, r);
    var q1 := RemoveIns(p1, j + 2);
    assert q[j] == DownIns(q1[j], j + 1) == DownIns(DownIns(p1[j], j + 2), j + 1);
    DownPlain(p1[j], j + 2);
    DownPlain(p1[j], j + 1);
  }

  lemma FoldRewrites(v: Insns, pool: seq<Constant>, p: seq<Ins>, j: nat, r: real)
    requires AllMean(v, pool, p) && FoldsAt(v, pool, j) && FoldAt(v, pool, j) == Folds(r)
    requires NoTarget(p, j + 1) && NoTarget(p, j + 2)
    ensures Rewrites(p, j, 3, FoldedIns(p, j, r), 1)
  {
    hide Means, Off, SameEffect, MoveIns, FoldedIns, FoldConstant;
    var q := FoldedIns(p, j, r);
    FoldInside(p, j, r);
    forall i | 0 <= i < |p| && !(j <= i < j + 3) ensures q[Move(i, j, 3, 1)] == MoveIns(p[i], j, 3, 1) {
      FoldOutside(p, j, r, i);
    }
    NumberMeans(v, pool, p, j);
    NumberMeans(v, pool, p, j + 1);
    OperatorMeans(v, pool, p, j + 2);
    forall stack, env ensures SameEffect(p, j, 3, q, 1, stack, env) {
      FoldEffect(p, j, q, ArithOf(v[j + 2].code).value, NumberOf(v, pool, j), NumberOf(v, pool, j + 1), r, stack, env);
    }
  }

  // The list w in which the operator behind two literals has gone.
  lemma FoldFirst(v: Insns, pool: seq<Constant>, p: seq<Ins>, j: nat)
    requires Good(v, pool, p) && j + 3 < |v| && IsBinOp(v[j + 2]) && IsNumConst(v[j + 1]) && IsNumConst(v[j])
    ensures Removable(v, j + 2) && Good(Removed(v, j + 2), pool, RemoveIns(p, j + 2))
    ensures IsNumConst(Removed(v, j + 2)[j + 1]) && IsNumConst(Removed(v, j + 2)[j])
  {
    hide Means, Linked, Removed, Removable, Labelled, OwnNumbers, NoTargetAfterValue, RemoveIns;
    ValueDroppable(v, pool, p, j + 1);
    DropKeepsGood(v, pool, p, j + 2);
    RemovedSame(v, j + 2, j);
    RemovedSame(v, j + 2, j + 1);
  }

  lemma FoldSecond(w: Insns, pool: seq<Constant>, q: seq<Ins>, j: nat)
    requires Good(w, pool, q) && j + 2 < |w| && IsNumConst(w[j + 1]) && IsNumConst(w[j])
    ensures Removable(w, j + 1) && Good(Removed(w, j + 1), pool, RemoveIns(q, j + 1))
  {
    hide Means, Linked, Removed, Removable, Labelled, OwnNumbers, NoTargetAfterValue, RemoveIns;
    ValueDroppable(w, pool, q, j);
    DropKeepsGood(w, pool, q, j + 1);
  }

  // Folding keeps what the program does.
  lemma FoldKeeps(v: Insns, pool: seq<Constant>, p: seq<Ins>, j: nat, r: real)
    requires Good(v, pool, p) && FoldsAt(v, pool, j) && FoldAt(v, pool, j) == Folds(r) && j + 3 < |v|
    ensures FoldRemovable(v, j)
    ensures Good(FoldedList(v, j), FoldedPool(v, pool, j, r), FoldedIns(p, j, r))
    ensures Rewrites(p, j, 3, FoldedIns(p, j, r), 1)
  {
    hide Rewrites, Removed, Removable, RemoveIns, FoldAt;
    NoTargetAfter(v, p, j);
    NoTargetAfter(v, p, j + 1);
    FoldRewrites(v, pool, p, j, r);
    FoldMeans(v, pool, p, j, r);
    var p1, qool := p[j := Push(Num(r))], FoldedPool(v, pool, j, r);
    hide Good;
    FoldFirst(v, qool, p1, j);
    FoldSecond(Removed(v, j + 2), qool, RemoveIns(p1, j + 2), j);
  }

  // ---------- folding anywhere ----------

  // No jump lands on instruction k, or knows its target only as the one behind k.
  ghost predicate Passed(v: Insns, p: seq<Ins>, k: nat) {
    NoTarget(p, k) && forall i | 0 <= i < |v| :: !LosesLink(v, k, i)
  }

  lemma PassedKeeps(v: Insns, pool: seq<Constant>, p: seq<Ins>, k: nat)
    requires Linkable(v, pool, p) && k + 1 < |v| && Passed(v, p, k)
    ensures Removable(v, k) && Linkable(Removed(v, k), pool, RemoveIns(p, k))
  {
    hide Means, Linked, Off, Removed, Removable, RemoveIns;
    assert SafeToRemove(v, p, k);
    RemoveKeeps(v, pool, p, k);
  }

  // What no jump depended on before the instruction behind it was removed, none depends
  // on afterwards.
  lemma PassedStill(v: Insns, p: seq<Ins>, k: nat)
    requires k + 2 < |v| == |p| && Removable(v, k + 1) && Passed(v, p, k) && Passed(v, p, k + 1)
    ensures Passed(Removed(v, k + 1), RemoveIns(p, k + 1), k)
  {
    hide Removed, Removable, RemoveIns;
    var w, q := Removed(v, k + 1), RemoveIns(p, k + 1);
    forall i | 0 <= i < |w| ensures !LosesLink(w, k, i) && Target(q[i]) != Some(k) {
      PassedAt(v, p, k, i);
    }
  }

  lemma PassedAt(v: Insns, p: seq<Ins>, k: nat, i: nat)
    requires k + 2 < |v| == |p| && Removable(v, k + 1) && Passed(v, p, k) && Passed(v, p, k + 1) && i < |v| - 1
    ensures !LosesLink(Removed(v, k + 1), k, i) && Target(RemoveIns(p, k + 1)[i]) != Some(k)
  {
    var u := Up(i, k + 1);
    assert PatchForRemoval(v, k + 1, u).Some? && !LosesLink(v, k, u) && !LosesLink(v, k + 1, u);
    assert Target(p[u]) != Some(k) && Target(p[u]) != Some(k + 1);
  }

  lemma OneConstant(v: Insns, pool: seq<Constant>, p: seq<Ins>, j: nat, r: real)
    requires Linkable(v, pool, p) && FoldsAt(v, pool, j)
    requires forall i | 0 <= i < |v| && i != j && UsesPool(v[i]) :: v[i].operands[0] != v[j].operands[0]
    ensures Linkable(v, FoldedPool(v, pool, j, r), p[j := Push(Num(r))])
  {
    hide Off, Linked;
    var qool, q := FoldedPool(v, pool, j, r), p[j := Push(Num(r))];
    forall i | 0 <= i < |v| ensures Means(v, qool, i, q[i]) && Linked(v, i, q[i]) {
      assert Means(v, pool, i, p[i]) && Linked(v, i, p[i]);
      if i == j {
        LinkedPlain(v, i, q[i]);
      } else {
        OtherConstant(v, pool, v[j].operands[0], NumberConst(r), i, p[i]);
      }
    }
  }

  // Folding keeps what any list of instructions does, whatever jumps and loops it has,
  // provided the first literal has a constant of its own and no jump depends on the
  // second or on the operator.
  lemma FoldKeepsHere(v: Insns, pool: seq<Constant>, p: seq<Ins>, j: nat, r: real)
    requires Linkable(v, pool, p) && FoldsAt(v, pool, j) && FoldAt(v, pool, j) == Folds(r) && j + 3 < |v|
    requires forall i | 0 <= i < |v| && i != j && UsesPool(v[i]) :: v[i].operands[0] != v[j].operands[0]
    requires Passed(v, p, j + 1) && Passed(v, p, j + 2)
    ensures FoldRemovable(v, j)
    ensures Linkable(FoldedList(v, j), FoldedPool(v, pool, j, r), FoldedIns(p, j, r))
    ensures Rewrites(p, j, 3, FoldedIns(p, j, r), 1)
  {
    hide Rewrites, Removed, Removable, RemoveIns, FoldAt, LosesLink, Linked, Means, Off, FoldedPool;
    FoldRewrites(v, pool, p, j, r);
    OneConstant(v, pool, p, j, r);
    var p1, qool := p[j := Push(Num(r))], FoldedPool(v, pool, j, r);
    PassedKeeps(v, qool, p1, j + 2);
    PassedStill(v, p1, j + 1);
    PassedKeeps(Removed(v, j + 2), qool, RemoveIns(p1, j + 2), j + 1);
  }

  // ---------- fusing pops ----------

  // Two pops at j and j + 1, neither of them labelled.
  predicate FusesAt(v: Insns, j: nat) {
    && j + 1 < |v| && IsPopType(v[j]) && IsPopType(v[j + 1])
    && !v[j].isLabel && !v[j + 1].isLabel
  }

  // How many values a pop instruction pops.
  function PopCount(i: Insn): nat {
    if i.code == OP_POP || |i.operands| == 0 then 1 else i.operands[0]
  }

  predicate Fusible(v: Insns, j: nat) {
    && j + 1 < |v| && Removable(v, j)
    && (v[j + 1].code == OP_POP ==> Growable(Removed(v, j), j))
    && (v[j + 1].code != OP_POP ==> |v[j + 1].operands| == 1)
  }

  // The first pop is removed; the second one becomes, or stays, an OP_POP_N.
  function FusedList(v: Insns, j: nat): Insns
    requires Fusible(v, j)
  {
    var n := PopCount(v[j]);
    var w := Removed(v, j);
    if v[j + 1].code == OP_POP then
      var x := Grown(w, j, n + 1);
      x[j := x[j].(code := OP_POP_N)]
    else
      w[j := w[j].(operands := [v[j + 1].operands[0] + n])]
  }

  function FusedIns(p: seq<Ins>, j: nat, n: nat): seq<Ins>
    requires j + 1 < |p|
  {
    RemoveIns(p, j)[j := Pop(n)]
  }

  // Nothing jumps to an instruction when neither it nor the one before is labelled.
  lemma NoTargetUnlabelled(v: Insns, pool: seq<Constant>, p: seq<Ins>, j: nat, i: nat)
    requires Linkable(v, pool, p) && Labelled(v) && j + 1 < |v| && i < |v|
    requires !v[j].isLabel && !v[j + 1].isLabel
    ensures Target(p[i]) != Some(j + 1) && !Records(v, j + 1, i) && !Records(v, j, i) && !LosesLink(v, j, i)
  {
    assert Means(v, pool, i, p[i]) && Linked(v, i, p[i]);
    if Target(p[i]).Some? {
      MeansTarget(v, pool, i, p[i]);
    }
  }

  lemma PopMeans(v: Insns, pool: seq<Constant>, i: nat, ins: Ins)
    requires i < |v| && Means(v, pool, i, ins) && IsPopType(v[i])
    ensures ins == Pop(PopCount(v[i])) && (v[i].code != OP_POP ==> |v[i].operands| == 1)
    ensures v[i].code == OP_POP ==> |v[i].operands| == 0
  {
    hide Off;
    AddressedPlain(v, ins);
  }

  // Exchanging one instruction for another of the same size that is no jump.
  lemma ExchangeGood(v: Insns, pool: seq<Constant>, p: seq<Ins>, k: nat, y: Insn, n: nat)
    requires k < |v| && |p| == |v| && Off(v, |v|) < WORD_LIMIT
    requires forall i | 0 <= i < |v| && i != k :: Means(v, pool, i, p[i]) && Linked(v, i, p[i])
    requires IsPopType(v[k]) && y.code == OP_POP_N && y.operands == [n] && Size(v[k]) == 2
    requires y.isLabel == v[k].isLabel && !y.isNumber && !v[k].isNumber
    requires Labelled(v) && NoTargetAfterValue(v, p) && OwnNumbers(v, pool) && Target(p[k]).None?
    ensures Good(v[k := y], pool, p[k := Pop(n)])
  {
    hide Means, Linked, Labelled, NoTargetAfterValue, OwnNumbers, Off, Decode;
    var w, q := v[k := y], p[k := Pop(n)];
    forall i | 0 <= i < |w| ensures Means(w, pool, i, q[i]) && Linked(w, i, q[i]) {
      if i == k {
        PopNMeans(w, pool, k, n);
      } else {
        ExchangeMeans(v, pool, i, p[i], k, y);
      }
    }
    OffSame(v, w, |v|);
    ExchangeLabels(v, k, y);
    ExchangeTargets(v, p, k, y, n);
    ExchangeNumbers(v, pool, k, y);
  }

  lemma ExchangeLabels(v: Insns, k: nat, y: Insn)
    requires k < |v| && Labelled(v) && IsPopType(v[k]) && IsPopType(y) && y.isLabel == v[k].isLabel
    ensures Labelled(v[k := y])
  {
    var w := v[k := y];
    forall i | 0 <= i < |w|
      ensures IsJump(w[i].code) && Recorded(w, i).Some? ==> w[Recorded(w, i).value].isLabel
      ensures IsLoop(w[i].code) && RecordedLoop(w, i).Some? ==> w[RecordedLoop(w, i).value].isLabel
    {
      if i != k {
        assert Recorded(w, i) == Recorded(v, i) && RecordedLoop(w, i) == RecordedLoop(v, i);
      }
    }
  }

  lemma ExchangeTargets(v: Insns, p: seq<Ins>, k: nat, y: Insn, n: nat)
    requires k < |v| && NoTargetAfterValue(v, p) && IsPopType(y) && Target(p[k]).None?
    ensures NoTargetAfterValue(v[k := y], p[k := Pop(n)])
  {
  }

  lemma ExchangeNumbers(v: Insns, pool: seq<Constant>, k: nat, y: Insn)
    requires k < |v| && OwnNumbers(v, pool) && IsPopType(y) && !y.isNumber
    ensures OwnNumbers(v[k := y], pool)
  {
  }

  lemma PopNMeans(v: Insns, pool: seq<Constant>, k: nat, n: nat)
    requires k < |v| && v[k].code == OP_POP_N && v[k].operands == [n]
    ensures Means(v, pool, k, Pop(n)) && Linked(v, k, Pop(n))
  {
    hide Off;
  }

  lemma ExchangeMeans(v: Insns, pool: seq<Constant>, i: nat, ins: Ins, k: nat, y: Insn)
    requires i < |v| && k < |v| && i != k && Means(v, pool, i, ins) && Linked(v, i, ins) && Size(y) == Size(v[k])
    ensures Means(v[k := y], pool, i, ins) && Linked(v[k := y], i, ins)
  {
    hide Decode;
    var w := v[k := y];
    OffSame(v, w, i);
    if Target(ins).Some? {
      OffSame(v, w, Target(ins).value);
    }
  }

  lemma GrownSame(v: Insns, k: nat, operand: nat, i: nat)
    requires k < |v| && Growable(v, k) && i < |v|
    ensures var w := Grown(v, k, operand)[i];
            && w.code == v[i].code && w.isNumber == v[i].isNumber && w.isLabel == v[i].isLabel
            && (i != k ==> |w.operands| == |v[i].operands|)
            && (i != k && !IsJump(v[i].code) && !IsLoop(v[i].code) ==> w.operands == v[i].operands)
  {
    if i != k {
      assert PatchForGrowth(v, k, i).Some?;
    }
  }

  // Growth of an instruction that no jump records leaves the links alone.
  lemma GrownLinks(v: Insns, pool: seq<Constant>, p: seq<Ins>, k: nat, operand: nat, i: nat)
    requires k < |v| && Growable(v, k) && i < |v| && !Records(v, k, i)
    ensures Grown(v, k, operand)[i].jumpTo == v[i].jumpTo
    ensures Grown(v, k, operand)[i].jumpToPrev == v[i].jumpToPrev
  {
    if i != k {
      assert PatchForGrowth(v, k, i).Some?;
    }
  }

  lemma GrownLabels(v: Insns, pool: seq<Constant>, p: seq<Ins>, k: nat, operand: nat)
    requires Labelled(v) && k < |v| && Growable(v, k) && forall i | 0 <= i < |v| :: !Records(v, k, i)
    ensures Labelled(Grown(v, k, operand))
  {
    hide Growable, Grown, Labelled;
    var w := Grown(v, k, operand);
    forall i | 0 <= i < |w|
      ensures IsJump(w[i].code) && Recorded(w, i).Some? ==> w[Recorded(w, i).value].isLabel
      ensures IsLoop(w[i].code) && RecordedLoop(w, i).Some? ==> w[RecordedLoop(w, i).value].isLabel
    {
      GrownLabel(v, pool, p, k, operand, i);
    }
    LabelledIntro(w);
  }

  lemma GrownLabel(v: Insns, pool: seq<Constant>, p: seq<Ins>, k: nat, operand: nat, i: nat)
    requires Labelled(v) && k < |v| && Growable(v, k) && i < |v| && !Records(v, k, i)
    ensures var w := Grown(v, k, operand);
            && (IsJump(w[i].code) && Recorded(w, i).Some? ==> w[Recorded(w, i).value].isLabel)
            && (IsLoop(w[i].code) && RecordedLoop(w, i).Some? ==> w[RecordedLoop(w, i).value].isLabel)
  {
    hide Growable, Grown;
    var w := Grown(v, k, operand);
    GrownSame(v, k, operand, i);
    GrownLinks(v, pool, p, k, operand, i);
    assert Recorded(w, i) == Recorded(v, i) && RecordedLoop(w, i) == RecordedLoop(v, i);
    if Recorded(v, i).Some? {
      GrownSame(v, k, operand, Recorded(v, i).value);
    }
    if RecordedLoop(v, i).Some? {
      GrownSame(v, k, operand, RecordedLoop(v, i).value);
    }
  }

  lemma GrownNumbers(v: Insns, pool: seq<Constant>, k: nat, operand: nat)
    requires OwnNumbers(v, pool) && k < |v| && Growable(v, k) && IsPopType(v[k])
    ensures OwnNumbers(Grown(v, k, operand), pool)
  {
    hide Growable, Grown;
    var w := Grown(v, k, operand);
    forall i | 0 <= i < |w|
      ensures w[i].isNumber == v[i].isNumber && w[i].code == v[i].code && UsesPool(w[i]) == UsesPool(v[i])
      ensures w[i].isNumber || UsesPool(w[i]) ==> w[i].operands == v[i].operands
    {
      GrownSame(v, k, operand, i);
    }
  }

  lemma GrownTargets(v: Insns, p: seq<Ins>, k: nat, operand: nat)
    requires NoTargetAfterValue(v, p) && k < |v| && Growable(v, k)
    ensures NoTargetAfterValue(Grown(v, k, operand), p)
  {
    hide Growable, Grown;
    var w := Grown(v, k, operand);
    forall i | 0 <= i < |w| ensures w[i].code == v[i].code {
      GrownSame(v, k, operand, i);
    }
  }

  // Making an OP_POP an OP_POP_N.
  lemma PopGrows(v: Insns, pool: seq<Constant>, p: seq<Ins>, k: nat, n: nat)
    requires Good(v, pool, p) && Off(v, |v|) + 1 < WORD_LIMIT && k < |v|
    requires v[k].code == OP_POP && !v[k].isLabel
    ensures Growable(v, k)
    ensures var x := Grown(v, k, n); Good(x[k := x[k].(code := OP_POP_N)], pool, p[k := Pop(n)])
  {
    hide Means, Linked, Off, Grown;
    assert Means(v, pool, k, p[k]);
    PopMeans(v, pool, k, p[k]);
    forall i | 0 <= i < |v| ensures !Records(v, k, i) {
      assert !v[k].isLabel;
    }
    GrowKeeps(v, pool, p, k, n);
    var x := Grown(v, k, n);
    GrownLabels(v, pool, p, k, n);
    GrownNumbers(v, pool, k, n);
    GrownTargets(v, p, k, n);
    GrownSame(v, k, n, k);
    GrownOff(v, k, n, |v|);
    assert x[k].operands == [n];
    ExchangeGood(x, pool, p, k, x[k].(code := OP_POP_N), n);
  }

  lemma FuseEffect(p: seq<Ins>, j: nat, q: seq<Ins>, m: nat, n: nat, stack: seq<Value>, env: Env)
    requires j + 1 < |p| && p[j] == Pop(m) && p[j + 1] == Pop(n) && j < |q| && q[j] == Pop(m + n)
    ensures SameEffect(p, j, 2, q, 1, stack, env)
  {
    var s := Running(j, stack, env);
    assert Steps(p, s, 2) == Steps(p, Step(p, s), 1) == Steps(p, Step(p, Step(p, s)), 0);
    assert Steps(q, s, 1) == Steps(q, Step(q, s), 0);
    if m <= |stack| {
      var t := stack[..|stack| - m];
      if n <= |t| {
        assert t[..|t| - n] == stack[..|stack| - (m + n)];
      }
    }
  }

  lemma DownOnce(i: Ins, j: nat)
    requires Target(i) != Some(j + 1)
    ensures DownIns(i, j) == MoveIns(i, j, 2, 1)
  {
  }

  lemma FuseRewrites(p: seq<Ins>, j: nat, m: nat, n: nat)
    requires j + 1 < |p| && p[j] == Pop(m) && p[j + 1] == Pop(n) && NoTarget(p, j + 1)
    ensures Rewrites(p, j, 2, FusedIns(p, j, m + n), 1)
  {
    hide DownIns, MoveIns, SameEffect;
    var q := FusedIns(p, j, m + n);
    forall i | 0 <= i < |p| && !(j <= i < j + 2) ensures q[Move(i, j, 2, 1)] == MoveIns(p[i], j, 2, 1) {
      DownOnce(p[i], j);
      assert Up(Move(i, j, 2, 1), j) == i;
    }
    forall stack, env ensures SameEffect(p, j, 2, q, 1, stack, env) {
      FuseEffect(p, j, q, m, n, stack, env);
    }
  }

  lemma FuseDrops(v: Insns, pool: seq<Constant>, p: seq<Ins>, j: nat)
    requires Good(v, pool, p) && FusesAt(v, j)
    ensures Removable(v, j) && Good(Removed(v, j), pool, RemoveIns(p, j)) && NoTarget(p, j + 1)
  {
    hide Means, Linked, Removed, Removable, Labelled, NoTargetAfterValue, OwnNumbers, RemoveIns;
    forall i | 0 <= i < |v| ensures !Records(v, j, i) && !LosesLink(v, j, i) && Target(p[i]) != Some(j + 1) {
      NoTargetUnlabelled(v, pool, p, j, i);
    }
    assert Droppable(v, p, j);
    DropKeepsGood(v, pool, p, j);
  }

  // Adding to the count of an OP_POP_N.
  lemma PopAdds(v: Insns, pool: seq<Constant>, p: seq<Ins>, k: nat, n: nat)
    requires Good(v, pool, p) && k < |v| && v[k].code == OP_POP_N
    ensures Good(v[k := v[k].(operands := [n])], pool, p[k := Pop(n)])
  {
    hide Linked, Off, Labelled, NoTargetAfterValue;
    assert Means(v, pool, k, p[k]);
    PopMeans(v, pool, k, p[k]);
    hide Means;
    ExchangeGood(v, pool, p, k, v[k].(operands := [n]), n);
  }

  lemma FusePop(v: Insns, pool: seq<Constant>, p: seq<Ins>, j: nat)
    requires FusesAt(v, j) && v[j + 1].code == OP_POP && |p| == |v|
    requires Removable(v, j) && Good(Removed(v, j), pool, RemoveIns(p, j))
    requires Off(Removed(v, j), |v| - 1) + 1 < WORD_LIMIT
    ensures Fusible(v, j) && Good(FusedList(v, j), pool, FusedIns(p, j, PopCount(v[j]) + 1))
  {
    hide Good, Removed, Removable, RemoveIns, Grown, Growable, Off;
    RemovedSame(v, j, j);
    PopGrows(Removed(v, j), pool, RemoveIns(p, j), j, PopCount(v[j]) + 1);
  }

  lemma FusePopN(v: Insns, pool: seq<Constant>, p: seq<Ins>, j: nat)
    requires FusesAt(v, j) && v[j + 1].code == OP_POP_N && |p| == |v| && |v[j + 1].operands| == 1
    requires Removable(v, j) && Good(Removed(v, j), pool, RemoveIns(p, j))
    ensures Fusible(v, j) && Good(FusedList(v, j), pool, FusedIns(p, j, PopCount(v[j + 1]) + PopCount(v[j])))
  {
    hide Good, Removed, Removable, RemoveIns, Grown, Growable, Off;
    RemovedSame(v, j, j);
    PopAdds(Removed(v, j), pool, RemoveIns(p, j), j, PopCount(v[j + 1]) + PopCount(v[j]));
  }

  // Fusing two pops keeps what the program does.
  lemma FuseKeeps(v: Insns, pool: seq<Constant>, p: seq<Ins>, j: nat)
    requires Good(v, pool, p) && FusesAt(v, j)
    ensures Fusible(v, j)
    ensures Good(FusedList(v, j), pool, FusedIns(p, j, PopCount(v[j]) + PopCount(v[j + 1])))
    ensures Rewrites(p, j, 2, FusedIns(p, j, PopCount(v[j]) + PopCount(v[j + 1])), 1)
  {
    hide Good, Removed, Removable, Rewrites, RemoveIns, FusedList, FusedIns, Fusible, Off, NoTarget;
    GoodLinkable(v, pool, p);
    FusePops(v, pool, p, j);
    FuseDrops(v, pool, p, j);
    RemovedShorter(v, pool, p, j);
    FuseRewrites(p, j, PopCount(v[j]), PopCount(v[j + 1]));
    if v[j + 1].code == OP_POP {
      FusePop(v, pool, p, j);
    } else {
      FusePopN(v, pool, p, j);
    }
  }

  // ---------- fusing anywhere ----------

  // The pop at k takes n values off afterwards, and is a word longer unless it was an
  // OP_POP_N before.
  lemma PopGrowsHere(v: Insns, pool: seq<Constant>, p: seq<Ins>, k: nat, n: nat)
    requires Linkable(v, pool, p) && Off(v, |v|) + 1 < WORD_LIMIT && k < |v| && v[k].code == OP_POP && NoTarget(p, k)
    ensures Growable(v, k)
    ensures var x := Grown(v, k, n); AllMean(x[k := x[k].(code := OP_POP_N)], pool, p[k := Pop(n)])
  {
    hide Means, Linked, Off, Grown, PatchForGrowth;
    assert Means(v, pool, k, p[k]);
    PopMeans(v, pool, k, p[k]);
    forall i | 0 <= i < |v| && i != k ensures PatchForGrowth(v, k, i).Some? {
      GrowthIffSpans(v, pool, p, k, i);
    }
    var x := Grown(v, k, n);
    GrownSame(v, k, n, k);
    var y, q := x[k].(code := OP_POP_N), p[k := Pop(n)];
    forall i | 0 <= i < |v| ensures Means(x[k := y], pool, i, q[i]) {
      if i == k {
        PopNMeans(x[k := y], pool, k, n);
      } else {
        GrownMeans(v, pool, p, k, n, i);
        ExchangeMeansHere(x, pool, i, p[i], k, y);
      }
    }
  }

  lemma ExchangeMeansHere(v: Insns, pool: seq<Constant>, i: nat, ins: Ins, k: nat, y: Insn)
    requires i < |v| && k < |v| && i != k && Means(v, pool, i, ins) && Size(y) == Size(v[k])
    ensures Means(v[k := y], pool, i, ins)
  {
    hide Decode;
    var w := v[k := y];
    OffSame(v, w, i);
    if Target(ins).Some? {
      OffSame(v, w, Target(ins).value);
    }
  }

  lemma PopAddsHere(v: Insns, pool: seq<Constant>, p: seq<Ins>, k: nat, n: nat)
    requires AllMean(v, pool, p) && k < |v| && v[k].code == OP_POP_N
    ensures AllMean(v[k := v[k].(operands := [n])], pool, p[k := Pop(n)])
  {
    hide Means, Off;
    assert Means(v, pool, k, p[k]);
    PopMeans(v, pool, k, p[k]);
    var y, q := v[k].(operands := [n]), p[k := Pop(n)];
    forall i | 0 <= i < |v| ensures Means(v[k := y], pool, i, q[i]) {
      if i == k {
        PopNMeans(v[k := y], pool, k, n);
      } else {
        ExchangeMeansHere(v, pool, i, p[i], k, y);
      }
    }
  }

  // Fusing keeps what any list of instructions does, provided no jump lands on either pop.
  lemma FuseKeepsHere(v: Insns, pool: seq<Constant>, p: seq<Ins>, j: nat)
    requires Linkable(v, pool, p) && FusesAt(v, j) && Passed(v, p, j) && NoTarget(p, j + 1)
    ensures Fusible(v, j)
    ensures AllMean(FusedList(v, j), pool, FusedIns(p, j, PopCount(v[j]) + PopCount(v[j + 1])))
    ensures Rewrites(p, j, 2, FusedIns(p, j, PopCount(v[j]) + PopCount(v[j + 1])), 1)
  {
    hide Removed, Removable, Rewrites, RemoveIns, Off, Linked, Means, LosesLink, Grown, Growable;
    var m, n := PopCount(v[j]), PopCount(v[j + 1]);
    FusePops(v, pool, p, j);
    FuseRewrites(p, j, m, n);
    PassedKeeps(v, pool, p, j);
    RemovedSame(v, j, j);
    RemovedShorter(v, pool, p, j);
    FuseNoTarget(p, j);
    if v[j + 1].code == OP_POP {
      PopGrowsHere(Removed(v, j), pool, RemoveIns(p, j), j, m + 1);
    } else {
      PopAddsHere(Removed(v, j), pool, RemoveIns(p, j), j, n + m);
    }
  }

  lemma FuseNoTarget(p: seq<Ins>, j: nat)
    requires j + 1 < |p| && NoTarget(p, j) && NoTarget(p, j + 1)
    ensures NoTarget(RemoveIns(p, j), j)
  {
    var q := RemoveIns(p, j);
    forall i | 0 <= i < |q| ensures Target(q[i]) != Some(j) {
      assert Target(p[Up(i, j)]) != Some(j) && Target(p[Up(i, j)]) != Some(j + 1);
    }
  }

  lemma RemovedShorter(v: Insns, pool: seq<Constant>, p: seq<Ins>, j: nat)
    requires Linkable(v, pool, p) && j < |v| && Removable(v, j)
    ensures Off(Removed(v, j), |v| - 1) + 1 < WORD_LIMIT
  {
    hide Means, Linked, Removed, Removable;
    RemovedOff(v, j, |v| - 1);
  }

  lemma FusePops(v: Insns, pool: seq<Constant>, p: seq<Ins>, j: nat)
    requires AllMean(v, pool, p) && FusesAt(v, j)
    ensures p[j] == Pop(PopCount(v[j])) && p[j + 1] == Pop(PopCount(v[j + 1]))
    ensures v[j + 1].code != OP_POP ==> |v[j + 1].operands| == 1
  {
    hide Means;
    assert Means(v, pool, j, p[j]) && Means(v, pool, j + 1, p[j + 1]);
    PopMeans(v, pool, j, p[j]);
    PopMeans(v, pool, j + 1, p[j + 1]);
  }

  // ---------- jumps behind constants ----------

  // A conditional jump at j + 1 over a true constant is turned into an OP_POP, one
  // word shorter, and nothing is patched.
  predicate PopsJumpAt(v: Insns, j: nat) {
    && j + 1 < |v| && v[j + 1].code == OP_JUMP_IF_FALSE && !v[j + 1].isLabel
    && IsConst(v[j]) && ConstBool(v[j])
  }

  function JumpPopped(v: Insns, k: nat): Insns
    requires k < |v|
  {
    v[k := v[k].(code := OP_POP, operands := [])]
  }

  ghost predicate Unspanned(v: Insns, p: seq<Ins>, k: nat)
    requires |p| == |v|
  {
    forall i | 0 <= i < |v| && i != k :: !Spans(v, p, k, i)
  }

  lemma {:induction false} JumpPoppedOff(v: Insns, k: nat, j: nat)
    requires k < |v| && |v[k].operands| == 1 && j <= |v|
    ensures Off(JumpPopped(v, k), j) == Off(v, j) - (if j > k then 1 else 0)
  {
    if j > 0 {
      JumpPoppedOff(v, k, j - 1);
    }
  }

  // Another instruction keeps its meaning exactly if it does not span the jump.
  lemma JumpPoppedMeans(v: Insns, pool: seq<Constant>, p: seq<Ins>, k: nat, i: nat)
    requires AllMean(v, pool, p) && k < |v| && i < |v| && i != k && |v[k].operands| == 1
    ensures Means(JumpPopped(v, k), pool, i, p[i]) <==> !Spans(v, p, k, i)
  {
    hide Means, Off, Decode;
    var w := JumpPopped(v, k);
    assert Means(v, pool, i, p[i]);
    if Target(p[i]).None? {
      MeansPlain(v, pool, i, p[i], w, pool, i);
    } else {
      var t := Target(p[i]).value;
      MeansTarget(v, pool, i, p[i]);
      JumpPoppedOff(v, k, i);
      JumpPoppedOff(v, k, t);
      if Spans(v, p, k, i) {
        if Means(w, pool, i, p[i]) {
          MeansTarget(w, pool, i, p[i]);
          assert false;
        }
      } else if IsJump(v[i].code) {
        JumpMeans(w, pool, i, t);
      } else {
        LoopMeans(w, pool, i, t);
      }
    }
  }

  lemma OnePopMeans(v: Insns, pool: seq<Constant>, k: nat)
    requires k < |v| && v[k].code == OP_POP && v[k].operands == []
    ensures Means(v, pool, k, Pop(1)) && Linked(v, k, Pop(1))
  {
    hide Off;
  }

  // The replacement is right exactly if no other jump spans the one replaced.
  lemma JumpPoppedIff(v: Insns, pool: seq<Constant>, p: seq<Ins>, k: nat)
    requires AllMean(v, pool, p) && k < |v| && v[k].code == OP_JUMP_IF_FALSE
    ensures AllMean(JumpPopped(v, k), pool, p[k := Pop(1)]) <==> Unspanned(v, p, k)
  {
    hide Means;
    var w, q := JumpPopped(v, k), p[k := Pop(1)];
    assert Means(v, pool, k, p[k]);
    JumpShape(v, pool, k, p[k]);
    OnePopMeans(w, pool, k);
    forall i | 0 <= i < |v| && i != k ensures Means(w, pool, i, q[i]) <==> !Spans(v, p, k, i) {
      JumpPoppedMeans(v, pool, p, k, i);
    }
  }

  lemma JumpShape(v: Insns, pool: seq<Constant>, k: nat, ins: Ins)
    requires k < |v| && Means(v, pool, k, ins) && IsJump(v[k].code)
    ensures |v[k].operands| == 1 && Target(ins).Some? && ins == JumpIns(v[k].code, Target(ins).value)
  {
    if Target(ins).None? {
      MeansNoJump(v, pool, k, ins);
    } else {
      MeansTarget(v, pool, k, ins);
    }
  }

  lemma ConstMeans(v: Insns, pool: seq<Constant>, i: nat, ins: Ins)
    requires i < |v| && Means(v, pool, i, ins) && IsConst(v[i])
    ensures ins.Push? && Truthy(ins.v) == ConstBool(v[i])
  {
    hide Off;
    AddressedPlain(v, ins);
  }

  lemma JumpPoppedEffect(p: seq<Ins>, j: nat, q: seq<Ins>, c: Value, t: nat, stack: seq<Value>, env: Env)
    requires j + 1 < |p| && p[j] == Push(c) && p[j + 1] == JumpIfFalse(t) && Truthy(c)
    requires q == p[j + 1 := Pop(1)]
    ensures SameEffect(p, j, 2, q, 2, stack, env)
  {
    var s := Running(j, stack, env);
    assert Steps(p, s, 2) == Steps(p, Step(p, s), 1) == Steps(p, Step(p, Step(p, s)), 0);
    assert Steps(q, s, 2) == Steps(q, Step(q, s), 1) == Steps(q, Step(q, Step(q, s)), 0);
  }

  lemma MoveSame(i: Ins, j: nat)
    ensures MoveIns(i, j, 2, 2) == i
  {
  }

  lemma JumpPoppedRewrites(v: Insns, pool: seq<Constant>, p: seq<Ins>, j: nat)
    requires Good(v, pool, p) && PopsJumpAt(v, j)
    ensures Rewrites(p, j, 2, p[j + 1 := Pop(1)], 2)
  {
    hide Means, SameEffect, Off, MoveIns, OwnNumbers, Labelled, Linked;
    var k := j + 1;
    var q := p[k := Pop(1)];
    assert Means(v, pool, j, p[j]) && Means(v, pool, k, p[k]);
    ConstMeans(v, pool, j, p[j]);
    JumpShape(v, pool, k, p[k]);
    NoTargetAfter(v, p, j);
    forall i | 0 <= i < |p| ensures MoveIns(p[i], j, 2, 2) == p[i] {
      MoveSame(p[i], j);
    }
    forall stack, env ensures SameEffect(p, j, 2, q, 2, stack, env) {
      JumpPoppedEffect(p, j, q, p[j].v, Target(p[k]).value, stack, env);
    }
  }

  lemma JumpPoppedLabels(v: Insns, k: nat)
    requires k < |v| && Labelled(v)
    ensures Labelled(JumpPopped(v, k))
  {
    var w := JumpPopped(v, k);
    forall i | 0 <= i < |w|
      ensures IsJump(w[i].code) && Recorded(w, i).Some? ==> w[Recorded(w, i).value].isLabel
      ensures IsLoop(w[i].code) && RecordedLoop(w, i).Some? ==> w[RecordedLoop(w, i).value].isLabel
    {
      if i != k {
        assert Recorded(w, i) == Recorded(v, i) && RecordedLoop(w, i) == RecordedLoop(v, i);
      }
    }
  }

  lemma JumpPoppedLinked(v: Insns, p: seq<Ins>, k: nat, i: nat)
    requires |p| == |v| && k < |v| && i < |v| && i != k && Linked(v, i, p[i])
    ensures Linked(JumpPopped(v, k), i, p[i])
  {
    var w := JumpPopped(v, k);
    assert Recorded(w, i) == Recorded(v, i) && RecordedLoop(w, i) == RecordedLoop(v, i);
  }

  lemma JumpPoppedRest(v: Insns, pool: seq<Constant>, p: seq<Ins>, k: nat)
    requires k < |v| && v[k].code == OP_JUMP_IF_FALSE && NoTargetAfterValue(v, p) && OwnNumbers(v, pool)
    ensures NoTargetAfterValue(JumpPopped(v, k), p[k := Pop(1)]) && OwnNumbers(JumpPopped(v, k), pool)
  {
  }

  // Turning a jump into an OP_POP keeps what the program does if no jump spans it.
  lemma JumpPoppedKeeps(v: Insns, pool: seq<Constant>, p: seq<Ins>, j: nat)
    requires Good(v, pool, p) && PopsJumpAt(v, j) && Unspanned(v, p, j + 1)
    ensures Good(JumpPopped(v, j + 1), pool, p[j + 1 := Pop(1)])
    ensures Rewrites(p, j, 2, p[j + 1 := Pop(1)], 2)
  {
    hide Means, Linked, Off, Rewrites, Labelled;
    var k := j + 1;
    JumpPoppedRewrites(v, pool, p, j);
    JumpPoppedIff(v, pool, p, k);
    JumpPoppedLabels(v, k);
    assert Means(v, pool, k, p[k]);
    JumpShape(v, pool, k, p[k]);
    var w, q := JumpPopped(v, k), p[k := Pop(1)];
    JumpPoppedOff(v, k, |v|);
    forall i | 0 <= i < |w| ensures Linked(w, i, q[i]) {
      if i == k {
        OnePopMeans(w, pool, k);
      } else {
        JumpPoppedLinked(v, p, k, i);
      }
    }
    JumpPoppedRest(v, pool, p, k);
  }

  // A jump at j + 1 over a false constant that is taken only on a true one is removed.
  predicate DropsJumpAt(v: Insns, j: nat) {
    && j + 1 < |v| && v[j + 1].code == OP_JUMP_IF_TRUE_PEEK && !v[j + 1].isLabel
    && IsConst(v[j]) && !ConstBool(v[j])
  }

  lemma DropJumpEffect(p: seq<Ins>, j: nat, q: seq<Ins>, c: Value, t: nat, stack: seq<Value>, env: Env)
    requires j + 1 < |p| && p[j] == Push(c) && p[j + 1] == JumpIfTruePeek(t) && !Truthy(c)
    requires j < |q| && q[j] == Push(c)
    ensures SameEffect(p, j, 2, q, 1, stack, env)
  {
    var s := Running(j, stack, env);
    assert Steps(p, s, 2) == Steps(p, Step(p, s), 1) == Steps(p, Step(p, Step(p, s)), 0);
    assert Steps(q, s, 1) == Steps(q, Step(q, s), 0);
  }

  lemma DownSecond(i: Ins, j: nat)
    requires Target(i) != Some(j + 1)
    ensures DownIns(i, j + 1) == MoveIns(i, j, 2, 1)
  {
  }

  lemma DropJumpRewrites(v: Insns, pool: seq<Constant>, p: seq<Ins>, j: nat)
    requires Good(v, pool, p) && DropsJumpAt(v, j)
    ensures Rewrites(p, j, 2, RemoveIns(p, j + 1), 1)
  {
    hide Means, SameEffect, Off, MoveIns, DownIns, OwnNumbers, Labelled, Linked;
    var k := j + 1;
    var q := RemoveIns(p, k);
    assert Means(v, pool, j, p[j]) && Means(v, pool, k, p[k]);
    ConstMeans(v, pool, j, p[j]);
    JumpShape(v, pool, k, p[k]);
    NoTargetAfter(v, p, j);
    forall i | 0 <= i < |p| && !(j <= i < j + 2) ensures q[Move(i, j, 2, 1)] == MoveIns(p[i], j, 2, 1) {
      DownSecond(p[i], j);
      assert Up(Move(i, j, 2, 1), k) == i;
    }
    DownPlain(p[j], k);
    forall stack, env ensures SameEffect(p, j, 2, q, 1, stack, env) {
      DropJumpEffect(p, j, q, p[j].v, Target(p[k]).value, stack, env);
    }
  }

  // Removing such a jump keeps what the program does if nothing lands right behind it.
  lemma DropJumpKeeps(v: Insns, pool: seq<Constant>, p: seq<Ins>, j: nat)
    requires Good(v, pool, p) && DropsJumpAt(v, j) && j + 2 < |v| && NoTarget(p, j + 2)
    ensures Removable(v, j + 1) && Good(Removed(v, j + 1), pool, RemoveIns(p, j + 1))
    ensures Rewrites(p, j, 2, RemoveIns(p, j + 1), 1)
  {
    hide Means, Off, Rewrites, Removed, Removable, RemoveIns;
    DropJumpRewrites(v, pool, p, j);
    var k := j + 1;
    forall i | 0 <= i < |v| ensures !Records(v, k, i) && !LosesLink(v, k, i) {
      assert Linked(v, i, p[i]);
    }
    DropKeepsGood(v, pool, p, k);
  }

  // ---------- unused constants ----------

  // A constant at j that is popped at once.
  predicate UnusedAt(v: Insns, j: nat) {
    j + 1 < |v| && v[j + 1].code == OP_POP && IsConst(v[j])
  }

  predicate UnusedRemovable(v: Insns, j: nat) {
    j + 1 < |v| && Removable(v, j) && Removable(Removed(v, j), j)
  }

  function UnusedDropped(v: Insns, j: nat): Insns
    requires UnusedRemovable(v, j)
  {
    Removed(Removed(v, j), j)
  }

  function UnusedDroppedIns(p: seq<Ins>, j: nat): seq<Ins>
    requires j + 1 < |p|
  {
    RemoveIns(RemoveIns(p, j), j)
  }

  lemma UnusedEffect(p: seq<Ins>, j: nat, q: seq<Ins>, c: Value, stack: seq<Value>, env: Env)
    requires j + 1 < |p| && p[j] == Push(c) && p[j + 1] == Pop(1)
    ensures SameEffect(p, j, 2, q, 0, stack, env)
  {
    var s := Running(j, stack, env);
    assert (stack + [c])[..|stack|] == stack;
    assert Steps(p, s, 2) == Steps(p, Step(p, s), 1) == Steps(p, Step(p, Step(p, s)), 0);
  }

  lemma DownBoth(i: Ins, j: nat)
    requires Target(i) != Some(j + 1)
    ensures DownIns(DownIns(i, j), j) == MoveIns(i, j, 2, 0)
  {
  }

  lemma UnusedOutside(p: seq<Ins>, j: nat, i: nat)
    requires j + 1 < |p| && i < |p| && !(j <= i < j + 2) && Target(p[i]) != Some(j + 1)
    ensures |UnusedDroppedIns(p, j)| == |p| - 2
    ensures UnusedDroppedIns(p, j)[Move(i, j, 2, 0)] == MoveIns(p[i], j, 2, 0)
  {
    hide DownIns, MoveIns;
    var q1, m := RemoveIns(p, j), Move(i, j, 2, 0);
    assert UnusedDroppedIns(p, j)[m] == DownIns(q1[Up(m, j)], j);
    assert Up(Up(m, j), j) == i;
    DownBoth(p[i], j);
  }

  lemma UnusedRewrites(v: Insns, pool: seq<Constant>, p: seq<Ins>, j: nat)
    requires Good(v, pool, p) && UnusedAt(v, j)
    ensures Rewrites(p, j, 2, UnusedDroppedIns(p, j), 0)
  {
    hide Means, SameEffect, Off, MoveIns, OwnNumbers, Labelled, Linked;
    var q, k := UnusedDroppedIns(p, j), j + 1;
    assert Means(v, pool, j, p[j]) && Means(v, pool, k, p[k]);
    ConstMeans(v, pool, j, p[j]);
    PopMeans(v, pool, k, p[k]);
    assert |q| == |p| - 2;
    hide UnusedDroppedIns;
    NoTargetAfter(v, p, j);
    forall i | 0 <= i < |p| && !(j <= i < j + 2) ensures q[Move(i, j, 2, 0)] == MoveIns(p[i], j, 2, 0) {
      UnusedOutside(p, j, i);
    }
    forall stack, env ensures SameEffect(p, j, 2, q, 0, stack, env) {
      UnusedEffect(p, j, q, p[j].v, stack, env);
    }
  }

  lemma UnusedFirst(v: Insns, pool: seq<Constant>, p: seq<Ins>, j: nat)
    requires Good(v, pool, p) && UnusedAt(v, j) && NotRecorded(v, j)
    ensures Removable(v, j) && Good(Removed(v, j), pool, RemoveIns(p, j))
  {
    hide Means, Off, Removed, Removable, RemoveIns;
    NoTargetAfter(v, p, j);
    forall i | 0 <= i < |v| ensures !Records(v, j, i) && !LosesLink(v, j, i) {
      assert Linked(v, i, p[i]) && !Records(v, j, i);
    }
    assert Droppable(v, p, j);
    DropKeepsGood(v, pool, p, j);
  }

  // After the constant has gone, no jump depends on the pop.
  lemma UnusedSecond(v: Insns, pool: seq<Constant>, p: seq<Ins>, j: nat, i: nat)
    requires Good(v, pool, p) && UnusedAt(v, j) && j + 2 < |v| && Removable(v, j)
    requires NotRecorded(v, j) && NoTarget(p, j + 2) && i < |v| - 1
    ensures !Records(Removed(v, j), j, i) && !LosesLink(Removed(v, j), j, i)
    ensures Target(RemoveIns(p, j)[i]) != Some(j + 1)
  {
    hide Means, Off, OwnNumbers, Labelled;
    var k := Up(i, j);
    assert Linked(v, k, p[k]) && !Records(v, j, k) && Target(p[k]) != Some(j + 2);
    NoTargetBehind(v, p, k, j);
    assert PatchForRemoval(v, j, k).Some?;
    RemovedSame(v, j, i);
  }

  // Removing an unused constant keeps what the program does if no jump records the
  // constant and nothing lands right behind the pop.
  lemma UnusedKeeps(v: Insns, pool: seq<Constant>, p: seq<Ins>, j: nat)
    requires Good(v, pool, p) && UnusedAt(v, j) && j + 2 < |v|
    requires NotRecorded(v, j) && NoTarget(p, j + 2)
    ensures UnusedRemovable(v, j) && Good(UnusedDropped(v, j), pool, UnusedDroppedIns(p, j))
    ensures Rewrites(p, j, 2, UnusedDroppedIns(p, j), 0)
  {
    hide Rewrites, Removed, Removable, RemoveIns;
    UnusedRewrites(v, pool, p, j);
    UnusedFirst(v, pool, p, j);
    var w, q := Removed(v, j), RemoveIns(p, j);
    assert |p| == |v| && |q| == |w|;
    hide Good, NotRecorded, NoTarget;
    forall i | 0 <= i < |w| ensures !Records(w, j, i) && !LosesLink(w, j, i) && Target(q[i]) != Some(j + 1) {
      UnusedSecond(v, pool, p, j, i);
    }
    DropKeepsGood(w, pool, q, j);
  }

  // Nothing but a jump recording the constant stands in the way of its removal.
  lemma UnusedSafe(v: Insns, pool: seq<Constant>, p: seq<Ins>, j: nat)
    requires Good(v, pool, p) && UnusedAt(v, j) && forall i | 0 <= i < |v| :: !WrongLanding(v, p, j, i)
    ensures SafeToRemove(v, p, j)
  {
    hide Means, Off;
    NoTargetAfter(v, p, j);
    forall i | 0 <= i < |v| ensures !LosesLink(v, j, i) && !EmptiesLoop(v, p, j, i) {
      assert Linked(v, i, p[i]) && !WrongLanding(v, p, j, i);
    }
  }

  // After that, no jump lands wrongly on the pop either.
  lemma UnusedPopSafe(v: Insns, pool: seq<Constant>, p: seq<Ins>, j: nat, i: nat)
    requires Good(v, pool, p) && UnusedAt(v, j) && Removable(v, j) && j + 2 < |v|
    requires (forall k | 0 <= k < |v| :: !WrongLanding(v, p, j, k)) && i < |v| - 1
    ensures !WrongLanding(Removed(v, j), RemoveIns(p, j), j, i)
  {
    hide Means, Off;
    NoTargetAfter(v, p, j);
    var w, q := Removed(v, j), RemoveIns(p, j);
    if i < j {
      assert Up(i, j) == i && PatchForRemoval(v, j, i).Some?;
      assert Linked(v, i, p[i]) && !WrongLanding(v, p, j, i);
    }
  }

  lemma UnusedStray(v: Insns, pool: seq<Constant>, p: seq<Ins>, j: nat, i: nat)
    requires Good(v, pool, p) && UnusedAt(v, j) && j + 2 < |v| && UnusedRemovable(v, j)
    requires i < |v| && WrongLanding(v, p, j, i)
    ensures !Means(UnusedDropped(v, j), pool, i, UnusedDroppedIns(p, j)[i])
  {
    hide Means, Off, Good, Removed, Removable, Recorded, UnusedDropped;
    GoodLinkable(v, pool, p);
    var x, r := UnusedDropped(v, j), UnusedDroppedIns(p, j);
    StrayTwice(v, pool, p, j, i);
    StrayIns(p, j, i);
    UnusedSizes(v, pool, p, j);
    OffMonotone(v, j + 1, |v|);
    StrayDistance(Off(v, j) - Off(v, i) - 1, Size(v[j]), Size(Removed(v, j)[j]));
    if Means(x, pool, i, r[i]) {
      MeansTarget(x, pool, i, r[i]);
      assert false;
    }
  }

  // What is left of a distance is not the distance.
  lemma StrayDistance(d: int, a: nat, b: nat)
    requires 0 < a + b < WORD_LIMIT
    ensures ((d - a) % WORD_LIMIT - b) % WORD_LIMIT != d
  {
    var once := (d - a) % WORD_LIMIT;
    assert (once - b) % WORD_LIMIT == (d - a - b) % WORD_LIMIT;
  }

  // Both removals take their words off the jump's operand, which was the exact distance.
  lemma StrayTwice(v: Insns, pool: seq<Constant>, p: seq<Ins>, j: nat, i: nat)
    requires Linkable(v, pool, p) && UnusedRemovable(v, j) && i < |v| && WrongLanding(v, p, j, i)
    ensures var w, x := Removed(v, j), UnusedDropped(v, j);
      && j < |w| && i < |x| && x[i].code == v[i].code && |x[i].operands| == 1
      && x[i].operands[0] == ((Off(v, j) - Off(v, i) - 1 - Size(v[j])) % WORD_LIMIT - Size(w[j])) % WORD_LIMIT
      && Off(x, i) == Off(v, i) && Off(x, j) == Off(v, j)
  {
    hide Means, Off, Decode, Linked;
    var w := Removed(v, j);
    assert Means(v, pool, i, p[i]);
    MeansTarget(v, pool, i, p[i]);
    StrayOperand(v, j, i);
    StrayRecorded(v, j, i);
    StrayOperand(w, j, i);
    RemovedOff(v, j, i);
    RemovedOff(v, j, j);
    RemovedOff(w, j, i);
    RemovedOff(w, j, j);
  }

  lemma StrayRecorded(v: Insns, j: nat, i: nat)
    requires j + 1 < |v| && i < j && Removable(v, j) && IsJump(v[i].code) && Recorded(v, i) == Some(j)
    ensures Recorded(Removed(v, j), i) == Some(j)
  {
    assert PatchForRemoval(v, j, i).Some? && Up(i, j) == i;
  }

  lemma StrayIns(p: seq<Ins>, j: nat, i: nat)
    requires j + 1 < |p| && i < j && Target(p[i]) == Some(j)
    ensures Target(UnusedDroppedIns(p, j)[i]) == Some(j)
  {
    var q := RemoveIns(p, j);
    assert q[i] == DownIns(p[i], j) && Target(q[i]) == Some(j);
  }

  lemma UnusedSizes(v: Insns, pool: seq<Constant>, p: seq<Ins>, j: nat)
    requires Good(v, pool, p) && UnusedAt(v, j) && Removable(v, j)
    ensures Size(v[j]) <= 2 && Size(Removed(v, j)[j]) == 1 && Off(v, j + 1) == Off(v, j) + Size(v[j])
  {
    assert Means(v, pool, j, p[j]) && Means(v, pool, j + 1, p[j + 1]);
    RemovedSame(v, j, j);
  }

  // When the patcher gets through both removals, every jump lands where it should if and
  // only if no forward jump to the constant records it as its target.
  lemma UnusedLandsIff(v: Insns, pool: seq<Constant>, p: seq<Ins>, j: nat)
    requires Good(v, pool, p) && UnusedAt(v, j) && j + 2 < |v| && UnusedRemovable(v, j)
    ensures AllMean(UnusedDropped(v, j), pool, UnusedDroppedIns(p, j))
      <==> forall i | 0 <= i < |v| :: !WrongLanding(v, p, j, i)
  {
    hide Means, Linked, PatchForRemoval, Off, Removed, Removable, WrongLanding, SafeToRemove, RemoveIns, Good;
    GoodLinkable(v, pool, p);
    var w, q := Removed(v, j), RemoveIns(p, j);
    if forall i | 0 <= i < |v| :: !WrongLanding(v, p, j, i) {
      UnusedSafe(v, pool, p, j);
      RemoveKeeps(v, pool, p, j);
      forall i | 0 <= i < |w| ensures !WrongLanding(w, q, j, i) {
        UnusedPopSafe(v, pool, p, j, i);
      }
      RemoveLandsIff(w, pool, q, j);
    } else {
      var i :| 0 <= i < |v| && WrongLanding(v, p, j, i);
      UnusedStray(v, pool, p, j, i);
      WrongBefore(v, p, j, i);
    }
  }

  lemma GoodLinkable(v: Insns, pool: seq<Constant>, p: seq<Ins>)
    requires Good(v, pool, p)
    ensures Linkable(v, pool, p) && |p| == |v|
  {
  }

  lemma WrongBefore(v: Insns, p: seq<Ins>, k: nat, i: nat)
    requires i < |v| && k < |v| == |p| && WrongLanding(v, p, k, i)
    ensures i < k
  {
  }
}
