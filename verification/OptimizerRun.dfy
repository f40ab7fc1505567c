// The optimizer as a function of the list: what it does at each place, what it makes of a
// whole list, and what no list it has gone through holds any more.
module OptimizerRuns {
  import opened Opcodes
  import opened Machine
  import opened Code
  import opened Patch
  import opened Simplify
  import opened Optimizer

  // What the optimizer does at an instruction: a step, and where it goes on; nothing; or
  // it stops where C leaves undefined what happens.
  datatype Choice = Do(a: Action, resume: nat) | Skip | Halt

  // ---------- choosing ----------

  // An operator behind two number literals.
  predicate FoldPlace(v: Insns, at: nat) {
    2 <= at < |v| && IsBinOp(v[at]) && IsNumConst(v[at - 1]) && IsNumConst(v[at - 2])
  }

  function ChooseFold(s: Listing, at: nat): Choice
    requires FoldPlace(s.v, at)
  {
    if !FoldsAt(s.v, s.pool, at - 2) then Halt
    else match FoldAt(s.v, s.pool, at - 2)
      case Folds(r) => Do(Fold(at - 2, r), at - 2)
      case ZeroDivisor => Skip
      case FoldUndefined => Halt
  }

  predicate FusePlace(v: Insns, at: nat) {
    at >= 1 && FusesAt(v, at - 1)
  }

  // What becomes of a jump that is never, or always, taken.
  function ChooseReplace(i: Insn, at: nat, restart: bool): Choice {
    if i.code in {OP_JUMP, OP_JUMP_IF_FALSE_PEEK, OP_JUMP_IF_TRUE_PEEK} then
      if i.isLabel then Skip else Do(DropJump(at), if restart then 0 else at)
    else if i.code == OP_JUMP_IF_FALSE then
      if i.isLabel then Skip else Do(PopJump(at), at + 1)
    else Halt
  }

  predicate JumpPlace(v: Insns, at: nat) {
    at < |v| && IsJump(v[at].code) && (IsJumpNext(v[at]) || (at >= 1 && IsConst(v[at - 1])))
  }

  function ChooseJump(v: Insns, at: nat): Choice
    requires JumpPlace(v, at)
  {
    if IsJumpNext(v[at]) then ChooseReplace(v[at], at, false)
    else if v[at].code == OP_JUMP_IF_FALSE && ConstBool(v[at - 1]) then ChooseReplace(v[at], at, true)
    else if v[at].code == OP_JUMP_IF_TRUE_PEEK && !ConstBool(v[at - 1]) then ChooseReplace(v[at], at, true)
    else Skip
  }

  predicate UnusedPlace(v: Insns, at: nat) {
    at >= 1 && UnusedAt(v, at - 1) && (at + 1 < |v| ==> v[at + 1].code != OP_BLOCK_CONTINUE)
  }

  function Choose(s: Listing, at: nat, keepUnused: bool): Choice
    requires at < |s.v|
  {
    if FoldPlace(s.v, at) then ChooseFold(s, at)
    else if FusePlace(s.v, at) then Do(Fuse(at - 1), at)
    else if JumpPlace(s.v, at) then ChooseJump(s.v, at)
    else if !keepUnused && UnusedPlace(s.v, at) then Do(DropUnused(at - 1), 0)
    else Skip
  }

  lemma ChosenEnabled(s: Listing, at: nat, keepUnused: bool)
    requires at < |s.v| && Choose(s, at, keepUnused).Do?
    ensures Enabled(s, Choose(s, at, keepUnused).a) && (keepUnused ==> !Choose(s, at, keepUnused).a.DropUnused?)
  {
    hide FoldConstant;
    if !FoldPlace(s.v, at) && !FusePlace(s.v, at) && JumpPlace(s.v, at) {
      JumpEnabled(s, at);
    }
  }

  lemma JumpEnabled(s: Listing, at: nat)
    requires JumpPlace(s.v, at) && ChooseJump(s.v, at).Do?
    ensures Enabled(s, ChooseJump(s.v, at).a) && !ChooseJump(s.v, at).a.DropUnused?
  {
    hide FoldsAt, FusesAt, UnusedAt;
  }

  lemma ChosenLength(s: Listing, at: nat, keepUnused: bool)
    requires at < |s.v| && Choose(s, at, keepUnused).Do? && Enabled(s, Choose(s, at, keepUnused).a)
    requires Apply(s, Choose(s, at, keepUnused).a).Some?
    ensures var c := Choose(s, at, keepUnused);
      var t := Apply(s, c.a).value;
      c.resume <= |t.v| && (|t.v| < |s.v| || (|t.v| == |s.v| && c.resume == at + 1))
  {
    hide Removable, PatchForRemoval, Growable, FoldConstant;
  }

  // ---------- running ----------

  // How the optimizer leaves a list, and the steps it took.
  datatype Outcome = Finished(s: Listing, trace: seq<Action>) | Stopped(s: Listing, at: nat, trace: seq<Action>)

  // Optimizes from instruction `at` on, after the steps of trace.
  function Optimized(s: Listing, at: nat, trace: seq<Action>, keepUnused: bool): (o: Outcome)
    requires at <= |s.v|
    ensures trace <= o.trace && (o.Stopped? ==> o.at < |o.s.v|)
    decreases |s.v|, |s.v| - at
  {
    if at == |s.v| then Finished(s, trace)
    else
      match Choose(s, at, keepUnused)
      case Skip => Optimized(s, at + 1, trace, keepUnused)
      case Halt => Stopped(s, at, trace)
      case Do(a, resume) =>
        ChosenEnabled(s, at, keepUnused);
        match Apply(s, a)
        case None => Stopped(s, at, trace)
        case Some(t) =>
          ChosenLength(s, at, keepUnused);
          Optimized(t, resume, trace + [a], keepUnused)
  }

  predicate NoneDropped(trace: seq<Action>) {
    forall i | 0 <= i < |trace| :: !trace[i].DropUnused?
  }

  // Unused constants stay when the optimizer is told to keep them.
  lemma {:induction false} UnusedKept(s: Listing, at: nat, trace: seq<Action>)
    requires at <= |s.v| && NoneDropped(trace)
    ensures NoneDropped(Optimized(s, at, trace, true).trace)
    decreases |s.v|, |s.v| - at
  {
    hide Enabled, Apply, Choose;
    if at < |s.v| {
      match Choose(s, at, true)
      case Skip => UnusedKept(s, at + 1, trace);
      case Halt =>
      case Do(a, resume) =>
        ChosenEnabled(s, at, true);
        if Apply(s, a).Some? {
          ChosenLength(s, at, true);
          UnusedKept(Apply(s, a).value, resume, trace + [a]);
        }
    }
  }

  // ---------- what is left ----------

  predicate FoldLeft(s: Listing, at: nat) {
    FoldPlace(s.v, at) && ChooseFold(s, at) != Skip
  }

  // A jump behind a constant that decides it.
  predicate JumpLeft(v: Insns, at: nat) {
    && 1 <= at < |v| && !v[at].isLabel && IsConst(v[at - 1])
    && ((v[at].code == OP_JUMP_IF_FALSE && ConstBool(v[at - 1]))
        || (v[at].code == OP_JUMP_IF_TRUE_PEEK && !ConstBool(v[at - 1])))
  }

  predicate NothingAt(s: Listing, k: nat) {
    !FoldLeft(s, k) && !FusePlace(s.v, k) && !JumpLeft(s.v, k)
  }

  // Before `at` there is nothing left to fold, but for zero divisors, nothing to fuse, and no
  // jump behind a constant that decides it, but for labelled ones.
  predicate Settled(s: Listing, at: nat) {
    at <= |s.v| && forall k: nat | k < at :: NothingAt(s, k)
  }

  // Every jump on false comes right behind the instruction that leaves its value.
  predicate Fed(v: Insns) {
    forall i | 0 <= i < |v| && v[i].code == OP_JUMP_IF_FALSE :: i > 0 && !IsPopType(v[i - 1]) && !IsJump(v[i - 1].code)
  }

  predicate AlikeInsn(a: Insn, b: Insn) {
    && a.code == b.code && a.isNumber == b.isNumber && a.isLabel == b.isLabel
    && (!IsJump(a.code) && !IsLoop(a.code) ==> a.operands == b.operands)
  }

  predicate AlikeBefore(v: Insns, w: Insns, n: nat) {
    n <= |v| && n <= |w| && forall i | 0 <= i < n :: AlikeInsn(v[i], w[i])
  }

  // The number literals before n have the same constants.
  predicate SameNumbers(v: Insns, pool: seq<Constant>, qool: seq<Constant>, n: nat) {
    && n <= |v| && |pool| == |qool|
    && forall i | 0 <= i < n && IsNumConst(v[i]) && |v[i].operands| == 1 && v[i].operands[0] < |pool| ::
         pool[v[i].operands[0]] == qool[v[i].operands[0]]
  }

  lemma SettledAlike(s: Listing, t: Listing, n: nat)
    requires Settled(s, n) && AlikeBefore(s.v, t.v, n) && SameNumbers(s.v, s.pool, t.pool, n)
    ensures Settled(t, n)
  {
    hide FoldConstant;
    forall k: nat | k < n ensures NothingAt(t, k) {
      assert NothingAt(s, k);
      if k >= 1 {
        assert AlikeInsn(s.v[k], t.v[k]) && AlikeInsn(s.v[k - 1], t.v[k - 1]);
      }
      if k >= 2 {
        assert AlikeInsn(s.v[k - 2], t.v[k - 2]);
      }
    }
  }

  lemma RemovedAlike(v: Insns, k: nat)
    requires k < |v| && Removable(v, k)
    ensures AlikeBefore(v, Removed(v, k), k)
  {
    hide Removed, Removable;
    forall i | 0 <= i < k ensures AlikeInsn(v[i], Removed(v, k)[i]) {
      RemovedSame(v, k, i);
    }
  }

  lemma AlikeTwice(u: Insns, v: Insns, w: Insns, m: nat, n: nat)
    requires AlikeBefore(u, v, m) && AlikeBefore(v, w, n) && n <= m
    ensures AlikeBefore(u, w, n)
  {
    forall i | 0 <= i < n ensures AlikeInsn(u[i], w[i]) {
      assert AlikeInsn(u[i], v[i]) && AlikeInsn(v[i], w[i]);
    }
  }

  lemma RemovedFed(v: Insns, k: nat)
    requires Fed(v) && k < |v| && Removable(v, k)
    requires k + 1 < |v| && v[k + 1].code == OP_JUMP_IF_FALSE ==>
      k > 0 && !IsPopType(v[k - 1]) && !IsJump(v[k - 1].code)
    ensures Fed(Removed(v, k))
  {
    hide Removed, Removable;
    var w := Removed(v, k);
    forall i | 0 <= i < |w| && w[i].code == OP_JUMP_IF_FALSE
      ensures i > 0 && !IsPopType(w[i - 1]) && !IsJump(w[i - 1].code)
    {
      RemovedSame(v, k, i);
      assert v[Up(i, k)].code == OP_JUMP_IF_FALSE;
      if i > 0 {
        RemovedSame(v, k, i - 1);
      }
    }
  }

  // No jump on false comes behind a pop or a jump.
  lemma NotFed(v: Insns, j: nat)
    requires Fed(v) && j < |v| && (IsPopType(v[j]) || IsJump(v[j].code))
    ensures j + 1 < |v| ==> v[j + 1].code != OP_JUMP_IF_FALSE
  {
  }

  // What the steps need to go on: number literals with constants of their own, and
  // conditional jumps behind the values they test.
  ghost predicate Regular(s: Listing) {
    OwnNumbers(s.v, s.pool) && Fed(s.v)
  }

  lemma FoldSettles(s: Listing, j: nat, r: real)
    requires Regular(s) && Enabled(s, Fold(j, r)) && Apply(s, Fold(j, r)).Some? && Settled(s, j + 2)
    ensures var t := Apply(s, Fold(j, r)).value; Regular(t) && Settled(t, j)
  {
    hide Removed, Removable, FoldConstant, Settled, OwnNumbers, Fed, FoldedPool;
    var t := Apply(s, Fold(j, r)).value;
    FoldNumbers(s.v, s.pool, j, r);
    FoldedRest(s.v, t.pool, j);
    FoldSame(s, j, r);
    SettledLess(s, j + 2, j);
    SettledAlike(s, t, j);
  }

  lemma FoldedRest(v: Insns, pool: seq<Constant>, j: nat)
    requires FoldRemovable(v, j) && IsNumConst(v[j]) && IsNumConst(v[j + 1]) && OwnNumbers(v, pool) && Fed(v)
    ensures AlikeBefore(v, FoldedList(v, j), j) && OwnNumbers(FoldedList(v, j), pool) && Fed(FoldedList(v, j))
  {
    hide Removed, Removable, OwnNumbers, Fed;
    var once := Removed(v, j + 2);
    DropKeepsNumbers(v, pool, j + 2);
    DropKeepsNumbers(once, pool, j + 1);
    RemovedSame(v, j + 2, j);
    RemovedSame(v, j + 2, j + 1);
    RemovedFed(v, j + 2);
    RemovedFed(once, j + 1);
    RemovedAlike(v, j + 2);
    RemovedAlike(once, j + 1);
    AlikeTwice(v, once, FoldedList(v, j), j + 2, j);
  }

  lemma SettledLess(s: Listing, m: nat, n: nat)
    requires Settled(s, m) && n <= m
    ensures Settled(s, n)
  {
    hide NothingAt;
  }

  lemma FoldSame(s: Listing, j: nat, r: real)
    requires OwnNumbers(s.v, s.pool) && FoldsAt(s.v, s.pool, j)
    ensures SameNumbers(s.v, s.pool, FoldedPool(s.v, s.pool, j, r), j)
  {
  }

  lemma FuseSettles(s: Listing, j: nat)
    requires Regular(s) && Enabled(s, Fuse(j)) && Apply(s, Fuse(j)).Some? && Settled(s, j + 1)
    ensures var t := Apply(s, Fuse(j)).value; Regular(t) && Settled(t, j + 1)
  {
    hide Removed, Removable, Grown, Growable, FoldConstant, OwnNumbers, Fed;
    var once := Removed(s.v, j);
    DropKeepsNumbers(s.v, s.pool, j);
    RemovedFed(s.v, j);
    RemovedAlike(s.v, j);
    RemovedSame(s.v, j, j);
    FusedRest(s, j);
    var t := Apply(s, Fuse(j)).value;
    AlikeTwice(s.v, once, t.v, j, j);
    SettledLess(s, j + 1, j);
    SettledAlike(s, t, j);
    assert NothingAt(s, j);
    if j > 0 {
      assert AlikeInsn(s.v[j - 1], t.v[j - 1]);
    }
    assert NothingAt(t, j);
  }

  // Merging the second pop changes nothing else.
  lemma FusedRest(s: Listing, j: nat)
    requires FusesAt(s.v, j) && Fusible(s.v, j)
    requires var w := Removed(s.v, j); OwnNumbers(w, s.pool) && Fed(w)
    ensures var w, x := Removed(s.v, j), FusedList(s.v, j);
      && |x| == |w| && AlikeBefore(w, x, j) && x[j].code == OP_POP_N && OwnNumbers(x, s.pool) && Fed(x)
  {
    hide Removed, Removable, Grown, Growable, OwnNumbers;
    var w, x := Removed(s.v, j), FusedList(s.v, j);
    RemovedSame(s.v, j, j);
    PopPlain(w, s.pool, j);
    if w[j].code == OP_POP {
      var n := PopCount(s.v[j]) + 1;
      var g := Grown(w, j, n);
      GrownNumbers(w, s.pool, j, n);
      forall i | 0 <= i < |w| ensures g[i].code == w[i].code && (i != j ==> AlikeInsn(w[i], g[i])) {
        GrownSame(w, j, n, i);
      }
      PopPlain(g, s.pool, j);
      ExchangeNumbers(g, s.pool, j, x[j]);
    } else {
      ExchangeNumbers(w, s.pool, j, x[j]);
    }
    forall i | 0 <= i < |x| && x[i].code == OP_JUMP_IF_FALSE
      ensures i > 0 && !IsPopType(x[i - 1]) && !IsJump(x[i - 1].code)
    {
      assert w[i].code == OP_JUMP_IF_FALSE && IsPopType(w[j]);
    }
  }

  lemma PopPlain(v: Insns, pool: seq<Constant>, j: nat)
    requires OwnNumbers(v, pool) && j < |v| && IsPopType(v[j])
    ensures !v[j].isNumber
  {
  }

  lemma JumpPoppedSettles(s: Listing, k: nat)
    requires Regular(s) && Enabled(s, PopJump(k)) && Settled(s, k)
    ensures var t := s.(v := JumpPopped(s.v, k)); Regular(t) && Settled(t, k + 1)
  {
    hide FoldConstant;
    var t := s.(v := JumpPopped(s.v, k));
    assert !s.v[k].isNumber;
    ExchangeNumbers(s.v, s.pool, k, t.v[k]);
    assert AlikeBefore(s.v, t.v, k);
    SettledAlike(s, t, k);
    assert NothingAt(t, k);
    forall i | 0 <= i < |t.v| && t.v[i].code == OP_JUMP_IF_FALSE
      ensures i > 0 && !IsPopType(t.v[i - 1]) && !IsJump(t.v[i - 1].code)
    {
      assert s.v[i].code == OP_JUMP_IF_FALSE;
    }
  }

  lemma DropJumpSettles(s: Listing, k: nat, n: nat)
    requires Regular(s) && Enabled(s, DropJump(k)) && Apply(s, DropJump(k)).Some? && Settled(s, k) && n <= k
    ensures var t := Apply(s, DropJump(k)).value; Regular(t) && Settled(t, n)
  {
    hide Removed, Removable, FoldConstant;
    DropKeepsNumbers(s.v, s.pool, k);
    RemovedFed(s.v, k);
    RemovedAlike(s.v, k);
    SettledAlike(s, Apply(s, DropJump(k)).value, k);
    SettledLess(Apply(s, DropJump(k)).value, k, n);
  }

  lemma UnusedSettles(s: Listing, j: nat)
    requires Regular(s) && Enabled(s, DropUnused(j)) && Apply(s, DropUnused(j)).Some?
    ensures var t := Apply(s, DropUnused(j)).value; Regular(t) && Settled(t, 0)
  {
    hide Removed, Removable, OwnNumbers, Fed;
    var once := Removed(s.v, j);
    DropKeepsNumbers(s.v, s.pool, j);
    DropKeepsNumbers(once, s.pool, j);
    RemovedFed(s.v, j);
    RemovedSame(s.v, j, j);
    NotFed(once, j);
    RemovedFed(once, j);
  }

  lemma StepSettles(s: Listing, at: nat, keepUnused: bool)
    requires at < |s.v| && Regular(s) && Settled(s, at) && Choose(s, at, keepUnused).Do?
    requires Enabled(s, Choose(s, at, keepUnused).a) && Apply(s, Choose(s, at, keepUnused).a).Some?
    ensures var c := Choose(s, at, keepUnused); Regular(Apply(s, c.a).value) && Settled(Apply(s, c.a).value, c.resume)
  {
    hide Regular, Settled, Apply, FoldConstant, FoldsAt, FusesAt;
    var c := Choose(s, at, keepUnused);
    match c.a
    case Fold(j, r) => FoldSettles(s, j, r);
    case Fuse(j) => FuseSettles(s, j);
    case PopJump(k) => PoppedSettles(s, k);
    case DropJump(k) => DropJumpSettles(s, k, c.resume);
    case DropUnused(j) => UnusedSettles(s, j);
  }

  lemma PoppedSettles(s: Listing, k: nat)
    requires Regular(s) && Enabled(s, PopJump(k)) && Settled(s, k)
    ensures Regular(Apply(s, PopJump(k)).value) && Settled(Apply(s, PopJump(k)).value, k + 1)
  {
    hide Regular, Settled;
    JumpPoppedSettles(s, k);
  }

  lemma SkipSettles(s: Listing, at: nat, keepUnused: bool)
    requires at < |s.v| && Settled(s, at) && Choose(s, at, keepUnused) == Skip
    ensures Settled(s, at + 1)
  {
    hide FoldConstant;
    assert NothingAt(s, at);
  }

  // The optimizer goes over the list once and still leaves nothing to fold or fuse, steps
  // back, restarts and jumps turned into pops included.
  lemma {:induction false} NothingLeft(s: Listing, at: nat, trace: seq<Action>, keepUnused: bool)
    requires Regular(s) && Settled(s, at)
    ensures var o := Optimized(s, at, trace, keepUnused); o.Finished? ==> Regular(o.s) && Settled(o.s, |o.s.v|)
    decreases |s.v|, |s.v| - at
  {
    hide Regular, Settled, Apply, Enabled;
    SettledWithin(s, at);
    if at < |s.v| {
      match Choose(s, at, keepUnused)
      case Skip =>
        SkipSettles(s, at, keepUnused);
        NothingLeft(s, at + 1, trace, keepUnused);
      case Halt =>
      case Do(a, resume) =>
        ChosenEnabled(s, at, keepUnused);
        if Apply(s, a).Some? {
          ChosenLength(s, at, keepUnused);
          StepSettles(s, at, keepUnused);
          NothingLeft(Apply(s, a).value, resume, trace + [a], keepUnused);
        }
    }
  }

  lemma SettledWithin(s: Listing, at: nat)
    requires Settled(s, at)
    ensures at <= |s.v|
  {
  }

  // ---------- what that means for the program ----------

  // What the instruction does, but for where a jump lands.
  function Says(s: Listing, i: nat): Option<Ins>
    requires i < |s.v|
  {
    Decode(s.v[i].code, s.v[i].operands, s.pool, 0)
  }

  // Two numbers are pushed and an operator applied to them whose result is known.
  predicate CouldFold(s: Listing, k: nat) {
    && k + 2 < |s.v|
    && match (Says(s, k), Says(s, k + 1), Says(s, k + 2))
       case (Some(Push(Num(a))), Some(Push(Num(b))), Some(Arith(op))) => FoldConstant(op, a, b).Folds?
       case _ => false
  }

  // Two pops in a row, neither labelled.
  predicate CouldFuse(s: Listing, k: nat) {
    && k + 1 < |s.v| && !s.v[k].isLabel && !s.v[k + 1].isLabel
    && match (Says(s, k), Says(s, k + 1))
       case (Some(Pop(_)), Some(Pop(_))) => true
       case _ => false
  }

  // A value is pushed and a jump tests it that is always taken to its next instruction, or
  // never taken.
  predicate CouldDecide(s: Listing, k: nat) {
    && k + 1 < |s.v| && !s.v[k + 1].isLabel
    && match Says(s, k)
       case Some(Push(c)) =>
         || (s.v[k + 1].code == OP_JUMP_IF_FALSE && Truthy(c))
         || (s.v[k + 1].code == OP_JUMP_IF_TRUE_PEEK && !Truthy(c))
       case _ => false
  }

  ghost predicate Clean(s: Listing) {
    forall k: nat :: !CouldFold(s, k) && !CouldFuse(s, k) && !CouldDecide(s, k)
  }

  lemma SettledClean(s: Listing)
    requires OwnNumbers(s.v, s.pool) && Settled(s, |s.v|)
    ensures Clean(s)
  {
    forall k: nat ensures !CouldFold(s, k) && !CouldFuse(s, k) && !CouldDecide(s, k) {
      SettledAt(s, k);
    }
  }

  lemma SettledAt(s: Listing, k: nat)
    requires OwnNumbers(s.v, s.pool) && Settled(s, |s.v|)
    ensures !CouldFold(s, k) && !CouldFuse(s, k) && !CouldDecide(s, k)
  {
    hide FoldConstant;
    if k + 1 < |s.v| {
      assert NothingAt(s, k + 1);
    }
    if k + 2 < |s.v| {
      assert NothingAt(s, k + 2);
    }
  }

  // ---------- unused constants ----------

  // A value pushed and popped at once, unless a block continues behind it.
  predicate CouldDrop(s: Listing, k: nat) {
    && k + 1 < |s.v| && s.v[k + 1].code == OP_POP && (k + 2 < |s.v| ==> s.v[k + 2].code != OP_BLOCK_CONTINUE)
    && Says(s, k).Some? && Says(s, k).value.Push?
  }

  ghost predicate NothingUnused(s: Listing) {
    forall k: nat :: !CouldDrop(s, k)
  }

  predicate UsedUp(v: Insns, at: nat) {
    at <= |v| && forall k: nat | k < at :: !UnusedPlace(v, k)
  }

  predicate NonePopped(trace: seq<Action>) {
    forall i | 0 <= i < |trace| :: !trace[i].PopJump?
  }

  // Before a place that a step changes all stays used, as no step changes what a block
  // continues with.
  lemma UsedAlike(v: Insns, w: Insns, n: nat)
    requires UsedUp(v, n) && AlikeBefore(v, w, n) && (n < |v| ==> v[n].code != OP_BLOCK_CONTINUE)
    ensures UsedUp(w, n)
  {
    forall k: nat | k < n ensures !UnusedPlace(w, k) {
      assert !UnusedPlace(v, k) && AlikeInsn(v[k], w[k]);
      if k > 0 {
        assert AlikeInsn(v[k - 1], w[k - 1]);
      }
      if k + 1 < n {
        assert AlikeInsn(v[k + 1], w[k + 1]);
      }
    }
  }

  lemma UsedLess(v: Insns, m: nat, n: nat)
    requires UsedUp(v, m) && n <= m
    ensures UsedUp(v, n)
  {
  }

  lemma FoldUsed(s: Listing, j: nat, r: real)
    requires Enabled(s, Fold(j, r)) && Apply(s, Fold(j, r)).Some? && UsedUp(s.v, j + 2)
    ensures UsedUp(Apply(s, Fold(j, r)).value.v, j)
  {
    hide Removed, Removable, FoldConstant, UsedUp;
    var once := Removed(s.v, j + 2);
    RemovedAlike(s.v, j + 2);
    RemovedAlike(once, j + 1);
    AlikeTwice(s.v, once, FoldedList(s.v, j), j + 2, j);
    UsedLess(s.v, j + 2, j);
    UsedAlike(s.v, FoldedList(s.v, j), j);
  }

  lemma FuseUsed(s: Listing, j: nat)
    requires Regular(s) && Enabled(s, Fuse(j)) && Apply(s, Fuse(j)).Some? && UsedUp(s.v, j + 1)
    ensures UsedUp(Apply(s, Fuse(j)).value.v, j + 1)
  {
    hide Removed, Removable, Grown, Growable, FoldConstant, OwnNumbers, Fed;
    var once, t := Removed(s.v, j), Apply(s, Fuse(j)).value;
    DropKeepsNumbers(s.v, s.pool, j);
    RemovedFed(s.v, j);
    RemovedAlike(s.v, j);
    RemovedSame(s.v, j, j);
    FusedRest(s, j);
    AlikeTwice(s.v, once, t.v, j, j);
    UsedLess(s.v, j + 1, j);
    UsedAlike(s.v, t.v, j);
    assert !UnusedPlace(t.v, j);
  }

  lemma DropUsed(s: Listing, k: nat, n: nat)
    requires Enabled(s, DropJump(k)) && Apply(s, DropJump(k)).Some? && UsedUp(s.v, k) && n <= k
    ensures UsedUp(Apply(s, DropJump(k)).value.v, n)
  {
    hide Removed, Removable, UsedUp;
    RemovedAlike(s.v, k);
    UsedAlike(s.v, Removed(s.v, k), k);
    UsedLess(Removed(s.v, k), k, n);
  }

  lemma StepUsed(s: Listing, at: nat)
    requires at < |s.v| && Regular(s) && UsedUp(s.v, at) && Choose(s, at, false).Do?
    requires Enabled(s, Choose(s, at, false).a) && Apply(s, Choose(s, at, false).a).Some?
    requires !Choose(s, at, false).a.PopJump?
    ensures UsedUp(Apply(s, Choose(s, at, false).a).value.v, Choose(s, at, false).resume)
  {
    hide Regular, UsedUp, Apply, FoldConstant, FoldsAt, FusesAt;
    var c := Choose(s, at, false);
    match c.a
    case Fold(j, r) => FoldUsed(s, j, r);
    case Fuse(j) => FuseUsed(s, j);
    case DropJump(k) => DropUsed(s, k, c.resume);
    case DropUnused(j) => NothingBefore(Apply(s, c.a).value.v);
  }

  lemma NothingBefore(v: Insns)
    ensures UsedUp(v, 0)
  {
  }

  lemma SkipUsed(s: Listing, at: nat)
    requires at < |s.v| && UsedUp(s.v, at) && Choose(s, at, false) == Skip
    ensures UsedUp(s.v, at + 1)
  {
    hide FoldConstant;
    assert !UnusedPlace(s.v, at);
  }

  lemma TraceTake(trace: seq<Action>, a: Action, whole: seq<Action>)
    requires trace + [a] <= whole && NonePopped(whole)
    ensures !a.PopJump?
  {
    assert whole[|trace|] == (trace + [a])[|trace|] == a;
  }

  // With unused constants to be removed, none is left, but where a jump was turned into the
  // pop behind it.
  lemma {:induction false} NoneUnused(s: Listing, at: nat, trace: seq<Action>)
    requires Regular(s) && Settled(s, at) && UsedUp(s.v, at)
    ensures var o := Optimized(s, at, trace, false);
      o.Finished? && NonePopped(o.trace) ==> NothingUnused(o.s)
    decreases |s.v|, |s.v| - at
  {
    hide Regular, Settled, Apply, Enabled, UsedUp, Choose, NothingUnused, NonePopped;
    SettledWithin(s, at);
    if at == |s.v| {
      UsedNone(s);
    } else {
      match Choose(s, at, false)
      case Skip =>
        SkipSettles(s, at, false);
        SkipUsed(s, at);
        NoneUnused(s, at + 1, trace);
      case Halt =>
      case Do(a, resume) =>
        ChosenEnabled(s, at, false);
        if Apply(s, a).Some? {
          ChosenLength(s, at, false);
          if NonePopped(Optimized(s, at, trace, false).trace) {
            TraceTake(trace, a, Optimized(s, at, trace, false).trace);
            StepSettles(s, at, false);
            StepUsed(s, at);
            NoneUnused(Apply(s, a).value, resume, trace + [a]);
          }
        }
    }
  }

  lemma UsedNone(s: Listing)
    requires UsedUp(s.v, |s.v|)
    ensures NothingUnused(s)
  {
    forall k: nat ensures !CouldDrop(s, k) {
      if k + 1 < |s.v| {
        assert !UnusedPlace(s.v, k + 1);
      }
    }
  }

  // ---------- where it stops ----------

  // A fold whose result C does not define.
  predicate UndefinedFold(s: Listing, at: nat) {
    FoldPlace(s.v, at) && FoldsAt(s.v, s.pool, at - 2) && FoldAt(s.v, s.pool, at - 2) == FoldUndefined
  }

  lemma HaltsUndefined(s: Listing, p: seq<Ins>, at: nat, keepUnused: bool)
    requires InOrder(s, p) && at < |s.v| && Choose(s, at, keepUnused) == Halt
    ensures UndefinedFold(s, at)
  {
    hide Linkable, Labelled, NoTargetAfterValue, FoldConstant;
    if !FoldPlace(s.v, at) {
      NoJumpNext(s, p, at);
      assert false;
    } else {
      assert s.v[at - 2].isNumber && s.v[at - 1].isNumber;
    }
  }

  lemma TraceTail(trace: seq<Action>, a: Action, whole: seq<Action>)
    requires trace + [a] <= whole
    ensures var rest := whole[|trace|..]; rest != [] && rest[0] == a && rest[1..] == whole[|trace + [a]|..]
  {
    assert (trace + [a])[|trace|] == a;
  }

  // On a list in order the optimizer is stopped by nothing but a fold C does not define
  // or the first step that would change what the program does.
  lemma {:induction false} StopsOnlyThere(s: Listing, p: seq<Ins>, at: nat, trace: seq<Action>, keepUnused: bool)
    returns (q: seq<Ins>)
    requires InOrder(s, p) && at <= |s.v| && Optimized(s, at, trace, keepUnused).Stopped?
    requires SoundRun(s, p, Optimized(s, at, trace, keepUnused).trace[|trace|..])
    ensures var o := Optimized(s, at, trace, keepUnused);
      && InOrder(o.s, q) && |q| == |o.s.v|
      && (UndefinedFold(o.s, o.at)
          || (Choose(o.s, o.at, keepUnused).Do? && !Sound(o.s, q, Choose(o.s, o.at, keepUnused).a)))
    decreases |s.v|, |s.v| - at
  {
    hide InOrder, Apply, Enabled, Sound, ActionIns, UndefinedFold, Choose, EndsIn;
    OrderSize(s, p);
    q := p;
    match Choose(s, at, keepUnused)
    case Skip =>
      q := StopsOnlyThere(s, p, at + 1, trace, keepUnused);
    case Halt =>
      HaltsUndefined(s, p, at, keepUnused);
    case Do(a, resume) =>
      ChosenEnabled(s, at, keepUnused);
      if Apply(s, a).None? {
        if Sound(s, p, a) {
          ActionKeeps(s, p, a);
          assert false;
        }
      } else {
        ChosenLength(s, at, keepUnused);
        TraceTail(trace, a, Optimized(s, at, trace, keepUnused).trace);
        ActionKeeps(s, p, a);
        q := StopsOnlyThere(Apply(s, a).value, ActionIns(s, p, a), resume, trace + [a], keepUnused);
      }
  }
}
