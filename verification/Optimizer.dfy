// The optimizer's rewriting steps as actions on an instruction list and its constants,
// and what any run of them keeps.
module Optimizer {
  import opened Opcodes
  import opened Machine
  import opened Code
  import opened Patch
  import opened Rewrite
  import opened Simplify

  // Fold the operator at j + 2; fuse the pops at j and j + 1; turn the jump at k into a
  // pop; remove the jump at k; remove the constant at j and the pop behind it.
  datatype Action = Fold(j: nat, r: real) | Fuse(j: nat) | PopJump(k: nat) | DropJump(k: nat) | DropUnused(j: nat)

  datatype Listing = Listing(v: Insns, pool: seq<Constant>)

  predicate IsJumpNext(i: Insn) {
    IsJump(i.code) && |i.operands| == 1 && i.operands[0] == 0
  }

  predicate AfterConst(v: Insns, k: nat, truth: bool) {
    0 < k <= |v| && IsConst(v[k - 1]) && ConstBool(v[k - 1]) == truth
  }

  // When the optimizer takes the step.
  predicate Enabled(s: Listing, a: Action) {
    match a
    case Fold(j, r) => FoldsAt(s.v, s.pool, j) && FoldAt(s.v, s.pool, j) == Folds(r)
    case Fuse(j) => FusesAt(s.v, j)
    case PopJump(k) =>
      && k < |s.v| && s.v[k].code == OP_JUMP_IF_FALSE && !s.v[k].isLabel
      && (IsJumpNext(s.v[k]) || AfterConst(s.v, k, true))
    case DropJump(k) =>
      && k < |s.v| && !s.v[k].isLabel
      && ((IsJumpNext(s.v[k]) && s.v[k].code in {OP_JUMP, OP_JUMP_IF_FALSE_PEEK, OP_JUMP_IF_TRUE_PEEK})
          || (s.v[k].code == OP_JUMP_IF_TRUE_PEEK && AfterConst(s.v, k, false)))
    case DropUnused(j) =>
      UnusedAt(s.v, j) && (j + 2 < |s.v| ==> s.v[j + 2].code != OP_BLOCK_CONTINUE)
  }

  // What the step makes of the list, or None where an assertion stops the patcher.
  function Apply(s: Listing, a: Action): Option<Listing>
    requires Enabled(s, a)
  {
    match a
    case Fold(j, r) =>
      if FoldRemovable(s.v, j) then Some(Listing(FoldedList(s.v, j), FoldedPool(s.v, s.pool, j, r))) else None
    case Fuse(j) => if Fusible(s.v, j) then Some(s.(v := FusedList(s.v, j))) else None
    case PopJump(k) => Some(s.(v := JumpPopped(s.v, k)))
    case DropJump(k) => if Removable(s.v, k) then Some(s.(v := Removed(s.v, k))) else None
    case DropUnused(j) => if UnusedRemovable(s.v, j) then Some(s.(v := UnusedDropped(s.v, j))) else None
  }

  // A run of enabled steps leads from s to t.
  ghost predicate Leads(s: Listing, trace: seq<Action>, t: Listing)
    decreases |trace|
  {
    if trace == [] then s == t
    else
      && Enabled(s, trace[0]) && Apply(s, trace[0]).Some?
      && Leads(Apply(s, trace[0]).value, trace[1..], t)
  }

  lemma {:induction false} LeadsMore(s: Listing, trace: seq<Action>, t: Listing, a: Action)
    requires Leads(s, trace, t) && Enabled(t, a) && Apply(t, a).Some?
    ensures Leads(s, trace + [a], Apply(t, a).value)
    decreases |trace|
  {
    hide Enabled, Apply;
    if trace == [] {
      assert (trace + [a])[1..] == [];
    } else {
      LeadsMore(Apply(s, trace[0]).value, trace[1..], t, a);
      assert (trace + [a])[1..] == trace[1..] + [a];
    }
  }

  // No step of the run has taken away the value that a block goes on with.
  ghost predicate SparesBlocks(s: Listing, trace: seq<Action>)
    decreases |trace|
  {
    trace != [] && Enabled(s, trace[0]) && Apply(s, trace[0]).Some? ==>
      && (trace[0].DropUnused? && trace[0].j + 2 < |s.v| ==> s.v[trace[0].j + 2].code != OP_BLOCK_CONTINUE)
      && SparesBlocks(Apply(s, trace[0]).value, trace[1..])
  }

  lemma {:induction false} BlocksSpared(s: Listing, trace: seq<Action>, t: Listing)
    requires Leads(s, trace, t)
    ensures SparesBlocks(s, trace)
    decreases |trace|
  {
    hide Apply;
    if trace != [] {
      BlocksSpared(Apply(s, trace[0]).value, trace[1..], t);
    }
  }

  // ---------- what a step does to the instructions ----------

  function ActionIns(s: Listing, p: seq<Ins>, a: Action): seq<Ins>
    requires Enabled(s, a) && |p| == |s.v|
  {
    match a
    case Fold(j, r) => FoldedIns(p, j, r)
    case Fuse(j) => FusedIns(p, j, PopCount(s.v[j]) + PopCount(s.v[j + 1]))
    case PopJump(k) => p[k := Pop(1)]
    case DropJump(k) => RemoveIns(p, k)
    case DropUnused(j) => UnusedDroppedIns(p, j)
  }

  // Where the step keeps what the program does: folding and fusing always; a jump is
  // turned into a pop only if no jump spans it; an instruction is removed only if none
  // lands behind it, and an unused constant only if no jump records it.
  ghost predicate Sound(s: Listing, p: seq<Ins>, a: Action)
    requires |p| == |s.v|
  {
    match a
    case Fold(_, _) => true
    case Fuse(_) => true
    case PopJump(k) => Unspanned(s.v, p, k)
    case DropJump(k) => NoTarget(p, k + 1)
    case DropUnused(j) => NotRecorded(s.v, j) && NoTarget(p, j + 2)
  }

  // A list in order that ends with OP_LEAVE.
  ghost predicate InOrder(s: Listing, p: seq<Ins>) {
    Good(s.v, s.pool, p) && s.v != [] && s.v[|s.v| - 1].code == OP_LEAVE
  }

  lemma NoJumpNext(s: Listing, p: seq<Ins>, k: nat)
    requires Good(s.v, s.pool, p) && k < |s.v|
    ensures !IsJumpNext(s.v[k])
  {
    hide Off, Linked;
    assert Means(s.v, s.pool, k, p[k]);
    if IsJump(s.v[k].code) {
      JumpShape(s.v, s.pool, k, p[k]);
      MeansTarget(s.v, s.pool, k, p[k]);
    }
  }

  lemma RemovedLast(v: Insns, k: nat)
    requires k + 1 < |v| && Removable(v, k)
    ensures |Removed(v, k)| == |v| - 1 && Removed(v, k)[|v| - 2].code == v[|v| - 1].code
  {
    RemovedSame(v, k, |v| - 2);
  }

  // From any globals, the two come to the same ends.
  ghost predicate SameEnds(p: seq<Ins>, q: seq<Ins>) {
    forall env, end :: EndsIn(p, Running(0, [], env), end) <==> EndsIn(q, Running(0, [], env), end)
  }

  // Every step that is sound keeps the list in order and what the program comes to.
  lemma ActionKeeps(s: Listing, p: seq<Ins>, a: Action)
    requires InOrder(s, p) && Enabled(s, a) && |p| == |s.v| && Sound(s, p, a)
    ensures Apply(s, a).Some? && InOrder(Apply(s, a).value, ActionIns(s, p, a))
    ensures SameEnds(p, ActionIns(s, p, a))
  {
    hide SameEnds, Good, Removed, Removable, Grown, Growable, FoldAt, Rewrites, EndsIn;
    match a
    case Fold(j, r) => FoldAction(s, p, j, r);
    case Fuse(j) => FuseAction(s, p, j);
    case PopJump(k) => PopJumpAction(s, p, k);
    case DropJump(k) => DropJumpAction(s, p, k);
    case DropUnused(j) => UnusedAction(s, p, j);
  }

  // Exactly where the step leaves every jump landing where it should.
  ghost predicate KeepsLandings(s: Listing, p: seq<Ins>, a: Action)
    requires |p| == |s.v| && Enabled(s, a)
  {
    match a
    case Fold(_, _) => true
    case Fuse(_) => true
    case PopJump(k) => Unspanned(s.v, p, k)
    case DropJump(k) => forall i | 0 <= i < |s.v| :: !WrongLanding(s.v, p, k, i)
    case DropUnused(j) => forall i | 0 <= i < |s.v| :: !WrongLanding(s.v, p, j, i)
  }

  // When no assertion stops the step, what it leaves means the instructions it should
  // leave if and only if that is so.
  lemma ActionLandsIff(s: Listing, p: seq<Ins>, a: Action)
    requires InOrder(s, p) && Enabled(s, a) && |p| == |s.v| && Apply(s, a).Some?
    ensures var t := Apply(s, a).value; AllMean(t.v, t.pool, ActionIns(s, p, a)) <==> KeepsLandings(s, p, a)
  {
    hide Removed, Removable, Grown, Growable, FoldAt, Means, Off, Linked, Labelled, OwnNumbers, NoTargetAfterValue,
      WrongLanding, RemoveIns;
    match a
    case Fold(j, r) => ActionKeeps(s, p, a);
    case Fuse(j) => ActionKeeps(s, p, a);
    case PopJump(k) => JumpPoppedIff(s.v, s.pool, p, k);
    case DropJump(k) => RemoveLandsIff(s.v, s.pool, p, k);
    case DropUnused(j) => UnusedBehind(s, p, j);
  }

  lemma UnusedBehind(s: Listing, p: seq<Ins>, j: nat)
    requires InOrder(s, p) && UnusedAt(s.v, j) && UnusedRemovable(s.v, j) && |p| == |s.v|
    ensures AllMean(UnusedDropped(s.v, j), s.pool, UnusedDroppedIns(p, j))
       <==> forall i | 0 <= i < |s.v| :: !WrongLanding(s.v, p, j, i)
  {
    hide Good, Removed, Removable, UnusedRemovable, UnusedDropped, AllMean, WrongLanding;
    assert s.v[j + 1].code != OP_LEAVE;
    UnusedLandsIff(s.v, s.pool, p, j);
  }

  lemma Rewritten(p: seq<Ins>, j: nat, n: nat, q: seq<Ins>, m: nat)
    requires Rewrites(p, j, n, q, m)
    ensures SameEnds(p, q)
  {
    hide Rewrites, EndsIn;
    forall env, end ensures EndsIn(p, Running(0, [], env), end) <==> EndsIn(q, Running(0, [], env), end) {
      RewriteKeeps(p, j, n, q, m, env, end);
    }
  }

  lemma FoldAction(s: Listing, p: seq<Ins>, j: nat, r: real)
    requires InOrder(s, p) && |p| == |s.v| && Enabled(s, Fold(j, r))
    ensures FoldRemovable(s.v, j) && InOrder(Listing(FoldedList(s.v, j), FoldedPool(s.v, s.pool, j, r)),
      FoldedIns(p, j, r))
    ensures SameEnds(p, FoldedIns(p, j, r))
  {
    hide SameEnds, Good, FoldRemovable, FoldedList, Rewrites, EndsIn, FoldedIns;
    assert s.v[j + 2].code != OP_LEAVE;
    FoldKeeps(s.v, s.pool, p, j, r);
    FoldedLast(s.v, j);
    Rewritten(p, j, 3, FoldedIns(p, j, r), 1);
  }

  lemma FoldedLast(v: Insns, j: nat)
    requires j + 3 < |v| && FoldRemovable(v, j)
    ensures |FoldedList(v, j)| == |v| - 2 && FoldedList(v, j)[|v| - 3].code == v[|v| - 1].code
  {
    hide Removed, Removable;
    RemovedLast(v, j + 2);
    RemovedLast(Removed(v, j + 2), j + 1);
  }

  lemma FuseAction(s: Listing, p: seq<Ins>, j: nat)
    requires InOrder(s, p) && |p| == |s.v| && Enabled(s, Fuse(j))
    ensures Fusible(s.v, j)
    ensures var q := FusedIns(p, j, PopCount(s.v[j]) + PopCount(s.v[j + 1]));
      && InOrder(s.(v := FusedList(s.v, j)), q)
      && SameEnds(p, q)
  {
    hide SameEnds, Good, Removed, Removable, Grown, Growable, Rewrites, EndsIn;
    FuseKeeps(s.v, s.pool, p, j);
    RemovedLast(s.v, j);
    if s.v[j + 1].code == OP_POP {
      var w := Removed(s.v, j);
      GrownSame(w, j, PopCount(s.v[j]) + 1, |w| - 1);
    }
    Rewritten(p, j, 2, FusedIns(p, j, PopCount(s.v[j]) + PopCount(s.v[j + 1])), 1);
  }

  lemma PopJumpAction(s: Listing, p: seq<Ins>, k: nat)
    requires InOrder(s, p) && |p| == |s.v| && Enabled(s, PopJump(k)) && Unspanned(s.v, p, k)
    ensures InOrder(s.(v := JumpPopped(s.v, k)), p[k := Pop(1)])
    ensures SameEnds(p, p[k := Pop(1)])
  {
    hide SameEnds, Good, Rewrites, EndsIn, Unspanned;
    NoJumpNext(s, p, k);
    var j := k - 1;
    JumpPoppedKeeps(s.v, s.pool, p, j);
    Rewritten(p, j, 2, p[k := Pop(1)], 2);
  }

  lemma DropJumpAction(s: Listing, p: seq<Ins>, k: nat)
    requires InOrder(s, p) && |p| == |s.v| && Enabled(s, DropJump(k)) && NoTarget(p, k + 1)
    ensures Removable(s.v, k) && InOrder(s.(v := Removed(s.v, k)), RemoveIns(p, k))
    ensures SameEnds(p, RemoveIns(p, k))
  {
    hide SameEnds, Good, Removed, Removable, Rewrites, EndsIn;
    NoJumpNext(s, p, k);
    var j := k - 1;
    DropJumpKeeps(s.v, s.pool, p, j);
    RemovedLast(s.v, k);
    Rewritten(p, j, 2, RemoveIns(p, k), 1);
  }

  lemma UnusedAction(s: Listing, p: seq<Ins>, j: nat)
    requires InOrder(s, p) && |p| == |s.v| && Enabled(s, DropUnused(j)) && NotRecorded(s.v, j) && NoTarget(p, j + 2)
    ensures UnusedRemovable(s.v, j) && InOrder(s.(v := UnusedDropped(s.v, j)), UnusedDroppedIns(p, j))
    ensures SameEnds(p, UnusedDroppedIns(p, j))
  {
    hide SameEnds, Good, Removed, Removable, Rewrites, EndsIn;
    assert s.v[j + 1].code != OP_LEAVE;
    UnusedKeeps(s.v, s.pool, p, j);
    RemovedLast(s.v, j);
    RemovedLast(Removed(s.v, j), j);
    Rewritten(p, j, 2, UnusedDroppedIns(p, j), 0);
  }

  // ---------- whole runs ----------

  // Every step of the run is sound where it is taken.
  ghost predicate SoundRun(s: Listing, p: seq<Ins>, trace: seq<Action>)
    decreases |trace|
  {
    trace != [] && |p| == |s.v| && Enabled(s, trace[0]) && Apply(s, trace[0]).Some? ==>
      && Sound(s, p, trace[0])
      && |ActionIns(s, p, trace[0])| == |Apply(s, trace[0]).value.v|
      && SoundRun(Apply(s, trace[0]).value, ActionIns(s, p, trace[0]), trace[1..])
  }

  // Any run of the optimizer whose steps are sound keeps what the program does, from the
  // words before to the words after, and leaves a list in order.
  lemma {:induction false} RunKeeps(s: Listing, p: seq<Ins>, trace: seq<Action>, t: Listing) returns (q: seq<Ins>)
    requires InOrder(s, p) && Leads(s, trace, t) && SoundRun(s, p, trace)
    ensures InOrder(t, q)
    ensures SameEnds(p, q)
    decreases |trace|
  {
    hide EndsIn, Sound, Enabled, Apply, ActionIns, InOrder;
    OrderSize(s, p);
    if trace == [] {
      q := p;
    } else {
      var a := trace[0];
      ActionKeeps(s, p, a);
      q := RunKeeps(Apply(s, a).value, ActionIns(s, p, a), trace[1..], t);
    }
  }

  lemma OrderSize(s: Listing, p: seq<Ins>)
    requires InOrder(s, p)
    ensures |p| == |s.v| && AllMean(s.v, s.pool, p)
  {
  }

  // Folding and fusing need nothing more: every run of them is sound.
  lemma {:induction false} FoldAndFuseSound(s: Listing, p: seq<Ins>, trace: seq<Action>, t: Listing)
    requires InOrder(s, p) && Leads(s, trace, t) && forall i | 0 <= i < |trace| :: trace[i].Fold? || trace[i].Fuse?
    ensures SoundRun(s, p, trace)
    decreases |trace|
  {
    hide EndsIn, Enabled, Apply, ActionIns, InOrder;
    OrderSize(s, p);
    if trace != [] {
      var a := trace[0];
      assert Sound(s, p, a);
      ActionKeeps(s, p, a);
      OrderSize(Apply(s, a).value, ActionIns(s, p, a));
      FoldAndFuseSound(Apply(s, a).value, ActionIns(s, p, a), trace[1..], t);
    }
  }

  lemma OptimizedRunsAlike(s: Listing, p: seq<Ins>, trace: seq<Action>, t: Listing, env: Env, end: State)
    requires InOrder(s, p) && Leads(s, trace, t) && SoundRun(s, p, trace)
    ensures WordsEndIn(Flatten(s.v), s.pool, Running(0, [], env), end)
       <==> WordsEndIn(Flatten(t.v), t.pool, Running(0, [], env), end)
  {
    hide EndsIn, WordsEndIn, AllMean, InOrder, Leads, SoundRun;
    var q := RunKeeps(s, p, trace, t);
    OrderSize(s, p);
    OrderSize(t, q);
    WordsRunAlike(s.v, s.pool, p, env, end);
    WordsRunAlike(t.v, t.pool, q, env, end);
  }

  // The step puts instructions of the same effect in place of others.
  lemma ActionRewrites(s: Listing, p: seq<Ins>, a: Action)
    requires InOrder(s, p) && Enabled(s, a) && |p| == |s.v| && Apply(s, a).Some?
    ensures SameEnds(p, ActionIns(s, p, a))
  {
    hide SameEnds, Good, Removed, Removable, Grown, Growable, FoldAt, Rewrites, EndsIn, RemoveIns, UnusedDroppedIns,
      UnusedRemovable;
    match a
    case Fold(j, r) => ActionKeeps(s, p, a);
    case Fuse(j) => ActionKeeps(s, p, a);
    case PopJump(k) =>
      NoJumpNext(s, p, k);
      JumpPoppedRewrites(s.v, s.pool, p, k - 1);
      Rewritten(p, k - 1, 2, p[k := Pop(1)], 2);
    case DropJump(k) =>
      NoJumpNext(s, p, k);
      DropJumpRewrites(s.v, s.pool, p, k - 1);
      Rewritten(p, k - 1, 2, RemoveIns(p, k), 1);
    case DropUnused(j) =>
      UnusedRewrites(s.v, s.pool, p, j);
      Rewritten(p, j, 2, UnusedDroppedIns(p, j), 0);
  }

  // Any step that leaves every jump landing where it should keeps what the words come to,
  // also where it leaves a jump behind a value.
  lemma LandedWordsRunAlike(s: Listing, p: seq<Ins>, a: Action, env: Env, end: State)
    requires InOrder(s, p) && Enabled(s, a) && |p| == |s.v| && Apply(s, a).Some? && KeepsLandings(s, p, a)
    ensures WordsEndIn(Flatten(s.v), s.pool, Running(0, [], env), end)
       <==> WordsEndIn(Flatten(Apply(s, a).value.v), Apply(s, a).value.pool, Running(0, [], env), end)
  {
    hide EndsIn, WordsEndIn, AllMean, InOrder, Enabled, Apply, ActionIns, KeepsLandings;
    var t, q := Apply(s, a).value, ActionIns(s, p, a);
    OrderSize(s, p);
    ActionLandsIff(s, p, a);
    ActionRewrites(s, p, a);
    WordsRunAlike(s.v, s.pool, p, env, end);
    WordsRunAlike(t.v, t.pool, q, env, end);
  }

  lemma PlainMeans(v: Insns, pool: seq<Constant>, i: nat, ins: Ins)
    requires i < |v| && WellSized(v[i]) && Target(ins).None? && !IsJump(v[i].code) && !IsLoop(v[i].code)
    requires Decode(v[i].code, v[i].operands, pool, 0) == Some(ins)
    ensures Means(v, pool, i, ins)
  {
  }
}
