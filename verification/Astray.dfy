// Two programs that the optimizer, taking the steps the compiler's code takes, turns into
// words that run astray.
module Astray {
  import opened Opcodes
  import opened Machine
  import opened Ast
  import opened Compile
  import opened Code
  import opened Patch
  import opened Simplify
  import opened Optimizer
  import opened OptimizerRuns
  import opened Emission
  import opened Drafts
  import opened Pipeline

  // ---------- running astray ----------

  lemma {:induction false} WordsFinal(words: seq<nat>, pool: seq<Constant>, s: State, n: nat)
    requires !s.Running?
    ensures WordSteps(words, pool, s, n) == s
    decreases n
  {
    if n > 0 {
      WordsFinal(words, pool, s, n - 1);
    }
  }

  lemma {:induction false} WordsAdd(words: seq<nat>, pool: seq<Constant>, s: State, m: nat, n: nat)
    ensures WordSteps(words, pool, s, m + n) == WordSteps(words, pool, WordSteps(words, pool, s, m), n)
    decreases m
  {
    hide WordStep;
    if m > 0 {
      WordsAdd(words, pool, WordStep(words, pool, s), m - 1, n);
    }
  }

  // A run comes to one end only.
  lemma OneEnd(words: seq<nat>, pool: seq<Constant>, s: State, q: State, r: State)
    requires WordsEndIn(words, pool, s, q) && WordsEndIn(words, pool, s, r)
    ensures q == r
  {
    hide WordSteps;
    var m: nat :| WordSteps(words, pool, s, m) == q;
    var n: nat :| WordSteps(words, pool, s, n) == r;
    if m <= n {
      WordsAdd(words, pool, s, m, n - m);
      WordsFinal(words, pool, q, n - m);
    } else {
      WordsAdd(words, pool, s, n, m - n);
      WordsFinal(words, pool, r, m - n);
    }
  }

  // The global x is false to begin with.
  const X_FALSE := Env(map["x" := Bool(false)], [])

  // A test of x that jumps beyond the last word.
  ghost predicate StrayTest(v: Insns, pool: seq<Constant>) {
    && |v| >= 2 && pool != [] && pool[0] == StringConst("x")
    && v[0].code == OP_GET_GLOBAL && v[0].operands == [0]
    && v[1].code == OP_JUMP_IF_FALSE && |v[1].operands| == 1 && v[1].operands[0] > 0
    && 3 + v[1].operands[0] >= Off(v, |v|)
  }

  lemma StrayCrashes(v: Insns, pool: seq<Constant>)
    requires StrayTest(v, pool)
    ensures WordsEndIn(Flatten(v), pool, Start(X_FALSE), Crashed(X_FALSE))
  {
    hide Flatten, Off, Fetch, Decode, WordStep;
    var words, far := Flatten(v), 3 + v[1].operands[0];
    FlattenLength(v);
    OffTwo(v);
    StrayDecoded(v, pool);
    FetchAt(v, pool, 0, GetGlobal("x"));
    FetchAt(v, pool, 1, JumpIfFalse(far));
    var s0, s1, s2 := Start(X_FALSE), Running(2, [Bool(false)], X_FALSE), Running(far, [], X_FALSE);
    FetchedStep(words, pool, s0, GetGlobal("x"), 2);
    FetchedStep(words, pool, s1, JumpIfFalse(far), 2);
    FetchedNone(words, pool, s2);
    assert [] + [Bool(false)] == [Bool(false)] && [Bool(false)][..0] == [];
    assert Exec(GetGlobal("x"), 2, [], X_FALSE) == s1 && Exec(JumpIfFalse(far), 4, [Bool(false)], X_FALSE) == s2;
    assert WordSteps(words, pool, s0, 3) == WordSteps(words, pool, s1, 2) == WordSteps(words, pool, s2, 1)
        == WordSteps(words, pool, Crashed(X_FALSE), 0);
  }

  lemma StrayDecoded(v: Insns, pool: seq<Constant>)
    requires StrayTest(v, pool)
    ensures Decode(v[0].code, v[0].operands, pool, 0) == Some(GetGlobal("x"))
    ensures Decode(v[1].code, v[1].operands, pool, 2) == Some(JumpIfFalse(3 + v[1].operands[0]))
    ensures WellSized(v[0]) && WellSized(v[1])
  {
    hide Off;
  }

  lemma FetchedStep(words: seq<nat>, pool: seq<Constant>, s: State, i: Ins, n: nat)
    requires s.Running? && Fetch(words, pool, s.pc) == Some((i, n))
    ensures WordStep(words, pool, s) == Exec(i, s.pc + n, s.stack, s.env)
  {
    hide Exec, Fetch;
  }

  lemma FetchedNone(words: seq<nat>, pool: seq<Constant>, s: State)
    requires s.Running? && s.pc >= |words|
    ensures WordStep(words, pool, s) == Crashed(s.env)
  {
  }

  lemma OffTwo(v: Insns)
    requires |v| >= 2 && Size(v[0]) == 2 && Size(v[1]) == 2
    ensures Off(v, 0) == 0 && Off(v, 1) == 2 && Off(v, 2) == 4
  {
  }

  // What is fetched at the start of an instruction, wherever its jump may land.
  lemma FetchAt(v: Insns, pool: seq<Constant>, i: nat, ins: Ins)
    requires i < |v| && WellSized(v[i]) && Decode(v[i].code, v[i].operands, pool, Off(v, i)) == Some(ins)
    ensures Fetch(Flatten(v), pool, Off(v, i)) == Some((ins, Size(v[i])))
  {
    hide Off, Flatten, Decode, Written, WordsRead;
    CountsAgree(v[i].code);
    FlattenAt(v, i);
    var words, a, b := Flatten(v), Off(v, i), Off(v, i + 1);
    assert words[a] == words[a..b][0];
    assert words[a + 1..b] == words[a..b][1..];
  }

  // The words do not do what the program does, if that halts and they crash.
  lemma NotAlike(words: seq<nat>, pool: seq<Constant>, p: Program)
    requires TreeEndsIn(p, X_FALSE, Halted(X_FALSE)) && WordsEndIn(words, pool, Start(X_FALSE), Crashed(X_FALSE))
    ensures !RunsAlike(words, pool, p)
  {
    hide WordsEndIn, TreeEndsIn;
    if RunsAlike(words, pool, p) {
      OneEnd(words, pool, Start(X_FALSE), Halted(X_FALSE), Crashed(X_FALSE));
    }
  }

  // ---------- while (x) { if (true) {} } ----------

  const WHILE_TEST: Program :=
    [Item.Plain(While(Variable("x"), Block(More(If(True, Block(Stmts.None)), Stmts.None))))]

  const WHILE_LIST: Insns := [
    Insn(OP_GET_GLOBAL, [0], false, true, To(1), NoLink), Insn(OP_JUMP_IF_FALSE, [6], false, true, NoLink, To(4)),
    Insn(OP_TRUE, [], false, false, NoLink, NoLink), Insn(OP_JUMP_IF_FALSE, [1], false, false, NoLink, To(3)),
    Insn(OP_LOOP, [7], false, true, To(0), NoLink), Insn(OP_LEAVE, [], false, true, NoLink, NoLink)]

  const X_POOL: seq<Constant> := [StringConst("x")]

  // The list after the test, after the body, and before the jump out is patched.
  const WHILE_TESTED := Draft([
    Insn(OP_GET_GLOBAL, [0], false, false, NoLink, NoLink), Insn(OP_JUMP_IF_FALSE, [0], false, true, NoLink, NoLink)],
    X_POOL, map["x" := 0], false)

  const WHILE_BODY := Draft([
    Insn(OP_GET_GLOBAL, [0], false, false, NoLink, NoLink), Insn(OP_JUMP_IF_FALSE, [0], false, true, NoLink, NoLink),
    Insn(OP_TRUE, [], false, false, NoLink, NoLink), Insn(OP_JUMP_IF_FALSE, [1], false, false, NoLink, To(3))],
    X_POOL, map["x" := 0], true)

  const WHILE_LOOPED := Draft([
    Insn(OP_GET_GLOBAL, [0], false, true, To(1), NoLink), Insn(OP_JUMP_IF_FALSE, [0], false, true, NoLink, NoLink),
    Insn(OP_TRUE, [], false, false, NoLink, NoLink), Insn(OP_JUMP_IF_FALSE, [1], false, false, NoLink, To(3)),
    Insn(OP_LOOP, [7], false, true, To(0), NoLink)],
    X_POOL, map["x" := 0], false)

  lemma WhileOffsets(v: Insns)
    requires |v| >= 4 && Size(v[0]) == 2 && Size(v[1]) == 2 && Size(v[2]) == 1 && Size(v[3]) == 2
    ensures Off(v, 0) == 0 && Off(v, 1) == 2 && Off(v, 2) == 4 && Off(v, 3) == 5 && Off(v, 4) == 7
  {
    OffNext(v, 0);
    OffNext(v, 1);
    OffNext(v, 2);
    OffNext(v, 3);
  }

  lemma TestEmitted()
    ensures ExprDraft(EMPTY_DRAFT, Variable("x")) == Named(EMPTY_DRAFT, OP_GET_GLOBAL, "x")
    ensures Opened(ExprDraft(EMPTY_DRAFT, Variable("x")), OP_JUMP_IF_FALSE, true) == WHILE_TESTED
  {
    assert [] + [StringConst("x")] == X_POOL;
  }

  lemma InnerEmitted()
    ensures StmtDraft(WHILE_TESTED, If(True, Block(Stmts.None))) == WHILE_BODY
  {
    hide Off;
    var t := ExprDraft(WHILE_TESTED, True);
    assert t == Simple(WHILE_TESTED, OP_TRUE);
    var o := Opened(t, OP_JUMP_IF_FALSE, false);
    assert StmtsDraft(o, Stmts.None) == o;
    assert StmtDraft(o, Block(Stmts.None)) == o;
    assert Distance(o.v, 3, 3) == 0;
    assert PatchedNext(o, 3) == WHILE_BODY;
  }

  lemma LoopEmitted()
    ensures Looped(Noted(WHILE_BODY, 0, 1), 0) == WHILE_LOOPED
  {
    hide Off;
    WhileOffsets(Noted(WHILE_BODY, 0, 1).v);
  }

  lemma ExitEmitted()
    ensures PatchedNext(WHILE_LOOPED, 1) == WHILE_LOOPED.(v := WHILE_LIST[..5], label_ := true)
  {
    hide Off;
    WhileOffsets(WHILE_LOOPED.v);
  }

  lemma WhileEmitted()
    ensures ProgramDraft(WHILE_TEST).v == WHILE_LIST && ProgramDraft(WHILE_TEST).pool == X_POOL
  {
    hide Off, Opened, PatchedNext, Looped, Noted, Named;
    TestEmitted();
    InnerEmitted();
    LoopEmitted();
    ExitEmitted();
    var inner, d := If(True, Block(Stmts.None)), WHILE_LOOPED.(v := WHILE_LIST[..5], label_ := true);
    BodyEmitted(inner);
    assert StmtDraft(EMPTY_DRAFT, While(Variable("x"), Block(More(inner, Stmts.None)))) == d;
    OneItem(WHILE_TEST[0], EMPTY_DRAFT);
    assert [WHILE_TEST[0]] == WHILE_TEST;
    assert WHILE_LIST[..5] + [WHILE_LIST[5]] == WHILE_LIST;
  }

  lemma BodyEmitted(inner: Stmt)
    ensures StmtDraft(WHILE_TESTED, Block(More(inner, Stmts.None))) == StmtDraft(WHILE_TESTED, inner)
  {
    assert StmtsDraft(StmtDraft(WHILE_TESTED, inner), Stmts.None) == StmtDraft(WHILE_TESTED, inner);
  }

  lemma OneItem(i: Item, d: Draft)
    ensures ItemsDraft(d, [i]) == ItemDraft(d, i)
  {
    hide ItemDraft;
    assert [i][..0] == [];
  }

  // The optimizer turns the test of the `if` into a pop, and nothing else.
  lemma WhileOptimized(keepUnused: bool)
    ensures var s := Listing(WHILE_LIST, X_POOL);
      Optimized(s, 0, [], keepUnused) == Finished(s.(v := JumpPopped(WHILE_LIST, 3)), [PopJump(3)])
  {
    hide FoldConstant;
    var s := Listing(WHILE_LIST, X_POOL);
    var t := s.(v := JumpPopped(WHILE_LIST, 3));
    assert Choose(s, 0, keepUnused) == Skip && Choose(s, 1, keepUnused) == Skip && Choose(s, 2, keepUnused) == Skip;
    assert Choose(s, 3, keepUnused) == Do(PopJump(3), 4);
    assert Choose(t, 4, keepUnused) == Skip && Choose(t, 5, keepUnused) == Skip;
    WhileSteps(s, t, keepUnused);
  }

  lemma WhileSteps(s: Listing, t: Listing, keepUnused: bool)
    requires |s.v| == 6 && |t.v| == 6 && Enabled(s, PopJump(3)) && Apply(s, PopJump(3)) == Some(t)
    requires Choose(s, 0, keepUnused) == Skip && Choose(s, 1, keepUnused) == Skip && Choose(s, 2, keepUnused) == Skip
    requires Choose(s, 3, keepUnused) == Do(PopJump(3), 4)
    requires Choose(t, 4, keepUnused) == Skip && Choose(t, 5, keepUnused) == Skip
    ensures Optimized(s, 0, [], keepUnused) == Finished(t, [PopJump(3)])
  {
    hide Choose, Enabled, Apply;
    assert Optimized(t, 6, [PopJump(3)], keepUnused) == Finished(t, [PopJump(3)]);
    assert Optimized(t, 4, [PopJump(3)], keepUnused) == Optimized(t, 5, [PopJump(3)], keepUnused)
        == Optimized(t, 6, [PopJump(3)], keepUnused);
    assert [] + [PopJump(3)] == [PopJump(3)];
    assert Optimized(s, 3, [], keepUnused) == Optimized(t, 4, [PopJump(3)], keepUnused);
    assert Optimized(s, 0, [], keepUnused) == Optimized(s, 1, [], keepUnused) == Optimized(s, 2, [], keepUnused)
        == Optimized(s, 3, [], keepUnused);
  }

  lemma WhileHalts()
    ensures TreeEndsIn(WHILE_TEST, X_FALSE, Halted(X_FALSE))
  {
    assert RunStmt(WHILE_TEST[0].s, X_FALSE, 1) == Done(X_FALSE);
    assert WHILE_TEST[1..] == [];
    assert RunProgram(WHILE_TEST, X_FALSE, 1) == Done(X_FALSE);
  }

  // The compiler's words for `while (x) { if (true) {} }`, not optimized, do what the
  // program does.  Optimized, they do not: the jump out of the loop, which spanned the
  // word that was lost, lands beyond the last word, and the machine crashes where the
  // program ends.
  method SpannedJumpGoesAstray(noRemoveUnusedExpressions: bool) returns (words: seq<nat>, pool: seq<Constant>,
      astray: seq<nat>)
    ensures RunsAlike(words, pool, WHILE_TEST) && !RunsAlike(astray, pool, WHILE_TEST)
    ensures WordsEndIn(words, pool, Start(X_FALSE), Halted(X_FALSE))
    ensures WordsEndIn(astray, pool, Start(X_FALSE), Crashed(X_FALSE))
  {
    hide RunsAlike, WordsEndIn, TreeEndsIn, Flatten, Optimized, ProgramDraft;
    WhileEmitted();
    WhileOptimized(noRemoveUnusedExpressions);
    var finished, stray;
    ghost var s, t, trace;
    finished, words, pool, s, t, trace := CompileProgram(WHILE_TEST, true, noRemoveUnusedExpressions);
    finished, astray, stray, s, t, trace := CompileProgram(WHILE_TEST, false, noRemoveUnusedExpressions);
    WhileStrays(t.v);
    StrayCrashes(t.v, X_POOL);
    WhileHalts();
    NotAlike(astray, pool, WHILE_TEST);
    AlikeHalts(words, pool, WHILE_TEST);
  }

  lemma AlikeHalts(words: seq<nat>, pool: seq<Constant>, p: Program)
    requires RunsAlike(words, pool, p) && TreeEndsIn(p, X_FALSE, Halted(X_FALSE))
    ensures WordsEndIn(words, pool, Start(X_FALSE), Halted(X_FALSE))
  {
    hide WordsEndIn, TreeEndsIn;
  }

  lemma WhileStrays(v: Insns)
    requires v == JumpPopped(WHILE_LIST, 3)
    ensures StrayTest(v, X_POOL)
  {
    hide Off;
    OffNext(v, 5);
    OffNext(v, 4);
    OffNext(v, 3);
    OffNext(v, 2);
    OffTwo(v);
  }

  // ---------- if (x) {} 5; ----------

  const CONSTANT_AFTER_IF: Program := [Item.Plain(If(Variable("x"), Block(Stmts.None))),
    Item.Plain(ExprStmt(Number(5.0)))]

  const IF_POOL: seq<Constant> := [StringConst("x"), NumberConst(5.0)]

  const IF_LIST: Insns := [
    Insn(OP_GET_GLOBAL, [0], false, false, NoLink, NoLink), Insn(OP_JUMP_IF_FALSE, [1], false, false, NoLink, To(1)),
    Insn(OP_CONSTANT, [1], true, true, NoLink, NoLink), Insn(OP_POP, [], false, false, NoLink, NoLink),
    Insn(OP_LEAVE, [], false, false, NoLink, NoLink)]

  lemma IfEmitted()
    ensures ProgramDraft(CONSTANT_AFTER_IF).v == IF_LIST && ProgramDraft(CONSTANT_AFTER_IF).pool == IF_POOL
  {
    hide ExprDraft, StmtDraft;
    var d := Draft(IF_LIST[..2], X_POOL, map["x" := 0], true);
    EmptyIf();
    var e := Draft(IF_LIST[..4], IF_POOL, map["x" := 0], false);
    FiveEmitted();
    assert ItemDraft(EMPTY_DRAFT, CONSTANT_AFTER_IF[0]) == d && ItemDraft(d, CONSTANT_AFTER_IF[1]) == e;
    OneItem(CONSTANT_AFTER_IF[0], EMPTY_DRAFT);
    assert CONSTANT_AFTER_IF[..1] == [CONSTANT_AFTER_IF[0]];
    assert IF_LIST[..4] + [IF_LIST[4]] == IF_LIST;
  }

  lemma EmptyIf()
    ensures StmtDraft(EMPTY_DRAFT, If(Variable("x"), Block(Stmts.None)))
      == Draft(IF_LIST[..2], X_POOL, map["x" := 0], true)
  {
    hide Off;
    var test := ExprDraft(EMPTY_DRAFT, Variable("x"));
    assert test == Named(EMPTY_DRAFT, OP_GET_GLOBAL, "x");
    assert [] + [StringConst("x")] == X_POOL;
    var o := Opened(test, OP_JUMP_IF_FALSE, false);
    assert StmtsDraft(o, Stmts.None) == o;
    assert StmtDraft(o, Block(Stmts.None)) == o;
    assert Distance(o.v, 1, 1) == 0;
    assert PatchedNext(o, 1).v == IF_LIST[..2];
  }

  lemma FiveEmitted()
    ensures var d := Draft(IF_LIST[..2], X_POOL, map["x" := 0], true);
      StmtDraft(d, ExprStmt(Number(5.0))) == Draft(IF_LIST[..4], IF_POOL, map["x" := 0], false)
  {
    var d := Draft(IF_LIST[..2], X_POOL, map["x" := 0], true);
    assert ExprDraft(d, Number(5.0)) == NumberDraft(d, 5.0);
    assert X_POOL + [NumberConst(5.0)] == IF_POOL;
    assert IF_LIST[..2] + [IF_LIST[2]] + [IF_LIST[3]] == IF_LIST[..4];
  }

  lemma StrayRemovals(v: Insns) returns (w: Insns)
    requires v == IF_LIST
    ensures UnusedRemovable(v, 2) && w == UnusedDropped(v, 2) && |w| == 3
    ensures w[0] == v[0] && w[1].code == OP_JUMP_IF_FALSE && w[1].operands == [WORD_LIMIT - 2] && w[2].code == OP_LEAVE
  {
    var once := Insn(OP_JUMP_IF_FALSE, [WORD_LIMIT - 1], false, false, To(3), To(1));
    assert Recorded(v, 1) == Some(2) && PatchForRemoval(v, 2, 1) == Some(once);
    assert PatchForRemoval(v, 2, 0) == Some(v[0]) && PatchForRemoval(v, 2, 3) == Some(v[3])
      && PatchForRemoval(v, 2, 4) == Some(v[4]);
    var u := Removed(v, 2);
    assert u[0] == v[0] && u[1] == once.(jumpTo := To(2)) && u[2] == v[3] && u[3] == v[4];
    var twice := u[1].(operands := [WORD_LIMIT - 2], jumpTo := To(3));
    assert Recorded(u, 1) == Some(2) && PatchForRemoval(u, 2, 1) == Some(twice);
    assert PatchForRemoval(u, 2, 0) == Some(u[0]) && PatchForRemoval(u, 2, 3) == Some(u[3]);
    w := Removed(u, 2);
    assert w[0] == u[0] && w[1].operands == twice.operands;
  }

  // The optimizer removes the number and its pop, and nothing else.
  lemma IfOptimized() returns (w: Insns)
    ensures UnusedRemovable(IF_LIST, 2) && w == UnusedDropped(IF_LIST, 2)
    ensures |w| == 3 && w[0] == IF_LIST[0] && w[1].code == OP_JUMP_IF_FALSE && w[1].operands == [WORD_LIMIT - 2]
    ensures w[2].code == OP_LEAVE
    ensures Optimized(Listing(IF_LIST, IF_POOL), 0, [], false) == Finished(Listing(w, IF_POOL), [DropUnused(2)])
  {
    hide FoldConstant, Removed, Removable, UnusedDropped, UnusedRemovable;
    var s := Listing(IF_LIST, IF_POOL);
    w := StrayRemovals(IF_LIST);
    var t := Listing(w, IF_POOL);
    assert Choose(s, 0, false) == Skip && Choose(s, 1, false) == Skip && Choose(s, 2, false) == Skip;
    assert Choose(s, 3, false) == Do(DropUnused(2), 0);
    assert Choose(t, 0, false) == Skip && Choose(t, 1, false) == Skip && Choose(t, 2, false) == Skip;
    IfSteps(s, t);
  }

  lemma IfSteps(s: Listing, t: Listing)
    requires |s.v| == 5 && |t.v| == 3 && Enabled(s, DropUnused(2)) && Apply(s, DropUnused(2)) == Some(t)
    requires Choose(s, 0, false) == Skip && Choose(s, 1, false) == Skip && Choose(s, 2, false) == Skip
    requires Choose(s, 3, false) == Do(DropUnused(2), 0)
    requires Choose(t, 0, false) == Skip && Choose(t, 1, false) == Skip && Choose(t, 2, false) == Skip
    ensures Optimized(s, 0, [], false) == Finished(t, [DropUnused(2)])
  {
    hide Choose, Enabled, Apply;
    var trace := [DropUnused(2)];
    assert Optimized(t, 3, trace, false) == Finished(t, trace);
    assert Optimized(t, 0, trace, false) == Optimized(t, 1, trace, false) == Optimized(t, 2, trace, false)
        == Optimized(t, 3, trace, false);
    assert [] + trace == trace;
    assert Optimized(s, 3, [], false) == Optimized(t, 0, trace, false);
    assert Optimized(s, 0, [], false) == Optimized(s, 1, [], false) == Optimized(s, 2, [], false)
      == Optimized(s, 3, [], false);
  }

  lemma IfHalts()
    ensures TreeEndsIn(CONSTANT_AFTER_IF, X_FALSE, Halted(X_FALSE))
  {
    var rest := CONSTANT_AFTER_IF[1..];
    assert RunStmt(CONSTANT_AFTER_IF[0].s, X_FALSE, 0) == Done(X_FALSE);
    assert rest[0] == Item.Plain(ExprStmt(Number(5.0))) && rest[1..] == [];
    assert RunStmt(ExprStmt(Number(5.0)), X_FALSE, 0) == Done(X_FALSE);
    assert RunProgram(rest, X_FALSE, 0) == Done(X_FALSE);
    assert RunProgram(CONSTANT_AFTER_IF, X_FALSE, 0) == Done(X_FALSE);
  }

  lemma IfStrays(v: Insns)
    requires |v| == 3 && v[0] == IF_LIST[0] && v[1].code == OP_JUMP_IF_FALSE && v[1].operands == [WORD_LIMIT - 2]
    requires |v[2].operands| < 4
    ensures StrayTest(v, IF_POOL)
  {
    hide Off;
    OffNext(v, 2);
    OffTwo(v);
  }

  // The compiler's words for `if (x) {} 5;`, not optimized, do what the program does.
  // Optimized, they do not: the number the test jumps to is removed, the jump is patched
  // twice although its target does not move, and lands far beyond the last word.
  method RecordedConstantGoesAstray() returns (words: seq<nat>, pool: seq<Constant>, astray: seq<nat>)
    ensures RunsAlike(words, pool, CONSTANT_AFTER_IF) && !RunsAlike(astray, pool, CONSTANT_AFTER_IF)
    ensures WordsEndIn(words, pool, Start(X_FALSE), Halted(X_FALSE))
    ensures WordsEndIn(astray, pool, Start(X_FALSE), Crashed(X_FALSE))
  {
    hide RunsAlike, WordsEndIn, TreeEndsIn, Flatten, Optimized, ProgramDraft;
    IfEmitted();
    ghost var w := IfOptimized();
    var finished, stray;
    ghost var s, t, trace;
    finished, words, pool, s, t, trace := CompileProgram(CONSTANT_AFTER_IF, true, false);
    finished, astray, stray, s, t, trace := CompileProgram(CONSTANT_AFTER_IF, false, false);
    LeaveSize(IF_LIST, w);
    IfStrays(w);
    StrayCrashes(w, IF_POOL);
    IfHalts();
    NotAlike(astray, pool, CONSTANT_AFTER_IF);
    AlikeHalts(words, pool, CONSTANT_AFTER_IF);
  }

  lemma LeaveSize(v: Insns, w: Insns)
    requires v == IF_LIST && UnusedRemovable(v, 2) && w == UnusedDropped(v, 2) && |w| == 3
    ensures |w[2].operands| == 0
  {
    hide Removed, Removable;
    RemovedSame(v, 2, 3);
    RemovedSame(Removed(v, 2), 2, 2);
  }
}
