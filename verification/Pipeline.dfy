// From a tree to the words the machine runs.
module Pipeline {
  import opened Opcodes
  import opened Machine
  import opened Ast
  import opened Compile
  import opened Code
  import opened Patch
  import opened Simplify
  import opened Optimizer
  import opened OptimizerRuns
  import opened Iseqs
  import opened IseqOptimizer
  import opened Chunks
  import opened Emission
  import opened Drafts
  import opened Emitters

  // Running the words comes to the same end as running the tree, or neither ends.
  ghost predicate RunsAlike(words: seq<nat>, pool: seq<Constant>, p: Program) {
    forall env, end :: WordsEndIn(words, pool, Start(env), end) <==> TreeEndsIn(p, env, end)
  }

  lemma CompiledWordsRunAlike(v: Insns, pool: seq<Constant>, p: Program)
    requires AllMean(v, pool, ProgramCode(p))
    ensures RunsAlike(Flatten(v), pool, p)
  {
    hide AllMean, EndsIn, WordsEndIn, TreeEndsIn, ProgramCode;
    forall env, end ensures WordsEndIn(Flatten(v), pool, Start(env), end) <==> TreeEndsIn(p, env, end) {
      WordsRunAlike(v, pool, ProgramCode(p), env, end);
      CompiledRunsAlike(p, env, end);
    }
  }

  // So do the words that any sound run of the optimizer leaves.
  lemma OptimizedWordsRunAlike(s: Listing, p: Program, trace: seq<Action>, t: Listing)
    requires InOrder(s, ProgramCode(p)) && Leads(s, trace, t) && SoundRun(s, ProgramCode(p), trace)
    ensures RunsAlike(Flatten(t.v), t.pool, p)
  {
    hide InOrder, AllMean, EndsIn, WordsEndIn, TreeEndsIn, ProgramCode, Leads, SoundRun;
    OrderSize(s, ProgramCode(p));
    CompiledWordsRunAlike(s.v, s.pool, p);
    forall env, end ensures WordsEndIn(Flatten(t.v), t.pool, Start(env), end) <==> TreeEndsIn(p, env, end) {
      OptimizedRunsAlike(s, ProgramCode(p), trace, t, env, end);
    }
  }

  // ---------- conditional jumps behind their values ----------

  predicate LeavesValue(i: Ins) {
    !i.Pop? && Target(i).None?
  }

  predicate FedIns(p: seq<Ins>) {
    forall i | 0 <= i < |p| && p[i].JumpIfFalse? :: i > 0 && LeavesValue(p[i - 1])
  }

  // Code without conditional jumps that ends by leaving a value.
  predicate PlainValue(code: seq<Ins>) {
    code != [] && LeavesValue(code[|code| - 1]) && NoTest(code)
  }

  predicate NoTest(code: seq<Ins>) {
    forall i | 0 <= i < |code| :: !code[i].JumpIfFalse?
  }

  lemma PlainThen(a: seq<Ins>, b: seq<Ins>)
    requires NoTest(a) && PlainValue(b)
    ensures PlainValue(a + b)
  {
  }

  lemma PlainThree(a: seq<Ins>, b: seq<Ins>, c: seq<Ins>)
    requires NoTest(a) && PlainValue(b) && PlainValue(c)
    ensures PlainValue(a + b + c)
  {
    PlainThen(a, b);
    PlainThen(a + b, c);
  }

  lemma {:induction false} ExprPlain(e: Expr, lo: nat)
    ensures PlainValue(ExprCode(e, lo))
    decreases e
  {
    hide PlainValue, NoTest;
    match e
    case Grouping(e1) => ExprPlain(e1, lo);
    case Assign(x, e1) =>
      ExprPlain(e1, lo);
      UnaryPlain(ExprCode(e1, lo), SetGlobal(x));
    case OpAssign(x, op, e1) =>
      ExprPlain(e1, lo + 1);
      OpAssignPlain(ExprCode(e1, lo + 1), x, op);
    case Minus(e1) =>
      ExprPlain(e1, lo);
      UnaryPlain(ExprCode(e1, lo), Negate);
    case Bang(e1) =>
      ExprPlain(e1, lo);
      UnaryPlain(ExprCode(e1, lo), Not);
    case Binary(_, _, _) => BinaryPlain(e, lo);
    case Comparison(_, _, _) => BinaryPlain(e, lo);
    case AndExpr(_, _) => AndOrPlain(e, lo);
    case OrExpr(_, _) => AndOrPlain(e, lo);
    case _ => LeafPlain(e, lo);
  }

  lemma LeafPlain(e: Expr, lo: nat)
    requires e.Number? || e.True? || e.False? || e.NilLiteral? || e.Variable?
    ensures PlainValue(ExprCode(e, lo))
  {
  }

  lemma UnaryPlain(c: seq<Ins>, i: Ins)
    requires PlainValue(c) && LeavesValue(i) && !i.JumpIfFalse?
    ensures PlainValue(c + [i])
  {
    PlainThen(c, [i]);
  }

  lemma OpAssignPlain(c: seq<Ins>, x: string, op: ArithOp)
    requires PlainValue(c)
    ensures PlainValue([GetGlobal(x)] + c + [Arith(op), SetGlobal(x)])
  {
    PlainThree([GetGlobal(x)], c, [Arith(op), SetGlobal(x)]);
  }

  lemma {:induction false} BinaryPlain(e: Expr, lo: nat)
    requires e.Binary? || e.Comparison?
    ensures PlainValue(ExprCode(e, lo))
    decreases e, 0
  {
    hide PlainValue, NoTest, ExprCode;
    var l := ExprCode(e.left, lo);
    ExprPlain(e.left, lo);
    ExprPlain(e.right, lo + |l|);
    BinaryCode(e, lo);
    OperandsPlain(l, ExprCode(e.right, lo + |l|), if e.Binary? then Arith(e.aop) else Cmp(e.cop));
  }

  lemma {:induction false} AndOrPlain(e: Expr, lo: nat)
    requires e.AndExpr? || e.OrExpr?
    ensures PlainValue(ExprCode(e, lo))
    decreases e, 0
  {
    hide PlainValue, NoTest, ExprCode;
    var l := ExprCode(e.left, lo);
    var r := ExprCode(e.right, lo + |l| + 1);
    var t := lo + |l| + 1 + |r| + 1;
    ExprPlain(e.left, lo);
    ExprPlain(e.right, lo + |l| + 1);
    LogicalParts(e, lo);
    LogicalPlain(l, r, if e.AndExpr? then JumpIfFalsePeek(t) else JumpIfTruePeek(t), if e.AndExpr? then And else Or);
  }

  lemma OperandsPlain(l: seq<Ins>, r: seq<Ins>, i: Ins)
    requires PlainValue(l) && PlainValue(r) && LeavesValue(i) && !i.JumpIfFalse?
    ensures PlainValue(l + r + [i])
  {
    PlainThree(l, r, [i]);
  }

  lemma LogicalPlain(l: seq<Ins>, r: seq<Ins>, jump: Ins, join: Ins)
    requires PlainValue(l) && PlainValue(r) && !jump.JumpIfFalse? && LeavesValue(join) && !join.JumpIfFalse?
    ensures PlainValue(l + [jump] + r + [join])
  {
    PlainThree(l + [jump], r, [join]);
  }

  lemma FedThen(a: seq<Ins>, b: seq<Ins>)
    requires FedIns(a) && FedIns(b)
    ensures FedIns(a + b)
  {
    forall i | 0 <= i < |a + b| && (a + b)[i].JumpIfFalse? ensures i > 0 && LeavesValue((a + b)[i - 1]) {
      if i >= |a| {
        assert b[i - |a|].JumpIfFalse?;
      }
    }
  }

  lemma OneFed(i: Ins)
    requires !i.JumpIfFalse?
    ensures FedIns([i])
  {
  }

  lemma PlainFed(e: Expr, lo: nat, i: Ins)
    requires !i.JumpIfFalse?
    ensures FedIns(ExprCode(e, lo) + [i])
  {
    hide ExprCode;
    ExprPlain(e, lo);
  }

  // A condition, its jump and what comes after are fed.
  lemma ConditionFed(c: Expr, lo: nat, t: nat, rest: seq<Ins>)
    requires FedIns(rest)
    ensures FedIns(ExprCode(c, lo) + [JumpIfFalse(t)] + rest)
  {
    hide ExprCode;
    ExprPlain(c, lo);
    FedThen(ExprCode(c, lo) + [JumpIfFalse(t)], rest);
  }

  lemma {:induction false} StmtFed(s: Stmt, lo: nat)
    ensures FedIns(StmtCode(s, lo))
    decreases s
  {
    hide ExprCode, FedIns, PlainValue;
    match s
    case ExprStmt(e) => PlainFed(e, lo, Pop(1));
    case PrintStmt(e) => PlainFed(e, lo, Print);
    case If(c, t) =>
      var at := lo + |ExprCode(c, lo)| + 1;
      StmtFed(t, at);
      ConditionFed(c, lo, at + |StmtCode(t, at)|, StmtCode(t, at));
    case IfElse(c, t, e) =>
      var at := lo + |ExprCode(c, lo)| + 1;
      var tc := StmtCode(t, at);
      var mid := at + |tc| + 1;
      var ec := StmtCode(e, mid);
      StmtFed(t, at);
      StmtFed(e, mid);
      ConditionFed(c, lo, mid, tc);
      OneFed(Jump(mid + |ec|));
      FedThen(ExprCode(c, lo) + [JumpIfFalse(mid)] + tc, [Jump(mid + |ec|)]);
      FedThen(ExprCode(c, lo) + [JumpIfFalse(mid)] + tc + [Jump(mid + |ec|)], ec);
    case While(c, b) =>
      var at := lo + |ExprCode(c, lo)| + 1;
      var bc := StmtCode(b, at);
      StmtFed(b, at);
      ConditionFed(c, lo, at + |bc| + 1, bc);
      OneFed(Loop(lo));
      FedThen(ExprCode(c, lo) + [JumpIfFalse(at + |bc| + 1)] + bc, [Loop(lo)]);
    case Block(ss) => StmtsFed(ss, lo);
  }

  lemma {:induction false} StmtsFed(ss: Stmts, lo: nat)
    ensures FedIns(StmtsCode(ss, lo))
    decreases ss
  {
    match ss
    case None =>
    case More(s, rest) =>
      StmtFed(s, lo);
      StmtsFed(rest, lo + |StmtCode(s, lo)|);
      FedThen(StmtCode(s, lo), StmtsCode(rest, lo + |StmtCode(s, lo)|));
  }

  lemma {:induction false} ItemsFed(p: Program, lo: nat)
    ensures FedIns(ItemsCode(p, lo))
    decreases |p|
  {
    if p != [] {
      var c := ItemCode(p[0], lo);
      match p[0] {
        case VarStmt(x) =>
        case VarInit(x, e) => PlainFed(e, lo, DefineGlobal(x));
        case Plain(s) => StmtFed(s, lo);
      }
      ItemsFed(p[1..], lo + |c|);
      FedThen(c, ItemsCode(p[1..], lo + |c|));
    }
  }

  lemma MeansFed(v: Insns, pool: seq<Constant>, p: seq<Ins>)
    requires AllMean(v, pool, p) && FedIns(p)
    ensures Fed(v)
  {
    hide Means;
    forall i | 0 <= i < |v| && v[i].code == OP_JUMP_IF_FALSE
      ensures i > 0 && !IsPopType(v[i - 1]) && !IsJump(v[i - 1].code)
    {
      assert Means(v, pool, i, p[i]);
      JumpShape(v, pool, i, p[i]);
      assert Means(v, pool, i - 1, p[i - 1]);
      MeansNoJump(v, pool, i - 1, p[i - 1]);
      if IsPopType(v[i - 1]) {
        PopMeans(v, pool, i - 1, p[i - 1]);
      }
    }
  }

  // What the optimizer leaves of a program holds nothing that could be folded, no pops that
  // could be fused and no jump that the value pushed before it decides, but for labelled
  // ones; nor, where they are to be removed, an unused constant, unless a jump was turned
  // into a pop.
  lemma ProgramSettles(s: Listing, p: Program, keepUnused: bool)
    requires InOrder(s, ProgramCode(p))
    ensures var o := Optimized(s, 0, [], keepUnused); o.Finished? ==> Clean(o.s)
    ensures var o := Optimized(s, 0, [], keepUnused);
      o.Finished? && !keepUnused && NonePopped(o.trace) ==> NothingUnused(o.s)
  {
    hide AllMean, Optimized, Linkable, Labelled, NoTargetAfterValue, Clean, OwnNumbers, NothingUnused, NonePopped;
    OrderSize(s, ProgramCode(p));
    ItemsFed(p, 0);
    FedThen(ItemsCode(p, 0), [Leave]);
    MeansFed(s.v, s.pool, ProgramCode(p));
    NothingLeft(s, 0, [], keepUnused);
    var o := Optimized(s, 0, [], keepUnused);
    if o.Finished? {
      SettledClean(o.s);
    }
    if !keepUnused {
      NoneUnused(s, 0, []);
    }
  }

  ghost predicate OnlyFoldsAndFuses(trace: seq<Action>) {
    forall i | 0 <= i < |trace| :: trace[i].Fold? || trace[i].Fuse?
  }

  // Compiles a program.  Not optimized, the words run like the tree; optimized, they do
  // whenever each step the optimizer took was sound, as folding and fusing always are.
  method CompileProgram(p: Program, noOptimize: bool, noRemoveUnusedExpressions: bool)
    returns (finished: bool, words: seq<nat>, pool: seq<Constant>, ghost s: Listing, ghost t: Listing,
      ghost trace: seq<Action>)
    ensures s == Listing(ProgramDraft(p).v, ProgramDraft(p).pool)
    ensures AllMean(s.v, s.pool, ProgramCode(p)) && (finished ==> words == Flatten(t.v) && pool == t.pool)
    ensures noOptimize ==> finished && t == s && RunsAlike(words, pool, p)
    ensures noOptimize ==> words == Flatten(ProgramDraft(p).v) && pool == ProgramDraft(p).pool
    ensures !noOptimize ==> (finished <==> Optimized(s, 0, [], noRemoveUnusedExpressions).Finished?)
    ensures !noOptimize && finished ==> Optimized(s, 0, [], noRemoveUnusedExpressions) == Finished(t, trace)
    ensures !noOptimize && finished && Off(s.v, |s.v|) < WORD_LIMIT ==> Clean(t)
    ensures !noOptimize && !noRemoveUnusedExpressions && finished && Off(s.v, |s.v|) < WORD_LIMIT ==>
      NonePopped(trace) ==> NothingUnused(t)
    ensures finished && Off(s.v, |s.v|) < WORD_LIMIT && SoundRun(s, ProgramCode(p), trace) ==> RunsAlike(words, pool, p)
    ensures finished && Off(s.v, |s.v|) < WORD_LIMIT && OnlyFoldsAndFuses(trace) ==> RunsAlike(words, pool, p)
  {
    hide AllMean, InOrder, RunsAlike, ProgramCode, Leads, SoundRun, Off, Flatten, Clean, NothingUnused,
      NonePopped, Optimized, ProgramDraft;
    var emitter := new Emitter();
    emitter.EmitProgram(p);
    s := Now(emitter.iseq);
    var chunk := new Chunk();
    finished, trace := CopyIseqToChunk(emitter.iseq, chunk, noOptimize, noRemoveUnusedExpressions);
    t := Now(emitter.iseq);
    words, pool := [], emitter.iseq.constants;
    if finished {
      words := chunk.code[..chunk.count];
      assert words == Flatten(t.v);
      CompiledWordsRunAlike(s.v, s.pool, p);
      Untouched(s, trace, t);
      if Off(s.v, |s.v|) < WORD_LIMIT {
        ProgramSettles(s, p, noRemoveUnusedExpressions);
        if OnlyFoldsAndFuses(trace) {
          FoldAndFuseSound(s, ProgramCode(p), trace, t);
        }
        if SoundRun(s, ProgramCode(p), trace) {
          OptimizedWordsRunAlike(s, p, trace, t);
        }
      }
    }
  }

  lemma Untouched(s: Listing, trace: seq<Action>, t: Listing)
    requires Leads(s, trace, t)
    ensures trace == [] ==> s == t
  {
  }
}
