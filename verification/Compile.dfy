// The code a tree stands for, with jump targets as indexes, and the proof that
// running it on the machine is the same as running the tree.
module Compile {
  import opened Machine
  import opened Ast

  function ExprCode(e: Expr, lo: nat): (code: seq<Ins>)
    decreases e
  {
    match e
    case Number(r) => [Push(Num(r))]
    case True => [Push(Bool(true))]
    case False => [Push(Bool(false))]
    case NilLiteral => [Push(Nil)]
    case Grouping(e1) => ExprCode(e1, lo)
    case Variable(x) => [GetGlobal(x)]
    case Assign(x, e1) => ExprCode(e1, lo) + [SetGlobal(x)]
    case OpAssign(x, op, e1) => [GetGlobal(x)] + ExprCode(e1, lo + 1) + [Arith(op), SetGlobal(x)]
    case Binary(op, e1, e2) =>
      var l := ExprCode(e1, lo);
      l + ExprCode(e2, lo + |l|) + [Arith(op)]
    case Comparison(op, e1, e2) =>
      var l := ExprCode(e1, lo);
      l + ExprCode(e2, lo + |l|) + [Cmp(op)]
    case AndExpr(e1, e2) =>
      var l := ExprCode(e1, lo);
      var r := ExprCode(e2, lo + |l| + 1);
      l + [JumpIfFalsePeek(lo + |l| + 1 + |r| + 1)] + r + [And]
    case OrExpr(e1, e2) =>
      var l := ExprCode(e1, lo);
      var r := ExprCode(e2, lo + |l| + 1);
      l + [JumpIfTruePeek(lo + |l| + 1 + |r| + 1)] + r + [Or]
    case Minus(e1) => ExprCode(e1, lo) + [Negate]
    case Bang(e1) => ExprCode(e1, lo) + [Not]
  }

  function StmtCode(s: Stmt, lo: nat): (code: seq<Ins>)
    decreases s
  {
    match s
    case ExprStmt(e) => ExprCode(e, lo) + [Pop(1)]
    case PrintStmt(e) => ExprCode(e, lo) + [Print]
    case If(c, t) =>
      var cc := ExprCode(c, lo);
      var tc := StmtCode(t, lo + |cc| + 1);
      cc + [JumpIfFalse(lo + |cc| + 1 + |tc|)] + tc
    case IfElse(c, t, e) =>
      var cc := ExprCode(c, lo);
      var tc := StmtCode(t, lo + |cc| + 1);
      var mid := lo + |cc| + 1 + |tc| + 1;
      var ec := StmtCode(e, mid);
      cc + [JumpIfFalse(mid)] + tc + [Jump(mid + |ec|)] + ec
    case While(c, b) =>
      var cc := ExprCode(c, lo);
      var bc := StmtCode(b, lo + |cc| + 1);
      cc + [JumpIfFalse(lo + |cc| + 1 + |bc| + 1)] + bc + [Loop(lo)]
    case Block(ss) => StmtsCode(ss, lo)
  }

  function StmtsCode(ss: Stmts, lo: nat): (code: seq<Ins>)
    decreases ss
  {
    match ss
    case None => []
    case More(s, rest) =>
      var c := StmtCode(s, lo);
      c + StmtsCode(rest, lo + |c|)
  }

  function ItemCode(i: Item, lo: nat): (code: seq<Ins>) {
    match i
    case VarStmt(x) => [Push(Nil)] + [DefineGlobal(x)]
    case VarInit(x, e) => ExprCode(e, lo) + [DefineGlobal(x)]
    case Plain(s) => StmtCode(s, lo)
  }

  function ItemsCode(p: Program, lo: nat): (code: seq<Ins>)
    decreases |p|
  {
    if p == [] then [] else
    var c := ItemCode(p[0], lo);
    c + ItemsCode(p[1..], lo + |c|)
  }

  function ProgramCode(p: Program): (code: seq<Ins>) {
    ItemsCode(p, 0) + [Leave]
  }

  // ---------- code in place ----------

  // The code c lies at index lo of p.
  ghost predicate At(p: seq<Ins>, lo: nat, c: seq<Ins>) {
    lo + |c| <= |p| && p[lo..lo + |c|] == c
  }

  lemma AtSplit(p: seq<Ins>, lo: nat, a: seq<Ins>, b: seq<Ins>)
    requires At(p, lo, a + b)
    ensures At(p, lo, a) && At(p, lo + |a|, b)
  {
    assert p[lo..lo + |a|] == (a + b)[..|a|];
    assert p[lo + |a|..lo + |a| + |b|] == (a + b)[|a|..];
  }

  lemma AtOne(p: seq<Ins>, lo: nat, i: Ins)
    requires At(p, lo, [i])
    ensures lo < |p| && p[lo] == i
  {
    assert p[lo] == p[lo..lo + 1][0];
  }

  lemma AtSandwich(p: seq<Ins>, lo: nat, a: seq<Ins>, x: Ins, b: seq<Ins>, y: Ins)
    requires At(p, lo, a + [x] + b + [y])
    ensures At(p, lo, a) && At(p, lo + |a| + 1, b)
    ensures lo + |a| + 1 + |b| < |p| && p[lo + |a|] == x && p[lo + |a| + 1 + |b|] == y
  {
    hide At;
    AtSplit(p, lo, a + [x] + b, [y]);
    AtSplit(p, lo, a + [x], b);
    AtSplit(p, lo, a, [x]);
    AtOne(p, lo + |a|, x);
    AtOne(p, lo + |a| + 1 + |b|, y);
  }

  // Where running an expression's code from `stack` ends up.
  function AfterExpr(r: Result, hi: nat, stack: seq<Value>): State {
    match r
    case Value(v, env) => Running(hi, stack + [v], env)
    case Thrown(e, env) => Uncaught(e, env)
    case Wrong(env) => Crashed(env)
  }

  // Going on from an intermediate state: m steps to reach it and n after it.
  lemma Chain(p: seq<Ins>, s: State, m: nat, t: State, n: nat, u: State)
    requires Steps(p, s, m) == t && Steps(p, t, n) == u
    ensures Steps(p, s, m + n) == u
  {
    StepsAdd(p, s, m, n);
  }

  lemma OneStep(p: seq<Ins>, s: State)
    ensures Steps(p, s, 1) == Step(p, s)
  {
    assert Steps(p, Step(p, s), 0) == Step(p, s);
  }

  // One more instruction after a run that is still going.
  lemma ThenStep(p: seq<Ins>, s: State, m: nat, t: State)
    requires Steps(p, s, m) == t
    ensures Steps(p, s, m + 1) == Step(p, t)
  {
    OneStep(p, t);
    Chain(p, s, m, t, 1, Step(p, t));
  }

  // ---------- expressions ----------

  // The code of an expression leaves its value on top of the stack, or stops as it does.
  lemma {:induction false} ExprRuns(p: seq<Ins>, lo: nat, e: Expr, stack: seq<Value>, env: Env) returns (n: nat)
    requires At(p, lo, ExprCode(e, lo))
    ensures n >= 1
    ensures Steps(p, Running(lo, stack, env), n)
         == AfterExpr(Eval(e, env), lo + |ExprCode(e, lo)|, stack)
    decreases e, 2
  {
    hide Steps, At;
    match e
    case Number(_) => n := LeafRuns(p, lo, e, stack, env);
    case True => n := LeafRuns(p, lo, e, stack, env);
    case False => n := LeafRuns(p, lo, e, stack, env);
    case NilLiteral => n := LeafRuns(p, lo, e, stack, env);
    case Variable(_) => n := LeafRuns(p, lo, e, stack, env);
    case Grouping(e1) => n := ExprRuns(p, lo, e1, stack, env);
    case Assign(_, _) => n := UnaryRuns(p, lo, e, stack, env);
    case Minus(_) => n := UnaryRuns(p, lo, e, stack, env);
    case Bang(_) => n := UnaryRuns(p, lo, e, stack, env);
    case OpAssign(_, _, _) => n := OpAssignRuns(p, lo, e, stack, env);
    case Binary(_, _, _) => n := BinaryRuns(p, lo, e, stack, env);
    case Comparison(_, _, _) => n := BinaryRuns(p, lo, e, stack, env);
    case AndExpr(_, _) => n := LogicalRuns(p, lo, e, stack, env);
    case OrExpr(_, _) => n := LogicalRuns(p, lo, e, stack, env);
  }

  lemma LeafRuns(p: seq<Ins>, lo: nat, e: Expr, stack: seq<Value>, env: Env) returns (n: nat)
    requires e.Number? || e.True? || e.False? || e.NilLiteral? || e.Variable?
    requires At(p, lo, ExprCode(e, lo))
    ensures n >= 1
    ensures Steps(p, Running(lo, stack, env), n)
         == AfterExpr(Eval(e, env), lo + |ExprCode(e, lo)|, stack)
  {
    AtOne(p, lo, ExprCode(e, lo)[0]);
    OneStep(p, Running(lo, stack, env));
    n := 1;
  }

  // An operand and the instruction that takes it.
  function AfterUnary(r: Result, hi: nat, i: Ins, stack: seq<Value>): State {
    if r.Value? then Machine.Exec(i, hi + 1, stack + [r.v], r.env) else AfterExpr(r, hi, stack)
  }

  lemma UnaryRun(p: seq<Ins>, lo: nat, hi: nat, i: Ins, r: Result, m: nat, stack: seq<Value>, env: Env) returns (n: nat)
    requires hi < |p| && p[hi] == i && m >= 1 && Steps(p, Running(lo, stack, env), m) == AfterExpr(r, hi, stack)
    ensures n >= 1 && Steps(p, Running(lo, stack, env), n) == AfterUnary(r, hi, i, stack)
  {
    hide Steps, Machine.Exec;
    n := m;
    if r.Value? {
      ThenStep(p, Running(lo, stack, env), m, Running(hi, stack + [r.v], r.env));
      n := m + 1;
    }
  }

  function UnaryIns(e: Expr): Ins
    requires e.Assign? || e.Minus? || e.Bang?
  {
    if e.Assign? then SetGlobal(e.name) else if e.Minus? then Ins.Negate else Ins.Not
  }

  function Operand(e: Expr): Expr
    requires e.Assign? || e.Minus? || e.Bang?
  {
    if e.Assign? then e.rhs else e.inner
  }

  lemma UnaryJoined(lo: nat, e: Expr, stack: seq<Value>, env: Env)
    requires e.Assign? || e.Minus? || e.Bang?
    ensures ExprCode(e, lo) == ExprCode(Operand(e), lo) + [UnaryIns(e)]
    ensures AfterUnary(Eval(Operand(e), env), lo + |ExprCode(Operand(e), lo)|, UnaryIns(e), stack)
         == AfterExpr(Eval(e, env), lo + |ExprCode(e, lo)|, stack)
  {
    hide Machine.Negated;
    var r := Eval(Operand(e), env);
    if r.Value? {
      assert (stack + [r.v])[..|stack|] == stack;
    }
  }

  lemma {:induction false} UnaryRuns(p: seq<Ins>, lo: nat, e: Expr, stack: seq<Value>, env: Env) returns (n: nat)
    requires e.Assign? || e.Minus? || e.Bang?
    requires At(p, lo, ExprCode(e, lo))
    ensures n >= 1
    ensures Steps(p, Running(lo, stack, env), n)
         == AfterExpr(Eval(e, env), lo + |ExprCode(e, lo)|, stack)
    decreases e, 0
  {
    hide Steps, At, ExprCode, Eval, AfterExpr, AfterUnary;
    var c := ExprCode(Operand(e), lo);
    UnaryJoined(lo, e, stack, env);
    AtSplit(p, lo, c, [UnaryIns(e)]);
    AtOne(p, lo + |c|, UnaryIns(e));
    var m := ExprRuns(p, lo, Operand(e), stack, env);
    n := UnaryRun(p, lo, lo + |c|, UnaryIns(e), Eval(Operand(e), env), m, stack, env);
  }

  function AfterOperands(lo: nat, e1: Expr, e2: Expr, i: Ins, stack: seq<Value>, env: Env): State {
    var mid := lo + |ExprCode(e1, lo)|;
    var hi := mid + |ExprCode(e2, mid)|;
    var l := Eval(e1, env);
    if !l.Value? then AfterExpr(l, mid, stack) else
    var r := Eval(e2, l.env);
    if !r.Value? then AfterExpr(r, hi, stack + [l.v])
    else Machine.Exec(i, hi + 1, stack + [l.v] + [r.v], r.env)
  }

  // Two runs, the second from where the first leaves off, and the instruction that joins
  // their values.
  lemma JoinRuns(p: seq<Ins>, s: State, n1: nat, l: Result, mid: nat, n2: nat, r: Result, hi: nat, i: Ins,
      stack: seq<Value>)
    returns (n: nat)
    requires hi < |p| && p[hi] == i && n1 >= 1 && Steps(p, s, n1) == AfterExpr(l, mid, stack)
    requires l.Value? ==> Steps(p, Running(mid, stack + [l.v], l.env), n2) == AfterExpr(r, hi, stack + [l.v])
    ensures n >= 1
    ensures Steps(p, s, n) ==
      if !l.Value? then AfterExpr(l, mid, stack)
      else if !r.Value? then AfterExpr(r, hi, stack + [l.v])
      else Machine.Exec(i, hi + 1, stack + [l.v] + [r.v], r.env)
  {
    hide Steps, Machine.Exec;
    n := n1;
    if l.Value? {
      Chain(p, s, n, Running(mid, stack + [l.v], l.env), n2, AfterExpr(r, hi, stack + [l.v]));
      n := n + n2;
      if r.Value? {
        ThenStep(p, s, n, Running(hi, stack + [l.v] + [r.v], r.env));
        n := n + 1;
      }
    }
  }

  // Two operands and the instruction that joins them.
  lemma {:induction false} OperandsRun(p: seq<Ins>, lo: nat, e1: Expr, e2: Expr, i: Ins, whole: Expr,
                                       stack: seq<Value>, env: Env)
    returns (n: nat)
    requires e1 < whole && e2 < whole
    requires At(p, lo, ExprCode(e1, lo) + ExprCode(e2, lo + |ExprCode(e1, lo)|) + [i])
    ensures n >= 1
    ensures Steps(p, Running(lo, stack, env), n) == AfterOperands(lo, e1, e2, i, stack, env)
    decreases whole, 0
  {
    hide Steps, At, ExprCode, Eval, Machine.Exec, AfterExpr;
    var c1 := ExprCode(e1, lo);
    var mid := lo + |c1|;
    var c2 := ExprCode(e2, mid);
    AtSplit(p, lo, c1 + c2, [i]);
    AtSplit(p, lo, c1, c2);
    AtOne(p, mid + |c2|, i);
    var l := Eval(e1, env);
    n := ExprRuns(p, lo, e1, stack, env);
    var m := 0;
    if l.Value? {
      m := ExprRuns(p, mid, e2, stack + [l.v], l.env);
    }
    n := JoinRuns(p, Running(lo, stack, env), n, l, mid, m, Eval(e2, l.env), mid + |c2|, i, stack);
  }

  function JoinOf(e: Expr): Ins
    requires e.Binary? || e.Comparison?
  {
    if e.Binary? then Arith(e.aop) else Cmp(e.cop)
  }

  lemma OperandsJoined(lo: nat, e: Expr, stack: seq<Value>, env: Env)
    requires e.Binary? || e.Comparison?
    ensures AfterOperands(lo, e.left, e.right, JoinOf(e), stack, env)
         == AfterExpr(Eval(e, env), lo + |ExprCode(e, lo)|, stack)
  {
    hide Machine.Binary, Machine.Comparison;
    var l := Eval(e.left, env);
    if l.Value? {
      var r := Eval(e.right, l.env);
      if r.Value? {
        assert (stack + [l.v] + [r.v])[..|stack|] == stack;
      }
    }
  }

  lemma {:induction false} BinaryRuns(p: seq<Ins>, lo: nat, e: Expr, stack: seq<Value>, env: Env) returns (n: nat)
    requires e.Binary? || e.Comparison?
    requires At(p, lo, ExprCode(e, lo))
    ensures n >= 1
    ensures Steps(p, Running(lo, stack, env), n)
         == AfterExpr(Eval(e, env), lo + |ExprCode(e, lo)|, stack)
    decreases e, 1
  {
    hide Steps, At, Eval, AfterExpr, AfterOperands;
    n := OperandsRun(p, lo, e.left, e.right, JoinOf(e), e, stack, env);
    OperandsJoined(lo, e, stack, env);
  }

  lemma OpAssignLayout(p: seq<Ins>, lo: nat, e: Expr)
    requires e.OpAssign? && At(p, lo, ExprCode(e, lo))
    ensures var c := ExprCode(e.rhs, lo + 1);
      var hi := lo + 1 + |c|;
      && hi + 1 < |p| && At(p, lo + 1, c) && |ExprCode(e, lo)| == |c| + 3
      && p[lo] == GetGlobal(e.name) && p[hi] == Arith(e.op) && p[hi + 1] == SetGlobal(e.name)
  {
    hide At;
    var c := ExprCode(e.rhs, lo + 1);
    var hi := lo + 1 + |c|;
    var rest := [Arith(e.op)] + [SetGlobal(e.name)];
    assert ExprCode(e, lo) == [GetGlobal(e.name)] + (c + rest);
    AtSplit(p, lo, [GetGlobal(e.name)], c + rest);
    AtSplit(p, lo + 1, c, rest);
    AtSplit(p, hi, [Arith(e.op)], [SetGlobal(e.name)]);
    AtOne(p, lo, GetGlobal(e.name));
    AtOne(p, hi, Arith(e.op));
    AtOne(p, hi + 1, SetGlobal(e.name));
  }

  lemma {:induction false} OpAssignRuns(p: seq<Ins>, lo: nat, e: Expr, stack: seq<Value>, env: Env) returns (n: nat)
    requires e.OpAssign?
    requires At(p, lo, ExprCode(e, lo))
    ensures n >= 1
    ensures Steps(p, Running(lo, stack, env), n)
         == AfterExpr(Eval(e, env), lo + |ExprCode(e, lo)|, stack)
    decreases e, 0
  {
    hide Steps, At, Machine.Binary, ExprCode;
    var OpAssign(x, op, e1) := e;
    var c := ExprCode(e1, lo + 1);
    var hi := lo + 1 + |c|;
    OpAssignLayout(p, lo, e);
    var s := Running(lo, stack, env);
    OneStep(p, s);
    n := 1;
    if x in env.globals {
      var m := ExprRuns(p, lo + 1, e1, stack + [env.globals[x]], env);
      var r := Eval(e1, env);
      Chain(p, s, 1, Running(lo + 1, stack + [env.globals[x]], env), m, AfterExpr(r, hi, stack + [env.globals[x]]));
      n := 1 + m;
      if r.Value? {
        var k := ApplyAndStore(p, hi, op, x, env.globals[x], r, stack);
        Chain(p, s, n, Running(hi, stack + [env.globals[x]] + [r.v], r.env), k,
              AfterExpr(Eval(e, env), hi + 2, stack));
        n := n + k;
      }
    }
  }

  function OpStore(op: ArithOp, x: string, v: Value, r: Result): Result
    requires r.Value?
  {
    var o := Lift(Machine.Binary(op, v, r.v), r.env);
    if o.Value? then Store(x, o.v, o.env) else o
  }

  lemma ApplyAndStore(p: seq<Ins>, hi: nat, op: ArithOp, x: string, v: Value, r: Result, stack: seq<Value>)
    returns (n: nat)
    requires hi + 1 < |p| && p[hi] == Arith(op) && p[hi + 1] == SetGlobal(x) && r.Value?
    ensures Steps(p, Running(hi, stack + [v] + [r.v], r.env), n)
         == AfterExpr(OpStore(op, x, v, r), hi + 2, stack)
  {
    hide Steps, Machine.Binary;
    var s := Running(hi, stack + [v] + [r.v], r.env);
    assert s.stack[..|stack|] == stack;
    var o := Lift(Machine.Binary(op, v, r.v), r.env);
    OneStep(p, s);
    n := 1;
    assert Step(p, s) == AfterExpr(o, hi + 1, stack);
    if o.Value? {
      ThenStep(p, s, 1, Step(p, s));
      n := 2;
    }
  }

  // `and` and `or` peek at the left operand and jump over the right one.
  function PeekOf(e: Expr, end: nat): Ins {
    if e.AndExpr? then JumpIfFalsePeek(end) else JumpIfTruePeek(end)
  }

  function MergeOf(e: Expr): Ins {
    if e.AndExpr? then Ins.And else Ins.Or
  }

  lemma LogicalCode(e: Expr, lo: nat)
    requires e.AndExpr? || e.OrExpr?
    ensures var l := ExprCode(e.left, lo);
            var r := ExprCode(e.right, lo + |l| + 1);
            ExprCode(e, lo) == l + [PeekOf(e, lo + |l| + 1 + |r| + 1)] + r + [MergeOf(e)]
  {
  }

  lemma LogicalLayout(p: seq<Ins>, lo: nat, e: Expr)
    requires e.AndExpr? || e.OrExpr?
    requires At(p, lo, ExprCode(e, lo))
    ensures var j := lo + |ExprCode(e.left, lo)|;
            var hi := j + 1 + |ExprCode(e.right, j + 1)|;
            && At(p, lo, ExprCode(e.left, lo)) && At(p, j + 1, ExprCode(e.right, j + 1))
            && hi < |p| && lo + |ExprCode(e, lo)| == hi + 1
            && p[j] == PeekOf(e, hi + 1) && p[hi] == MergeOf(e)
  {
    hide At, ExprCode, PeekOf, MergeOf;
    LogicalCode(e, lo);
    var l := ExprCode(e.left, lo);
    var r := ExprCode(e.right, lo + |l| + 1);
    AtSandwich(p, lo, l, PeekOf(e, lo + |l| + 1 + |r| + 1), r, MergeOf(e));
  }

  lemma LogicalPeek(p: seq<Ins>, j: nat, end: nat, conj: bool, v: Value, stack: seq<Value>, env: Env)
    requires j < |p| && p[j] == if conj then JumpIfFalsePeek(end) else JumpIfTruePeek(end)
    ensures Step(p, Running(j, stack + [v], env))
         == Running(if Truthy(v) == conj then j + 1 else end, stack + [v], env)
  {
  }

  lemma LogicalJoin(p: seq<Ins>, hi: nat, conj: bool, v: Value, w: Value, stack: seq<Value>, env: Env)
    requires hi < |p| && p[hi] == if conj then Ins.And else Ins.Or
    requires Truthy(v) == conj
    ensures Step(p, Running(hi, stack + [v] + [w], env))
         == Running(hi + 1, stack + [if Truthy(w) then w else if conj then Bool(false) else v], env)
  {
    assert (stack + [v] + [w])[..|stack|] == stack;
  }

  lemma {:induction false} LogicalRuns(p: seq<Ins>, lo: nat, e: Expr, stack: seq<Value>, env: Env) returns (n: nat)
    requires e.AndExpr? || e.OrExpr?
    requires At(p, lo, ExprCode(e, lo))
    ensures n >= 1
    ensures Steps(p, Running(lo, stack, env), n)
         == AfterExpr(Eval(e, env), lo + |ExprCode(e, lo)|, stack)
    decreases e, 0
  {
    hide Steps, Step, At, ExprCode;
    LogicalLayout(p, lo, e);
    var j := lo + |ExprCode(e.left, lo)|;
    var hi := j + 1 + |ExprCode(e.right, j + 1)|;
    var s := Running(lo, stack, env);
    n := ExprRuns(p, lo, e.left, stack, env);
    var l := Eval(e.left, env);
    if l.Value? {
      ThenStep(p, s, n, Running(j, stack + [l.v], l.env));
      LogicalPeek(p, j, hi + 1, e.AndExpr?, l.v, stack, l.env);
      n := n + 1;
      if Truthy(l.v) == e.AndExpr? {
        var m := ExprRuns(p, j + 1, e.right, stack + [l.v], l.env);
        var r := Eval(e.right, l.env);
        Chain(p, s, n, Running(j + 1, stack + [l.v], l.env), m, AfterExpr(r, hi, stack + [l.v]));
        n := n + m;
        if r.Value? {
          ThenStep(p, s, n, Running(hi, stack + [l.v] + [r.v], r.env));
          LogicalJoin(p, hi, e.AndExpr?, l.v, r.v, stack, r.env);
          n := n + 1;
        }
      }
    }
  }

  // ---------- statements ----------

  // Where running a statement's code ends up; for a statement that runs out of fuel,
  // at least that many instructions have been executed and the machine goes on.
  ghost predicate Follows(p: seq<Ins>, s: State, n: nat, r: Progress, hi: nat, stack: seq<Value>, fuel: nat) {
    match r
    case Done(env) => Steps(p, s, n) == Running(hi, stack, env)
    case Stopped(e, env) => Steps(p, s, n) == Uncaught(e, env)
    case Stuck(env) => Steps(p, s, n) == Crashed(env)
    case OutOfFuel => n >= fuel && Steps(p, s, n).Running?
  }

  // Going on after a part that was done.
  lemma Continue(p: seq<Ins>, s: State, m: nat, mid: nat, stack: seq<Value>, env: Env,
                 n: nat, r: Progress, hi: nat, fuel: nat, more: nat)
    requires Steps(p, s, m) == Running(mid, stack, env)
    requires Follows(p, Running(mid, stack, env), n, r, hi, stack, fuel) && more <= m
    ensures Follows(p, s, m + n, r, hi, stack, fuel + more)
  {
    StepsAdd(p, s, m, n);
  }

  lemma {:induction false} StmtRuns(p: seq<Ins>, lo: nat, s: Stmt, stack: seq<Value>, env: Env, fuel: nat)
    returns (n: nat)
    requires At(p, lo, StmtCode(s, lo))
    ensures Follows(p, Running(lo, stack, env), n, RunStmt(s, env, fuel), lo + |StmtCode(s, lo)|, stack, fuel)
    decreases fuel, s, 2
  {
    hide Steps, At, Follows;
    match s
    case ExprStmt(_) => n := SimpleRuns(p, lo, s, stack, env, fuel);
    case PrintStmt(_) => n := SimpleRuns(p, lo, s, stack, env, fuel);
    case If(_, _) => n := IfRuns(p, lo, s, stack, env, fuel);
    case IfElse(_, _, _) => n := IfElseRuns(p, lo, s, stack, env, fuel);
    case While(_, _) => n := WhileRuns(p, lo, s, stack, env, fuel);
    case Block(ss) => n := StmtsRun(p, lo, ss, stack, env, fuel);
  }

  // A jump taken when the condition is false.
  lemma CondRuns(p: seq<Ins>, lo: nat, c: Expr, end: nat, stack: seq<Value>, env: Env) returns (n: nat)
    requires At(p, lo, ExprCode(c, lo))
    requires var j := lo + |ExprCode(c, lo)|; j < |p| && p[j] == JumpIfFalse(end)
    ensures n >= 1
    ensures Steps(p, Running(lo, stack, env), n) ==
      var r := Eval(c, env);
      if r.Value? then Running(if Truthy(r.v) then lo + |ExprCode(c, lo)| + 1 else end, stack, r.env)
      else AfterExpr(r, 0, stack)
  {
    hide Steps, At, ExprCode, Eval;
    n := ExprRuns(p, lo, c, stack, env);
    var r := Eval(c, env);
    if r.Value? {
      var t := Running(lo + |ExprCode(c, lo)|, stack + [r.v], r.env);
      ThenStep(p, Running(lo, stack, env), n, t);
      assert t.stack[..|stack|] == stack;
      n := n + 1;
    }
  }

  lemma StepPop(p: seq<Ins>, k: nat, stack: seq<Value>, v: Value, env: Env)
    requires k < |p| && (p[k] == Pop(1) || p[k] == Print)
    ensures Step(p, Running(k, stack + [v], env))
         == Running(k + 1, stack, if p[k].Print? then env.(out := env.out + [v]) else env)
  {
    assert (stack + [v])[..|stack|] == stack;
  }

  lemma SimpleRuns(p: seq<Ins>, lo: nat, s: Stmt, stack: seq<Value>, env: Env, fuel: nat) returns (n: nat)
    requires s.ExprStmt? || s.PrintStmt?
    requires At(p, lo, StmtCode(s, lo))
    ensures Follows(p, Running(lo, stack, env), n, RunStmt(s, env, fuel), lo + |StmtCode(s, lo)|, stack, fuel)
  {
    hide Steps, Step, At, ExprCode, Eval;
    var c := ExprCode(s.e, lo);
    var i := if s.ExprStmt? then Pop(1) else Print;
    AtSplit(p, lo, c, [i]);
    AtOne(p, lo + |c|, i);
    n := ExprRuns(p, lo, s.e, stack, env);
    var r := Eval(s.e, env);
    if r.Value? {
      ThenStep(p, Running(lo, stack, env), n, Running(lo + |c|, stack + [r.v], r.env));
      StepPop(p, lo + |c|, stack, r.v, r.env);
      n := n + 1;
    }
  }

  lemma {:induction false} IfRuns(p: seq<Ins>, lo: nat, s: Stmt, stack: seq<Value>, env: Env, fuel: nat)
    returns (n: nat)
    requires s.If?
    requires At(p, lo, StmtCode(s, lo))
    ensures Follows(p, Running(lo, stack, env), n, RunStmt(s, env, fuel), lo + |StmtCode(s, lo)|, stack, fuel)
    decreases fuel, s, 1
  {
    hide Steps, At, ExprCode, Eval;
    var cc := ExprCode(s.cond, lo);
    var mid := lo + |cc| + 1;
    var tc := StmtCode(s.thenBranch, mid);
    AtSplit(p, lo, cc + [JumpIfFalse(mid + |tc|)], tc);
    AtSplit(p, lo, cc, [JumpIfFalse(mid + |tc|)]);
    AtOne(p, lo + |cc|, JumpIfFalse(mid + |tc|));
    n := CondRuns(p, lo, s.cond, mid + |tc|, stack, env);
    var r := Eval(s.cond, env);
    if r.Value? && Truthy(r.v) {
      var m := StmtRuns(p, mid, s.thenBranch, stack, r.env, fuel);
      Continue(p, Running(lo, stack, env), n, mid, stack, r.env, m, RunStmt(s.thenBranch, r.env, fuel), mid + |tc|,
        fuel, 0);
      n := n + m;
    }
  }

  // An unconditional jump, forwards or backwards.
  lemma StepJump(p: seq<Ins>, k: nat, t: nat, stack: seq<Value>, env: Env)
    requires k < |p| && (p[k] == Jump(t) || p[k] == Loop(t))
    ensures Step(p, Running(k, stack, env)) == Running(t, stack, env)
  {
  }

  lemma IfElseCode(s: Stmt, lo: nat)
    requires s.IfElse?
    ensures var cc := ExprCode(s.cond, lo);
            var tc := StmtCode(s.thenBranch, lo + |cc| + 1);
            var mid := lo + |cc| + 1 + |tc| + 1;
            var ec := StmtCode(s.elseBranch, mid);
            StmtCode(s, lo) == cc + [JumpIfFalse(mid)] + tc + [Jump(mid + |ec|)] + ec
  {
    hide ExprCode;
  }

  lemma IfElseLayout(p: seq<Ins>, lo: nat, s: Stmt)
    requires s.IfElse? && At(p, lo, StmtCode(s, lo))
    ensures var j := lo + |ExprCode(s.cond, lo)|;
            var k := j + 1 + |StmtCode(s.thenBranch, j + 1)|;
            var hi := k + 1 + |StmtCode(s.elseBranch, k + 1)|;
            && lo + |StmtCode(s, lo)| == hi && k < |p|
            && p[j] == JumpIfFalse(k + 1) && p[k] == Jump(hi)
            && At(p, lo, ExprCode(s.cond, lo))
            && At(p, j + 1, StmtCode(s.thenBranch, j + 1)) && At(p, k + 1, StmtCode(s.elseBranch, k + 1))
  {
    hide At, ExprCode, StmtCode;
    IfElseCode(s, lo);
    var cc := ExprCode(s.cond, lo);
    var tc := StmtCode(s.thenBranch, lo + |cc| + 1);
    var mid := lo + |cc| + 1 + |tc| + 1;
    var ec := StmtCode(s.elseBranch, mid);
    var most := cc + [JumpIfFalse(mid)] + tc + [Jump(mid + |ec|)];
    AtSplit(p, lo, most, ec);
    AtSandwich(p, lo, cc, JumpIfFalse(mid), tc, Jump(mid + |ec|));
  }

  lemma {:induction false} IfElseRuns(p: seq<Ins>, lo: nat, s: Stmt, stack: seq<Value>, env: Env, fuel: nat)
    returns (n: nat)
    requires s.IfElse?
    requires At(p, lo, StmtCode(s, lo))
    ensures Follows(p, Running(lo, stack, env), n, RunStmt(s, env, fuel), lo + |StmtCode(s, lo)|, stack, fuel)
    decreases fuel, s, 1
  {
    hide Steps, Step, At, ExprCode, Eval;
    IfElseLayout(p, lo, s);
    hide StmtCode;
    var start := Running(lo, stack, env);
    var j := lo + |ExprCode(s.cond, lo)|;
    var k := j + 1 + |StmtCode(s.thenBranch, j + 1)|;
    var hi := k + 1 + |StmtCode(s.elseBranch, k + 1)|;
    n := CondRuns(p, lo, s.cond, k + 1, stack, env);
    var r := Eval(s.cond, env);
    if r.Value? && Truthy(r.v) {
      var m := StmtRuns(p, j + 1, s.thenBranch, stack, r.env, fuel);
      var q := RunStmt(s.thenBranch, r.env, fuel);
      Continue(p, start, n, j + 1, stack, r.env, m, q, k, fuel, 0);
      n := n + m;
      if q.Done? {
        ThenStep(p, start, n, Running(k, stack, q.env));
        StepJump(p, k, hi, stack, q.env);
        n := n + 1;
      }
    } else if r.Value? {
      var m := StmtRuns(p, k + 1, s.elseBranch, stack, r.env, fuel);
      Continue(p, start, n, k + 1, stack, r.env, m, RunStmt(s.elseBranch, r.env, fuel), hi, fuel, 0);
      n := n + m;
    }
  }

  lemma WhileLayout(p: seq<Ins>, lo: nat, s: Stmt)
    requires s.While? && At(p, lo, StmtCode(s, lo))
    ensures var j := lo + |ExprCode(s.cond, lo)|;
            var k := j + 1 + |StmtCode(s.body, j + 1)|;
            && lo + |StmtCode(s, lo)| == k + 1 && k < |p|
            && p[j] == JumpIfFalse(k + 1) && p[k] == Loop(lo)
            && At(p, lo, ExprCode(s.cond, lo)) && At(p, j + 1, StmtCode(s.body, j + 1))
  {
    hide At, ExprCode;
    var cc := ExprCode(s.cond, lo);
    var bc := StmtCode(s.body, lo + |cc| + 1);
    assert StmtCode(s, lo) == cc + [JumpIfFalse(lo + |cc| + 1 + |bc| + 1)] + bc + [Loop(lo)];
    hide StmtCode;
    AtSandwich(p, lo, cc, JumpIfFalse(lo + |cc| + 1 + |bc| + 1), bc, Loop(lo));
  }

  lemma {:induction false} WhileRuns(p: seq<Ins>, lo: nat, s: Stmt, stack: seq<Value>, env: Env, fuel: nat)
    returns (n: nat)
    requires s.While?
    requires At(p, lo, StmtCode(s, lo))
    ensures Follows(p, Running(lo, stack, env), n, RunStmt(s, env, fuel), lo + |StmtCode(s, lo)|, stack, fuel)
    decreases fuel, s, 1
  {
    hide Steps, Step, At, ExprCode, Eval;
    WhileLayout(p, lo, s);
    hide StmtCode;
    var start := Running(lo, stack, env);
    var j := lo + |ExprCode(s.cond, lo)|;
    var k := j + 1 + |StmtCode(s.body, j + 1)|;
    n := 0;
    StepsNone(p, start);
    if fuel > 0 {
      n := CondRuns(p, lo, s.cond, k + 1, stack, env);
      var r := Eval(s.cond, env);
      if r.Value? && Truthy(r.v) {
        var m := StmtRuns(p, j + 1, s.body, stack, r.env, fuel - 1);
        var q := RunStmt(s.body, r.env, fuel - 1);
        Continue(p, start, n, j + 1, stack, r.env, m, q, k, fuel - 1, 1);
        n := n + m;
        if q.Done? {
          ThenStep(p, start, n, Running(k, stack, q.env));
          StepJump(p, k, lo, stack, q.env);
          var i := StmtRuns(p, lo, s, stack, q.env, fuel - 1);
          Continue(p, start, n + 1, lo, stack, q.env, i, RunStmt(s, q.env, fuel - 1), k + 1, fuel - 1, 1);
          n := n + 1 + i;
        }
      }
    }
  }

  lemma StepsNone(p: seq<Ins>, s: State)
    ensures Steps(p, s, 0) == s
  {
  }

  lemma {:induction false} StmtsRun(p: seq<Ins>, lo: nat, ss: Stmts, stack: seq<Value>, env: Env, fuel: nat)
    returns (n: nat)
    requires At(p, lo, StmtsCode(ss, lo))
    ensures Follows(p, Running(lo, stack, env), n, RunStmts(ss, env, fuel), lo + |StmtsCode(ss, lo)|, stack, fuel)
    decreases fuel, ss, 1
  {
    hide Steps, At, StmtCode, RunStmt;
    match ss
    case None =>
      n := 0;
      StepsNone(p, Running(lo, stack, env));
    case More(s, rest) =>
      var c := StmtCode(s, lo);
      AtSplit(p, lo, c, StmtsCode(rest, lo + |c|));
      n := StmtRuns(p, lo, s, stack, env, fuel);
      var q := RunStmt(s, env, fuel);
      if q.Done? {
        var m := StmtsRun(p, lo + |c|, rest, stack, q.env, fuel);
        Continue(p, Running(lo, stack, env), n, lo + |c|, stack, q.env, m, RunStmts(rest, q.env, fuel),
                 lo + |c| + |StmtsCode(rest, lo + |c|)|, fuel, 0);
        n := n + m;
      }
  }

  // ---------- programs ----------

  lemma ItemRuns(p: seq<Ins>, lo: nat, i: Item, stack: seq<Value>, env: Env, fuel: nat) returns (n: nat)
    requires At(p, lo, ItemCode(i, lo))
    ensures Follows(p, Running(lo, stack, env), n, RunItem(i, env, fuel), lo + |ItemCode(i, lo)|, stack, fuel)
  {
    hide Steps, At, RunStmt, StmtCode, ExprCode, Eval;
    var s := Running(lo, stack, env);
    match i
    case Plain(st) => n := StmtRuns(p, lo, st, stack, env, fuel);
    case VarStmt(x) =>
      AtSplit(p, lo, [Push(Nil)], [DefineGlobal(x)]);
      AtOne(p, lo, Push(Nil));
      AtOne(p, lo + 1, DefineGlobal(x));
      OneStep(p, s);
      ThenStep(p, s, 1, Running(lo + 1, stack + [Nil], env));
      assert (stack + [Nil])[..|stack|] == stack;
      n := 2;
    case VarInit(x, e) =>
      var c := ExprCode(e, lo);
      AtSplit(p, lo, c, [DefineGlobal(x)]);
      AtOne(p, lo + |c|, DefineGlobal(x));
      n := ExprRuns(p, lo, e, stack, env);
      var r := Eval(e, env);
      if r.Value? {
        ThenStep(p, s, n, Running(lo + |c|, stack + [r.v], r.env));
        assert (stack + [r.v])[..|stack|] == stack;
        n := n + 1;
      }
  }

  lemma {:induction false} ItemsRun(p: seq<Ins>, lo: nat, prog: Program, stack: seq<Value>, env: Env, fuel: nat)
    returns (n: nat)
    requires At(p, lo, ItemsCode(prog, lo))
    ensures Follows(p, Running(lo, stack, env), n, RunProgram(prog, env, fuel),
                    lo + |ItemsCode(prog, lo)|, stack, fuel)
    decreases |prog|
  {
    hide Steps, At, RunItem, ItemCode;
    n := 0;
    StepsNone(p, Running(lo, stack, env));
    if prog != [] {
      var c := ItemCode(prog[0], lo);
      AtSplit(p, lo, c, ItemsCode(prog[1..], lo + |c|));
      n := ItemRuns(p, lo, prog[0], stack, env, fuel);
      var q := RunItem(prog[0], env, fuel);
      if q.Done? {
        var m := ItemsRun(p, lo + |c|, prog[1..], stack, q.env, fuel);
        Continue(p, Running(lo, stack, env), n, lo + |c|, stack, q.env, m, RunProgram(prog[1..], q.env, fuel),
                 lo + |c| + |ItemsCode(prog[1..], lo + |c|)|, fuel, 0);
        n := n + m;
      }
    }
  }

  // How a program that comes to an end leaves the machine.
  function EndOf(r: Progress): State
    requires !r.OutOfFuel?
  {
    match r
    case Done(env) => Halted(env)
    case Stopped(e, env) => Uncaught(e, env)
    case Stuck(env) => Crashed(env)
  }

  function Start(env: Env): State {
    Running(0, [], env)
  }

  lemma ProgramRuns(prog: Program, env: Env, fuel: nat) returns (n: nat)
    ensures var r := RunProgram(prog, env, fuel);
      if r.OutOfFuel? then n >= fuel && Steps(ProgramCode(prog), Start(env), n).Running?
      else Steps(ProgramCode(prog), Start(env), n) == EndOf(r)
  {
    hide Steps, RunProgram, ItemsCode;
    var p := ProgramCode(prog);
    var c := ItemsCode(prog, 0);
    assert p[0..|p|] == c + [Leave];
    AtSplit(p, 0, c, [Leave]);
    AtOne(p, |c|, Leave);
    n := ItemsRun(p, 0, prog, [], env, fuel);
    var r := RunProgram(prog, env, fuel);
    if r.Done? {
      ThenStep(p, Start(env), n, Running(|c|, [], r.env));
      n := n + 1;
    }
  }

  // The tree runs to its end, and this is the end.
  ghost predicate TreeEndsIn(prog: Program, env: Env, end: State) {
    exists fuel: nat :: !RunProgram(prog, env, fuel).OutOfFuel? && EndOf(RunProgram(prog, env, fuel)) == end
  }

  // The code of a program comes to an end exactly when the program does, and with
  // the same output, globals and uncaught error; so one diverges when the other does.
  lemma CompiledRunsAlike(prog: Program, env: Env, end: State)
    ensures EndsIn(ProgramCode(prog), Start(env), end)
       <==> TreeEndsIn(prog, env, end)
  {
    hide RunProgram, ProgramCode, Steps;
    var p := ProgramCode(prog);
    if EndsIn(p, Start(env), end) {
      var n: nat :| Steps(p, Start(env), n) == end;
      var m := ProgramRuns(prog, env, n);
      if RunProgram(prog, env, n).OutOfFuel? {
        StepsStay(p, Start(env), n, m);
        assert false;
      } else if n <= m {
        StepsStay(p, Start(env), n, m);
      } else {
        StepsStay(p, Start(env), m, n);
      }
    }
    forall fuel: nat | !RunProgram(prog, env, fuel).OutOfFuel? && EndOf(RunProgram(prog, env, fuel)) == end
      ensures EndsIn(p, Start(env), end)
    {
      var n := ProgramRuns(prog, env, fuel);
    }
  }
}
