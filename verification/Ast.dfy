// The modelled part of the language: its syntax trees and what running a tree means.
module Ast {
  import opened Machine

  datatype Expr =
    | Number(r: real)
    | True
    | False
    | NilLiteral
    | Grouping(inner: Expr)
    | Variable(name: string)
    | Assign(name: string, rhs: Expr)
    | OpAssign(name: string, op: ArithOp, rhs: Expr)
    | Binary(aop: ArithOp, left: Expr, right: Expr)
    | Comparison(cop: CmpOp, left: Expr, right: Expr)
    | AndExpr(left: Expr, right: Expr)
    | OrExpr(left: Expr, right: Expr)
    | Minus(inner: Expr)
    | Bang(inner: Expr)

  datatype Stmt =
    | ExprStmt(e: Expr)
    | PrintStmt(e: Expr)
    | If(cond: Expr, thenBranch: Stmt)
    | IfElse(cond: Expr, thenBranch: Stmt, elseBranch: Stmt)
    | While(cond: Expr, body: Stmt)
    | Block(stmts: Stmts)

  datatype Stmts = None | More(first: Stmt, rest: Stmts)

  // Variables are declared at the top level only, where they are globals.
  datatype Item = VarStmt(name: string) | VarInit(name: string, init: Expr) | Plain(s: Stmt)

  type Program = seq<Item>

  // ---------- evaluation ----------

  datatype Result = Value(v: Machine.Value, env: Env) | Thrown(error: Error, env: Env) | Wrong(env: Env)

  function Lift(o: Outcome, env: Env): Result {
    match o
    case Ok(v) => Value(v, env)
    case Throws(e) => Thrown(e, env)
    case Undefined => Wrong(env)
  }

  function Store(name: string, v: Machine.Value, env: Env): Result {
    if Reserved(name) then Thrown(ReservedGlobal(name), env)
    else Value(v, env.(globals := env.globals[name := v]))
  }

  function Load(name: string, env: Env): Result {
    if name in env.globals then Value(env.globals[name], env) else Thrown(UndefinedGlobal(name), env)
  }

  // An expression evaluates left to right, and the right operand of `and` and `or`
  // only when the left one does not decide.  A false right operand of `and` yields
  // false; a false right operand of `or` yields the left one.
  function Eval(e: Expr, env: Env): Result {
    match e
    case Number(r) => Value(Num(r), env)
    case True => Value(Bool(true), env)
    case False => Value(Bool(false), env)
    case NilLiteral => Value(Nil, env)
    case Grouping(e1) => Eval(e1, env)
    case Variable(x) => Load(x, env)
    case Assign(x, e1) =>
      var r := Eval(e1, env);
      if r.Value? then Store(x, r.v, r.env) else r
    case OpAssign(x, op, e1) =>
      var l := Load(x, env);
      if !l.Value? then l else
      var r := Eval(e1, env);
      if !r.Value? then r else
      var o := Lift(Machine.Binary(op, l.v, r.v), r.env);
      if o.Value? then Store(x, o.v, o.env) else o
    case Binary(op, e1, e2) =>
      var l := Eval(e1, env);
      if !l.Value? then l else
      var r := Eval(e2, l.env);
      if !r.Value? then r else Lift(Machine.Binary(op, l.v, r.v), r.env)
    case Comparison(op, e1, e2) =>
      var l := Eval(e1, env);
      if !l.Value? then l else
      var r := Eval(e2, l.env);
      if !r.Value? then r else Lift(Machine.Comparison(op, l.v, r.v), r.env)
    case AndExpr(e1, e2) =>
      var l := Eval(e1, env);
      if !l.Value? || !Truthy(l.v) then l else
      var r := Eval(e2, l.env);
      if r.Value? && !Truthy(r.v) then Value(Bool(false), r.env) else r
    case OrExpr(e1, e2) =>
      var l := Eval(e1, env);
      if !l.Value? || Truthy(l.v) then l else
      var r := Eval(e2, l.env);
      if r.Value? && !Truthy(r.v) then Value(l.v, r.env) else r
    case Minus(e1) =>
      var r := Eval(e1, env);
      if r.Value? then Lift(Negated(r.v), r.env) else r
    case Bang(e1) =>
      var r := Eval(e1, env);
      if r.Value? then Value(Bool(!Truthy(r.v)), r.env) else r
  }

  datatype Progress = Done(env: Env) | Stopped(error: Error, env: Env) | Stuck(env: Env) | OutOfFuel

  function NoValue(r: Result): Progress {
    match r
    case Value(_, env) => Done(env)
    case Thrown(e, env) => Stopped(e, env)
    case Wrong(env) => Stuck(env)
  }

  // Running a statement; the fuel bounds how often loops may go round inside one
  // another or in succession.
  function RunStmt(s: Stmt, env: Env, fuel: nat): Progress
    decreases fuel, s
  {
    match s
    case ExprStmt(e) => NoValue(Eval(e, env))
    case PrintStmt(e) =>
      var r := Eval(e, env);
      if r.Value? then Done(r.env.(out := r.env.out + [r.v])) else NoValue(r)
    case If(c, t) =>
      var r := Eval(c, env);
      if r.Value? && Truthy(r.v) then RunStmt(t, r.env, fuel) else NoValue(r)
    case IfElse(c, t, e) =>
      var r := Eval(c, env);
      if !r.Value? then NoValue(r)
      else if Truthy(r.v) then RunStmt(t, r.env, fuel)
      else RunStmt(e, r.env, fuel)
    case While(c, b) =>
      if fuel == 0 then OutOfFuel else
      var r := Eval(c, env);
      if !r.Value? || !Truthy(r.v) then NoValue(r) else
      var p := RunStmt(b, r.env, fuel - 1);
      if p.Done? then RunStmt(s, p.env, fuel - 1) else p
    case Block(ss) => RunStmts(ss, env, fuel)
  }

  function RunStmts(ss: Stmts, env: Env, fuel: nat): Progress
    decreases fuel, ss
  {
    match ss
    case None => Done(env)
    case More(s, rest) =>
      var p := RunStmt(s, env, fuel);
      if p.Done? then RunStmts(rest, p.env, fuel) else p
  }

  function RunItem(i: Item, env: Env, fuel: nat): Progress {
    match i
    case VarStmt(x) => NoValue(Store(x, Nil, env))
    case VarInit(x, e) =>
      var r := Eval(e, env);
      if r.Value? then NoValue(Store(x, r.v, r.env)) else NoValue(r)
    case Plain(s) => RunStmt(s, env, fuel)
  }

  function RunProgram(p: Program, env: Env, fuel: nat): Progress {
    if p == [] then Done(env) else
    var r := RunItem(p[0], env, fuel);
    if r.Done? then RunProgram(p[1..], r.env, fuel) else r
  }
}
