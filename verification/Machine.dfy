// The part of the virtual machine that the optimizer and the code generator are
// judged by: numbers, booleans and nil, globals, printing, jumps and loops.  An
// instruction is given with its operand already looked up; where it jumps to is
// a position, which is a word address on flattened code and an index on a list.
module Machine {

  datatype Option<T> = None | Some(value: T)

  datatype Value = Nil | Bool(b: bool) | Num(n: real)

  function Truthy(v: Value): bool {
    !(v == Nil || v == Bool(false))
  }

  // ---------- arithmetic, shared by the machine and the constant folder ----------

  datatype ArithOp = Add | Sub | Mul | Div | Mod | BitOr | BitAnd | BitXor | ShiftL | ShiftR

  datatype CmpOp = Less | Greater | LessEq | GreaterEq | Equal | NotEqual

  // The conversion of a double to a 32-bit integer: it drops the fraction.  C leaves
  // numbers out of range undefined; here they wrap around.
  function ToInt32(r: real): (i: int)
    ensures -0x8000_0000 <= i < 0x8000_0000
  {
    Wrap32(if r >= 0.0 then r.Floor else -((-r).Floor))
  }

  function Wrap32(i: int): (w: int)
    ensures -0x8000_0000 <= w < 0x8000_0000
    ensures -0x8000_0000 <= i < 0x8000_0000 ==> w == i
  {
    (i + 0x8000_0000) % 0x1_0000_0000 - 0x8000_0000
  }

  // C's remainder takes the sign of the dividend.
  function CRemainder(a: int, b: int): (r: int)
    requires b != 0
    ensures exists q :: a == q * b + r
    ensures (a >= 0 ==> r >= 0) && (a <= 0 ==> r <= 0)
    ensures -(if b < 0 then -b else b) < r < (if b < 0 then -b else b)
  {
    var m := if b < 0 then -b else b;
    if a >= 0 then
      assert a == (a / m) * m + a % m;
      assert a == (if b < 0 then -(a / m) else a / m) * b + a % m;
      a % m
    else
      assert -a == (-a / m) * m + (-a) % m;
      assert a == (if b < 0 then -a / m else -(-a / m)) * b - (-a) % m;
      -((-a) % m)
  }

  // The numbers below 2 to the n whose bits are combined from those of a and b.
  function Combined(op: ArithOp, a: int, b: int, n: nat): nat
    decreases n
  {
    if n == 0 then 0
    else 2 * Combined(op, a / 2, b / 2, n - 1) + if CombinedBit(op, a % 2 == 1, b % 2 == 1) then 1 else 0
  }

  predicate CombinedBit(op: ArithOp, a: bool, b: bool) {
    match op
    case BitOr => a || b
    case BitAnd => a && b
    case _ => a != b
  }

  function Pow2(n: nat): nat {
    if n == 0 then 1 else 2 * Pow2(n - 1)
  }

  lemma Pow2Positive(n: nat)
    ensures Pow2(n) > 0
  {
  }

  predicate DividesByZero(op: ArithOp, b: real) {
    op in {Div, Mod} && b == 0.0
  }

  // The result of an operation whose divisor was checked, or None where C defines no
  // result: a remainder by a fraction that drops to zero or of the least integer by -1, or
  // a shift by a distance outside the word.
  function Calculate(op: ArithOp, a: real, b: real): Option<real>
    requires !DividesByZero(op, b)
  {
    var x, y := ToInt32(a), ToInt32(b);
    match op
    case Add => Some(a + b)
    case Sub => Some(a - b)
    case Mul => Some(a * b)
    case Div => Some(a / b)
    case Mod => if y == 0 || (y == -1 && x == -0x8000_0000) then None else Some(CRemainder(x, y) as real)
    case BitOr => Some(Wrap32(Combined(op, x, y, 32)) as real)
    case BitAnd => Some(Wrap32(Combined(op, x, y, 32)) as real)
    case BitXor => Some(Wrap32(Combined(op, x, y, 32)) as real)
    case ShiftL => if 0 <= y < 32 then Some(Wrap32(x * Pow2(y)) as real) else None
    case ShiftR => if 0 <= y < 32 then Pow2Positive(y); Some((x / Pow2(y)) as real) else None
  }

  function Compare(op: CmpOp, a: real, b: real): bool {
    match op
    case Less => a < b
    case Greater => a > b
    case LessEq => a <= b
    case GreaterEq => a >= b
    case Equal => a == b
    case NotEqual => a != b
  }

  // ---------- what an operation does to values ----------

  datatype Error = TypeError | DivideByZero | UndefinedGlobal(name: string) | ReservedGlobal(name: string)

  // A value, a thrown error, or behaviour that C does not define.
  datatype Outcome = Ok(v: Value) | Throws(error: Error) | Undefined

  function Binary(op: ArithOp, a: Value, b: Value): Outcome {
    if !a.Num? || !b.Num? then Throws(TypeError)
    else if DividesByZero(op, b.n) then Throws(DivideByZero)
    else match Calculate(op, a.n, b.n)
      case Some(r) => Ok(Num(r))
      case None => Undefined
  }

  function Comparison(op: CmpOp, a: Value, b: Value): Outcome {
    if op == Equal then Ok(Bool(a == b))
    else if op == NotEqual then Ok(Bool(a != b))
    else if a.Num? && b.Num? then Ok(Bool(Compare(op, a.n, b.n)))
    else Throws(TypeError)
  }

  function Negated(a: Value): Outcome {
    if a.Num? then Ok(Num(-a.n)) else Throws(TypeError)
  }

  // The names of built-in globals that a program may not bind again.
  predicate Reserved(name: string) {
    name in {"clock", "typeof", "classof", "debugger", "loadScript", "requireScript",
             "eval", "yield", "blockGiven", "sleep"}
  }

  // ---------- instructions and their execution ----------

  datatype Ins =
    | Push(v: Value)
    | Arith(aop: ArithOp)
    | Cmp(cop: CmpOp)
    | Negate
    | Not
    | And
    | Or
    | Pop(n: nat)
    | Print
    | GetGlobal(name: string)
    | SetGlobal(name: string)
    | DefineGlobal(name: string)
    | Jump(target: nat)
    | JumpIfFalse(target: nat)
    | JumpIfTrue(target: nat)
    | JumpIfFalsePeek(target: nat)
    | JumpIfTruePeek(target: nat)
    | Loop(target: nat)
    | Leave

  datatype Env = Env(globals: map<string, Value>, out: seq<Value>)

  datatype State =
    | Running(pc: nat, stack: seq<Value>, env: Env)
    | Halted(env: Env)
    | Uncaught(error: Error, env: Env)
    | Crashed(env: Env)

  function Top(stack: seq<Value>): Value
    requires stack != []
  {
    stack[|stack| - 1]
  }

  // Replaces the top k values by the result of an operation.
  function Replace(o: Outcome, k: nat, next: nat, stack: seq<Value>, env: Env): State
    requires k <= |stack|
  {
    match o
    case Ok(v) => Running(next, stack[..|stack| - k] + [v], env)
    case Throws(e) => Uncaught(e, env)
    case Undefined => Crashed(env)
  }

  function Operands(ins: Ins): nat {
    match ins
    case Arith(_) => 2
    case Cmp(_) => 2
    case And => 2
    case Or => 2
    case Pop(n) => n
    case Negate => 1
    case Not => 1
    case Print => 1
    case SetGlobal(_) => 1
    case DefineGlobal(_) => 1
    case JumpIfFalse(_) => 1
    case JumpIfTrue(_) => 1
    case JumpIfFalsePeek(_) => 1
    case JumpIfTruePeek(_) => 1
    case _ => 0
  }

  // One instruction; `next` is the position after it.  A stack that is too short
  // stops the machine's assertions.
  function Exec(ins: Ins, next: nat, stack: seq<Value>, env: Env): State {
    if |stack| < Operands(ins) then Crashed(env) else
    var n := |stack|;
    match ins
    case Push(v) => Running(next, stack + [v], env)
    case Arith(op) => Replace(Binary(op, stack[n - 2], stack[n - 1]), 2, next, stack, env)
    case Cmp(op) => Replace(Comparison(op, stack[n - 2], stack[n - 1]), 2, next, stack, env)
    case Negate => Replace(Negated(Top(stack)), 1, next, stack, env)
    case Not => Running(next, stack[..n - 1] + [Bool(!Truthy(Top(stack)))], env)
    case And =>
      Running(next, stack[..n - 2] + [if Truthy(Top(stack)) then Top(stack) else Bool(false)], env)
    case Or =>
      var lhs, rhs := stack[n - 2], stack[n - 1];
      Running(next, stack[..n - 2] + [if Truthy(lhs) || Truthy(rhs) then rhs else lhs], env)
    case Pop(k) => Running(next, stack[..n - k], env)
    case Print => Running(next, stack[..n - 1], env.(out := env.out + [Top(stack)]))
    case GetGlobal(x) =>
      if x in env.globals then Running(next, stack + [env.globals[x]], env)
      else Uncaught(UndefinedGlobal(x), env)
    case SetGlobal(x) =>
      if Reserved(x) then Uncaught(ReservedGlobal(x), env)
      else Running(next, stack, env.(globals := env.globals[x := Top(stack)]))
    case DefineGlobal(x) =>
      if Reserved(x) then Uncaught(ReservedGlobal(x), env)
      else Running(next, stack[..n - 1], env.(globals := env.globals[x := Top(stack)]))
    case Jump(t) => Running(t, stack, env)
    case JumpIfFalse(t) => Running(if Truthy(Top(stack)) then next else t, stack[..n - 1], env)
    case JumpIfTrue(t) => Running(if Truthy(Top(stack)) then t else next, stack[..n - 1], env)
    case JumpIfFalsePeek(t) => Running(if Truthy(Top(stack)) then next else t, stack, env)
    case JumpIfTruePeek(t) => Running(if Truthy(Top(stack)) then t else next, stack, env)
    case Loop(t) => Running(t, stack, env)
    case Leave => Halted(env)
  }

  // ---------- running a list of instructions, positions being indexes ----------

  function Step(p: seq<Ins>, s: State): State {
    if !s.Running? then s
    else if s.pc < |p| then Exec(p[s.pc], s.pc + 1, s.stack, s.env)
    else Crashed(s.env)
  }

  function Steps(p: seq<Ins>, s: State, n: nat): State
    decreases n
  {
    if n == 0 then s else Steps(p, Step(p, s), n - 1)
  }

  lemma {:induction false} StepsAdd(p: seq<Ins>, s: State, m: nat, n: nat)
    ensures Steps(p, s, m + n) == Steps(p, Steps(p, s, m), n)
    decreases m
  {
    if m > 0 {
      StepsAdd(p, Step(p, s), m - 1, n);
    }
  }

  lemma {:induction false} StepsFinal(p: seq<Ins>, s: State, n: nat)
    requires !s.Running?
    ensures Steps(p, s, n) == s
    decreases n
  {
    if n > 0 {
      StepsFinal(p, s, n - 1);
    }
  }

  // A run that has ended stays as it is.
  lemma StepsStay(p: seq<Ins>, s: State, m: nat, n: nat)
    requires m <= n && !Steps(p, s, m).Running?
    ensures Steps(p, s, n) == Steps(p, s, m)
  {
    StepsAdd(p, s, m, n - m);
    StepsFinal(p, Steps(p, s, m), n - m);
  }

  // The end state r is what running from s comes to.
  ghost predicate EndsIn(p: seq<Ins>, s: State, r: State) {
    !r.Running? && exists n: nat :: Steps(p, s, n) == r
  }
}
