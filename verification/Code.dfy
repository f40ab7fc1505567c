// Instruction lists as values, their layout in words, and the machine that runs the
// flattened words.
module Code {
  import opened Opcodes
  import opened Machine

  // Where a jump's link points: nowhere, at an instruction of the list, or at one
  // that has been removed and freed.
  datatype Link = NoLink | To(index: nat) | Freed

  datatype Insn = Insn(
    code: nat, operands: seq<nat>, isNumber: bool, isLabel: bool, jumpTo: Link, jumpToPrev: Link)

  type Insns = seq<Insn>

  // A constant of the pool: a number, or a string that may name a global.
  datatype Constant = NumberConst(r: real) | StringConst(s: string)

  function Size(i: Insn): (n: nat)
    ensures n >= 1
  {
    1 + |i.operands|
  }

  // The word offset of instruction i.
  function Off(v: Insns, i: nat): (n: nat)
    requires i <= |v|
    ensures n >= i
  {
    if i == 0 then 0 else Off(v, i - 1) + Size(v[i - 1])
  }

  function Words(i: Insn): seq<nat> {
    [i.code] + i.operands
  }

  function Flatten(v: Insns): seq<nat> {
    if v == [] then [] else Flatten(v[..|v| - 1]) + Words(v[|v| - 1])
  }

  // Offsets up to i depend only on the sizes of the first i instructions.
  lemma {:induction false} OffSame(v: Insns, w: Insns, i: nat)
    requires i <= |v| && i <= |w|
    requires forall k | 0 <= k < i :: Size(v[k]) == Size(w[k])
    ensures Off(v, i) == Off(w, i)
  {
    if i > 0 {
      OffSame(v, w, i - 1);
    }
  }

  lemma {:induction false} OffMonotone(v: Insns, i: nat, j: nat)
    requires i <= j <= |v|
    ensures Off(v, i) + (j - i) <= Off(v, j)
  {
    if i < j {
      OffMonotone(v, i, j - 1);
    }
  }

  lemma {:induction false} FlattenLength(v: Insns)
    ensures |Flatten(v)| == Off(v, |v|)
  {
    if v != [] {
      var w := v[..|v| - 1];
      FlattenLength(w);
      OffSame(v, w, |w|);
    }
  }

  lemma OffNext(v: Insns, i: nat)
    requires i < |v|
    ensures Off(v, i + 1) == Off(v, i) + Size(v[i])
  {
  }

  lemma FlattenLast(v: Insns)
    requires v != []
    ensures Flatten(v) == Flatten(v[..|v| - 1]) + Words(v[|v| - 1])
  {
  }

  lemma SliceEnd<T>(x: seq<T>, y: seq<T>)
    ensures (x + y)[|x|..|x + y|] == y
  {
  }

  lemma SliceInside<T>(x: seq<T>, y: seq<T>, a: nat, b: nat)
    requires a <= b <= |x|
    ensures (x + y)[a..b] == x[a..b]
  {
  }

  // The words of instruction i start at its offset.
  lemma {:induction false} FlattenAt(v: Insns, i: nat)
    requires i < |v|
    ensures Off(v, i + 1) <= |Flatten(v)| && Off(v, i + 1) == Off(v, i) + Size(v[i])
    ensures Flatten(v)[Off(v, i)..Off(v, i + 1)] == Words(v[i])
  {
    hide Flatten, Off;
    var w := v[..|v| - 1];
    FlattenLength(v);
    FlattenLength(w);
    FlattenLast(v);
    OffSame(v, w, i);
    OffNext(v, i);
    if i < |w| {
      FlattenAt(w, i);
      OffSame(v, w, i + 1);
      SliceInside(Flatten(w), Words(v[|w|]), Off(v, i), Off(v, i + 1));
    } else {
      SliceEnd(Flatten(w), Words(v[|w|]));
    }
  }

  // ---------- jump operands ----------

  predicate IsJump(code: nat) {
    code in {OP_JUMP, OP_JUMP_IF_FALSE, OP_JUMP_IF_TRUE, OP_JUMP_IF_TRUE_PEEK, OP_JUMP_IF_FALSE_PEEK}
  }

  predicate IsLoop(code: nat) {
    code == OP_LOOP
  }

  function ArithOf(code: nat): Option<ArithOp> {
    if code == OP_ADD then Some(Add)
    else if code == OP_SUBTRACT then Some(Sub)
    else if code == OP_MULTIPLY then Some(Mul)
    else if code == OP_DIVIDE then Some(Div)
    else if code == OP_MODULO then Some(Mod)
    else if code == OP_BITOR then Some(BitOr)
    else if code == OP_BITAND then Some(BitAnd)
    else if code == OP_BITXOR then Some(BitXor)
    else if code == OP_SHOVEL_L then Some(ShiftL)
    else if code == OP_SHOVEL_R then Some(ShiftR)
    else None
  }

  function CmpOf(code: nat): Option<CmpOp> {
    if code == OP_LESS then Some(Less)
    else if code == OP_GREATER then Some(Greater)
    else if code == OP_LESS_EQUAL then Some(LessEq)
    else if code == OP_GREATER_EQUAL then Some(GreaterEq)
    else if code == OP_EQUAL then Some(Equal)
    else if code == OP_NOT_EQUAL then Some(NotEqual)
    else None
  }

  // A forward jump at word i lands at i + 1 + operand, a loop at i - operand.
  function JumpAddress(addr: nat, operand: nat): nat {
    addr + 1 + operand
  }

  function JumpIns(code: nat, target: nat): Ins
    requires IsJump(code)
  {
    if code == OP_JUMP then Jump(target)
    else if code == OP_JUMP_IF_FALSE then JumpIfFalse(target)
    else if code == OP_JUMP_IF_TRUE then JumpIfTrue(target)
    else if code == OP_JUMP_IF_TRUE_PEEK then JumpIfTruePeek(target)
    else JumpIfFalsePeek(target)
  }

  function SimpleIns(code: nat): Option<Ins> {
    if code == OP_NEGATE then Some(Negate)
    else if code == OP_NOT then Some(Not)
    else if code == OP_AND then Some(And)
    else if code == OP_OR then Some(Or)
    else if code == OP_POP then Some(Pop(1))
    else if code == OP_PRINT then Some(Print)
    else if code == OP_TRUE then Some(Push(Bool(true)))
    else if code == OP_FALSE then Some(Push(Bool(false)))
    else if code == OP_NIL then Some(Push(Nil))
    else if code == OP_LEAVE then Some(Leave)
    else None
  }

  function ConstantIns(code: nat, c: Constant): Option<Ins> {
    match c
    case NumberConst(r) => if code == OP_CONSTANT then Some(Push(Num(r))) else None
    case StringConst(s) =>
      if code == OP_GET_GLOBAL then Some(GetGlobal(s))
      else if code == OP_SET_GLOBAL then Some(SetGlobal(s))
      else if code == OP_DEFINE_GLOBAL then Some(DefineGlobal(s))
      else None
  }

  // What the instruction at word addr does; jump targets are word addresses.
  function Decode(code: nat, operands: seq<nat>, pool: seq<Constant>, addr: nat): Option<Ins> {
    if |operands| == 0 then
      if ArithOf(code).Some? then Some(Arith(ArithOf(code).value))
      else if CmpOf(code).Some? then Some(Cmp(CmpOf(code).value))
      else SimpleIns(code)
    else if |operands| != 1 then None
    else if IsJump(code) then
      if operands[0] > 0 then Some(JumpIns(code, JumpAddress(addr, operands[0]))) else None
    else if IsLoop(code) then
      if 0 < operands[0] <= addr then Some(Loop(addr - operands[0])) else None
    else if code == OP_POP_N then Some(Pop(operands[0]))
    else if operands[0] < |pool| then ConstantIns(code, pool[operands[0]])
    else None
  }

  // ---------- the machine on words ----------

  function Fetch(words: seq<nat>, pool: seq<Constant>, pc: nat): Option<(Ins, nat)> {
    if pc >= |words| || pc + 1 + WordsRead(words[pc]) > |words| then None else
    var n := 1 + WordsRead(words[pc]);
    match Decode(words[pc], words[pc + 1..pc + n], pool, pc)
    case Some(i) => Some((i, n))
    case None => None
  }

  function WordStep(words: seq<nat>, pool: seq<Constant>, s: State): State {
    if !s.Running? then s else
    match Fetch(words, pool, s.pc)
    case Some((i, n)) => Exec(i, s.pc + n, s.stack, s.env)
    case None => Crashed(s.env)
  }

  function WordSteps(words: seq<nat>, pool: seq<Constant>, s: State, n: nat): State
    decreases n
  {
    if n == 0 then s else WordSteps(words, pool, WordStep(words, pool, s), n - 1)
  }

  ghost predicate WordsEndIn(words: seq<nat>, pool: seq<Constant>, s: State, r: State) {
    !r.Running? && exists n: nat :: WordSteps(words, pool, s, n) == r
  }

  // ---------- an instruction list and the instructions it stands for ----------

  function Target(i: Ins): Option<nat> {
    match i
    case Jump(t) => Some(t)
    case JumpIfFalse(t) => Some(t)
    case JumpIfTrue(t) => Some(t)
    case JumpIfFalsePeek(t) => Some(t)
    case JumpIfTruePeek(t) => Some(t)
    case Loop(t) => Some(t)
    case _ => None
  }

  function WithTarget(i: Ins, t: nat): (r: Ins)
    ensures Target(i).None? ==> r == i
    ensures Target(i).Some? ==> Target(r) == Some(t)
  {
    match i
    case Jump(_) => Jump(t)
    case JumpIfFalse(_) => JumpIfFalse(t)
    case JumpIfTrue(_) => JumpIfTrue(t)
    case JumpIfFalsePeek(_) => JumpIfFalsePeek(t)
    case JumpIfTruePeek(_) => JumpIfTruePeek(t)
    case Loop(_) => Loop(t)
    case _ => i
  }

  // Jump targets turned from indexes into word addresses.
  function Addressed(v: Insns, i: Ins): Ins
    requires Target(i).Some? ==> Target(i).value <= |v|
  {
    if Target(i).Some? then WithTarget(i, Off(v, Target(i).value)) else i
  }

  predicate WellSized(i: Insn) {
    |i.operands| == Written(i.code)
  }

  // Instruction i of the list does what ins says, its jump landing on the target.
  ghost predicate Means(v: Insns, pool: seq<Constant>, i: nat, ins: Ins)
    requires i < |v|
  {
    && WellSized(v[i])
    && (Target(ins).Some? ==> Target(ins).value <= |v|)
    && Decode(v[i].code, v[i].operands, pool, Off(v, i)) == Some(Addressed(v, ins))
  }

  ghost predicate AllMean(v: Insns, pool: seq<Constant>, p: seq<Ins>) {
    |v| == |p| && forall i | 0 <= i < |v| :: Means(v, pool, i, p[i])
  }

  // A state of the list machine as one of the word machine.
  function InWords(v: Insns, s: State): State
    requires s.Running? ==> s.pc <= |v|
  {
    if s.Running? then Running(Off(v, s.pc), s.stack, s.env) else s
  }

  lemma FetchInsn(v: Insns, pool: seq<Constant>, i: nat, ins: Ins)
    requires i < |v| && Means(v, pool, i, ins)
    ensures Fetch(Flatten(v), pool, Off(v, i)) == Some((Addressed(v, ins), Size(v[i])))
  {
    hide Off, Flatten, Decode, Written, WordsRead;
    CountsAgree(v[i].code);
    FlattenAt(v, i);
    var words, a, b := Flatten(v), Off(v, i), Off(v, i + 1);
    assert words[a] == words[a..b][0];
    assert words[a + 1..b] == words[a..b][1..];
  }

  lemma ExecAddressed(v: Insns, i: nat, ins: Ins, stack: seq<Value>, env: Env)
    requires i < |v| && (Target(ins).Some? ==> Target(ins).value <= |v|)
    ensures var s := Exec(ins, i + 1, stack, env);
            && (s.Running? ==> s.pc <= |v|)
            && Exec(Addressed(v, ins), Off(v, i + 1), stack, env) == InWords(v, s)
  {
    hide Binary, Comparison, Off, Negated;
  }

  lemma TargetInRange(v: Insns, pool: seq<Constant>, i: nat, ins: Ins)
    requires i < |v| && Means(v, pool, i, ins)
    ensures Target(ins).Some? ==> Target(ins).value <= |v|
  {
  }

  // One step on the words is one step on the list.
  lemma WordStepAgrees(v: Insns, pool: seq<Constant>, p: seq<Ins>, s: State)
    requires AllMean(v, pool, p) && (s.Running? ==> s.pc <= |v|)
    ensures var t := Step(p, s);
            && (t.Running? ==> t.pc <= |v|)
            && WordStep(Flatten(v), pool, InWords(v, s)) == InWords(v, t)
  {
    hide Exec, Decode, Flatten, WordsRead, Means, Addressed, Off;
    FlattenLength(v);
    if s.Running? && s.pc < |v| {
      TargetInRange(v, pool, s.pc, p[s.pc]);
      FlattenAt(v, s.pc);
      FetchInsn(v, pool, s.pc, p[s.pc]);
      ExecAddressed(v, s.pc, p[s.pc], s.stack, s.env);
    }
  }

  lemma {:induction false} WordStepsAgree(v: Insns, pool: seq<Constant>, p: seq<Ins>, s: State, n: nat)
    requires AllMean(v, pool, p) && (s.Running? ==> s.pc <= |v|)
    ensures var t := Steps(p, s, n);
            && (t.Running? ==> t.pc <= |v|)
            && WordSteps(Flatten(v), pool, InWords(v, s), n) == InWords(v, t)
    decreases n
  {
    hide AllMean, Step, WordStep;
    if n > 0 {
      WordStepAgrees(v, pool, p, s);
      WordStepsAgree(v, pool, p, Step(p, s), n - 1);
    }
  }

  // Running the words from the start comes to the same end as running the list.
  lemma WordsRunAlike(v: Insns, pool: seq<Constant>, p: seq<Ins>, env: Env, end: State)
    requires AllMean(v, pool, p)
    ensures WordsEndIn(Flatten(v), pool, Running(0, [], env), end)
       <==> EndsIn(p, Running(0, [], env), end)
  {
    hide AllMean, Steps, WordSteps;
    var s := Running(0, [], env);
    assert InWords(v, s) == s;
    forall n: nat ensures end.Running? || (WordSteps(Flatten(v), pool, s, n) == end <==> Steps(p, s, n) == end) {
      WordStepsAgree(v, pool, p, s, n);
    }
  }
}
