// The list the code generator leaves of a tree, as a function of the list before.
module Drafts {
  import opened Opcodes
  import opened Machine
  import opened Ast
  import opened Code
  import opened Emission

  function CodeOf(op: ArithOp): (code: nat)
    ensures ArithOf(code) == Machine.Some(op) && !IsJump(code) && !IsLoop(code) && Written(code) == 0
  {
    match op
    case Add => OP_ADD
    case Sub => OP_SUBTRACT
    case Mul => OP_MULTIPLY
    case Div => OP_DIVIDE
    case Mod => OP_MODULO
    case BitOr => OP_BITOR
    case BitAnd => OP_BITAND
    case BitXor => OP_BITXOR
    case ShiftL => OP_SHOVEL_L
    case ShiftR => OP_SHOVEL_R
  }

  function CompareCode(op: CmpOp): (code: nat)
    ensures ArithOf(code).None? && CmpOf(code) == Machine.Some(op) && !IsJump(code) && !IsLoop(code)
      && Written(code) == 0
  {
    match op
    case Less => OP_LESS
    case Greater => OP_GREATER
    case LessEq => OP_LESS_EQUAL
    case GreaterEq => OP_GREATER_EQUAL
    case Equal => OP_EQUAL
    case NotEqual => OP_NOT_EQUAL
  }

  function Simple(d: Draft, code: nat): (r: Draft)
    ensures |r.v| == |d.v| + 1
  {
    Added(d, code, [], false)
  }

  // An instruction that names a variable, whose name joins the constants once.
  function Named(d: Draft, code: nat, name: string): (r: Draft)
    ensures |r.v| == |d.v| + 1
  {
    if name in d.strings then Added(d, code, [d.strings[name]], false)
    else
      var n := |d.pool|;
      Added(d.(pool := d.pool + [StringConst(name)], strings := d.strings[name := n]), code, [n], false)
  }

  function NumberDraft(d: Draft, r: real): (e: Draft)
    ensures |e.v| == |d.v| + 1
  {
    Added(d.(pool := d.pool + [NumberConst(r)]), OP_CONSTANT, [|d.pool|], true)
  }

  function ExprDraft(d: Draft, e: Expr): (r: Draft)
    ensures |r.v| > |d.v|
    decreases e
  {
    match e
    case Number(r) => NumberDraft(d, r)
    case True => Simple(d, OP_TRUE)
    case False => Simple(d, OP_FALSE)
    case NilLiteral => Simple(d, OP_NIL)
    case Grouping(e1) => ExprDraft(d, e1)
    case Variable(x) => Named(d, OP_GET_GLOBAL, x)
    case Assign(x, e1) => Named(ExprDraft(d, e1), OP_SET_GLOBAL, x)
    case OpAssign(x, op, e1) => ArithSet(ExprDraft(Named(d, OP_GET_GLOBAL, x), e1), op, x)
    case Binary(op, e1, e2) => Simple(ExprDraft(ExprDraft(d, e1), e2), CodeOf(op))
    case Comparison(op, e1, e2) => Simple(ExprDraft(ExprDraft(d, e1), e2), CompareCode(op))
    case AndExpr(e1, e2) =>
      var l := ExprDraft(d, e1);
      PatchedTail(Simple(ExprDraft(Opened(l, OP_JUMP_IF_FALSE_PEEK, false), e2), OP_AND), |l.v|)
    case OrExpr(e1, e2) =>
      var l := ExprDraft(d, e1);
      PatchedTail(Simple(ExprDraft(Opened(l, OP_JUMP_IF_TRUE_PEEK, false), e2), OP_OR), |l.v|)
    case Minus(e1) => Simple(ExprDraft(d, e1), OP_NEGATE)
    case Bang(e1) => Simple(ExprDraft(d, e1), OP_NOT)
  }

  function ArithSet(d: Draft, op: ArithOp, name: string): (r: Draft)
    ensures |r.v| == |d.v| + 2
  {
    Named(Simple(d, CodeOf(op)), OP_SET_GLOBAL, name)
  }

  // The instruction at k notes the jump at j.
  function Noted(d: Draft, k: nat, j: nat): (r: Draft)
    requires k < |d.v|
    ensures |r.v| == |d.v|
  {
    d.(v := d.v[k := d.v[k].(jumpTo := To(j))])
  }

  // Where a loop notes its jump: at the first instruction of its condition, or at the last
  // if nothing comes before the loop.
  function NotePlace(d: Draft, e: Draft): (k: nat)
    requires |e.v| > |d.v|
    ensures |d.v| <= k < |e.v|
  {
    if |d.v| > 0 then |d.v| else |e.v| - 1
  }

  function StmtDraft(d: Draft, s: Stmt): (r: Draft)
    ensures |r.v| >= |d.v|
    decreases s
  {
    match s
    case ExprStmt(e) => Simple(ExprDraft(d, e), OP_POP)
    case PrintStmt(e) => Simple(ExprDraft(d, e), OP_PRINT)
    case If(c, t) =>
      var test := ExprDraft(d, c);
      PatchedNext(StmtDraft(Opened(test, OP_JUMP_IF_FALSE, false), t), |test.v|)
    case IfElse(c, t, e) =>
      var first := ThenDraft(d, s);
      PatchedNext(StmtDraft(first, e), |first.v| - 1)
    case While(c, b) =>
      var test := ExprDraft(d, c);
      var body := Noted(StmtDraft(Opened(test, OP_JUMP_IF_FALSE, true), b), NotePlace(d, test), |test.v|);
      PatchedNext(Looped(body, |d.v|), |test.v|)
    case Block(ss) => StmtsDraft(d, ss)
  }

  // The condition, the first branch and the jump over the second.
  function ThenDraft(d: Draft, s: Stmt): (r: Draft)
    requires s.IfElse?
    ensures |r.v| > |d.v|
    decreases s, 0
  {
    var test := ExprDraft(d, s.cond);
    PatchedNext(Opened(StmtDraft(Opened(test, OP_JUMP_IF_FALSE, false), s.thenBranch), OP_JUMP, false), |test.v|)
  }

  function StmtsDraft(d: Draft, ss: Stmts): (r: Draft)
    ensures |r.v| >= |d.v|
    decreases ss
  {
    match ss
    case None => d
    case More(s, rest) => StmtsDraft(StmtDraft(d, s), rest)
  }

  function ItemDraft(d: Draft, i: Item): Draft {
    match i
    case VarStmt(x) => Named(Simple(d, OP_NIL), OP_DEFINE_GLOBAL, x)
    case VarInit(x, e) => Named(ExprDraft(d, e), OP_DEFINE_GLOBAL, x)
    case Plain(s) => StmtDraft(d, s)
  }

  function ItemsDraft(d: Draft, p: Program): Draft
    decreases |p|
  {
    if p == [] then d else ItemDraft(ItemsDraft(d, p[..|p| - 1]), p[|p| - 1])
  }

  function ProgramDraft(p: Program): Draft {
    Simple(ItemsDraft(EMPTY_DRAFT, p), OP_LEAVE)
  }
}
