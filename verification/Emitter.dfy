// The code generator: a tree is emitted instruction by instruction onto the end of the
// list, and jumps are patched once their targets are there.
module Emitters {
  import opened Opcodes
  import opened Machine
  import opened Ast
  import opened Compile
  import opened Code
  import opened Patch
  import opened Simplify
  import opened Optimizer
  import opened Iseqs
  import opened IseqOptimizer
  import opened Chunks
  import opened Emission
  import opened Drafts

  // The operation without operands that does ins.
  predicate PlainOp(code: nat, ins: Ins) {
    && Target(ins).None? && !IsJump(code) && !IsLoop(code) && Written(code) == 0
    && Decode(code, [], [], 0) == Machine.Some(ins)
  }

  lemma PlainConstants()
    ensures PlainOp(OP_TRUE, Push(Bool(true))) && PlainOp(OP_FALSE, Push(Bool(false))) && PlainOp(OP_NIL, Push(Nil))
  {
  }

  lemma PlainUnary()
    ensures PlainOp(OP_NEGATE, Negate) && PlainOp(OP_NOT, Not)
  {
  }

  lemma PlainLogical()
    ensures PlainOp(OP_AND, And) && PlainOp(OP_OR, Or)
    ensures IsJump(OP_JUMP_IF_FALSE_PEEK) && IsJump(OP_JUMP_IF_TRUE_PEEK)
  {
  }

  lemma PlainStatement()
    ensures PlainOp(OP_POP, Pop(1)) && PlainOp(OP_PRINT, Print) && PlainOp(OP_LEAVE, Leave)
  {
  }

  lemma PlainArith(op: ArithOp)
    ensures PlainOp(CodeOf(op), Arith(op))
  {
    hide CodeOf, Written, IsJump, IsLoop, ArithOf;
  }

  lemma PlainCompare(op: CmpOp)
    ensures PlainOp(CompareCode(op), Cmp(op))
  {
    hide CompareCode, Written, IsJump, IsLoop, ArithOf, CmpOf;
  }

  lemma PlainEmitted(d: Draft, code: nat, ins: Ins)
    requires StringsOk(d.pool, d.strings) && PlainOp(code, ins)
    ensures Emitted(d, Added(d, code, [], false), [ins], {})
  {
    hide Emitted;
    EmittedPlain(d, code, [], ins);
  }

  class Emitter {
    const iseq: Iseq
    var constTbl: map<string, nat>
    var nextInsnIsLabel: bool

    ghost predicate Valid()
      reads this, iseq, iseq.nodes
    {
      iseq.Valid() && iseq.stale == 0 && StringsOk(iseq.constants, constTbl)
    }

    ghost function D(): Draft
      reads this, iseq
    {
      Draft(iseq.view, iseq.constants, constTbl, nextInsnIsLabel)
    }

    constructor ()
      ensures Valid() && D() == EMPTY_DRAFT && fresh(iseq)
    {
      iseq := new Iseq();
      constTbl, nextInsnIsLabel := map[], false;
    }

    lemma Sizes()
      requires Valid()
      ensures |D().v| == |iseq.nodes| == |iseq.view|
    {
    }

    method EmitInsn(code: nat, operands: seq<nat>, isNumber: bool) returns (n: Node)
      requires Valid()
      modifies this, iseq, iseq.nodes
      ensures Valid() && D() == Added(old(D()), code, operands, isNumber)
      ensures iseq.nodes == old(iseq.nodes) + [n] && fresh(n)
    {
      hide Showing, Chained, Distinct, Off;
      n := new Node(code, operands, isNumber, nextInsnIsLabel);
      nextInsnIsLabel := false;
      iseq.AddInsn(n);
    }

    // The index of a string among the constants, which it joins only once.
    method IdentifierConstant(name: string) returns (i: nat)
      requires Valid()
      modifies `constTbl, iseq`constants
      ensures Valid() && D().v == old(D()).v && D().label_ == old(D()).label_ && old(D()).pool <= D().pool
      ensures i < |D().pool| && D().pool[i] == StringConst(name)
      ensures name in old(constTbl) ==> D() == old(D()) && i == old(constTbl)[name]
      ensures name !in old(constTbl) ==>
        && i == |old(D()).pool| && D().pool == old(D()).pool + [StringConst(name)]
        && constTbl == old(constTbl)[name := i]
    {
      if name in constTbl {
        return constTbl[name];
      }
      i := |iseq.constants|;
      iseq.constants := iseq.constants + [StringConst(name)];
      constTbl := constTbl[name := i];
    }

    // An instruction without operands.
    method EmitOp(code: nat, ghost ins: Ins) returns (n: Node)
      requires Valid() && PlainOp(code, ins)
      modifies this, iseq, iseq.nodes
      ensures Valid() && Emitted(old(D()), D(), [ins], {}) && D() == Added(old(D()), code, [], false)
      ensures iseq.nodes == old(iseq.nodes) + [n] && fresh(n)
    {
      hide PlainOp, Emitted, StringsOk;
      PlainEmitted(D(), code, ins);
      n := EmitInsn(code, [], false);
    }

    // An instruction that names a global variable.
    method EmitNamed(code: nat, name: string, ghost ins: Ins) returns (n: Node)
      requires Valid()
      requires (code == OP_GET_GLOBAL && ins == GetGlobal(name)) || (code == OP_SET_GLOBAL && ins == SetGlobal(name))
        || (code == OP_DEFINE_GLOBAL && ins == DefineGlobal(name))
      modifies this, iseq, iseq.nodes
      ensures Valid() && Emitted(old(D()), D(), [ins], {}) && D() == Named(old(D()), code, name)
      ensures iseq.nodes == old(iseq.nodes) + [n] && fresh(n)
    {
      hide Emitted, StringsOk;
      ghost var d := D();
      var i := IdentifierConstant(name);
      ghost var c := D();
      NamedOk(c, code, name, i, ins);
      n := EmitInsn(code, [i], false);
      EmittedLater(d, c, D(), [ins]);
    }

    method EmitNumber(r: real) returns (n: Node)
      requires Valid()
      modifies this, iseq, iseq.nodes
      ensures Valid() && Emitted(old(D()), D(), [Push(Num(r))], {}) && D() == NumberDraft(old(D()), r)
      ensures iseq.nodes == old(iseq.nodes) + [n] && fresh(n)
    {
      hide Emitted;
      EmittedNumber(D(), r);
      var i := |iseq.constants|;
      iseq.constants := iseq.constants + [NumberConst(r)];
      n := EmitInsn(OP_CONSTANT, [i], true);
    }

    // A forward jump, to be patched.
    method EmitJump(code: nat, labelled: bool) returns (n: Node)
      requires Valid() && IsJump(code)
      modifies this, iseq, iseq.nodes
      ensures Valid() && D() == Opened(old(D()), code, labelled)
      ensures iseq.nodes == old(iseq.nodes) + [n] && fresh(n)
    {
      hide Showing, Chained, Distinct, Off;
      n := EmitInsn(code, [0], false);
      if labelled {
        ViewSize(iseq.nodes, iseq.view);
        ghost var j := |iseq.nodes| - 1;
        ghost var v := iseq.view;
        iseq.MarkLabel(n, j);
        LabelOff(v, j);
      }
    }

    // Patches a jump to land behind the last instruction, whose successor is labelled.
    method PatchNext(n: Node, ghost j: nat)
      requires Valid() && j < |iseq.nodes| && iseq.nodes[j] == n && |D().v| == |iseq.nodes| && |D().v[j].operands| == 1
      requires D().v[j].jumpTo == NoLink
      modifies this, iseq, iseq.nodes
      ensures Valid() && iseq.nodes == old(iseq.nodes)
      ensures D() == PatchedNext(old(D()), j)
    {
      hide Showing, Chained, Distinct, Off;
      ghost var v, last := iseq.view, |iseq.nodes| - 1;
      JumpSpan(v, j);
      AtNode(iseq, last);
      AtNode(iseq, j);
      TailNode(iseq);
      var tail := iseq.tail;
      var offset := InsnOffset(iseq, n, tail, j, last);
      offset := offset + |tail.operands|;
      LinkSame(iseq.nodes, last);
      ShownLinks(iseq.nodes, v, j);
      Overlink(iseq, n, [offset], n.jumpTo, tail, j);
      nextInsnIsLabel := true;
    }

    // Patches a jump to land behind the operator just emitted, which is labelled.
    method PatchTail(n: Node, ghost j: nat)
      requires Valid() && j < |iseq.nodes| - 1 && iseq.nodes[j] == n && |D().v| == |iseq.nodes|
        && |D().v[j].operands| == 1
      modifies this, iseq, iseq.nodes
      ensures Valid() && iseq.nodes == old(iseq.nodes)
      ensures D() == PatchedTail(old(D()), j)
    {
      hide Showing, Chained, Distinct, Off;
      ghost var v, last := iseq.view, |iseq.nodes| - 1;
      JumpSpan(v, j);
      AtNode(iseq, last);
      AtNode(iseq, j);
      TailNode(iseq);
      var tail := iseq.tail;
      var offset := InsnOffset(iseq, n, tail, j, last);
      LinkSame(iseq.nodes, last);
      ShownLinks(iseq.nodes, v, j);
      Overlink(iseq, n, [offset], tail, n.jumpToPrev, j);
      TailNode(iseq);
      LabelOff(iseq.view, last);
      iseq.MarkLabel(tail, last);
    }

    // ---------- expressions ----------

    method EmitExpr(e: Expr)
      requires Valid()
      modifies this, iseq, iseq.nodes
      ensures Valid() && Emitted(old(D()), D(), ExprCode(e, |old(D()).v|), {}) && D() == ExprDraft(old(D()), e)
      ensures old(iseq.nodes) <= iseq.nodes && forall k | |old(iseq.nodes)| <= k < |iseq.nodes| :: fresh(iseq.nodes[k])
      decreases e, 3
    {
      hide Valid, Emitted, StringsOk, PlainOp, ExprCode, ExprDraft;
      PlainConstants();
      ghost var lo := |D().v|;
      ExprCodes(e, lo);
      LeafDrafts(D(), e);
      var n;
      match e
      case Number(r) =>
        n := EmitNumber(r);
      case True =>
        n := EmitOp(OP_TRUE, Push(Bool(true)));
      case False =>
        n := EmitOp(OP_FALSE, Push(Bool(false)));
      case NilLiteral =>
        n := EmitOp(OP_NIL, Push(Nil));
      case Grouping(inner) =>
        EmitExpr(inner);
      case Variable(x) =>
        n := EmitNamed(OP_GET_GLOBAL, x, GetGlobal(x));
      case _ =>
        EmitOperation(e);
    }

    // An operand and what is done with it.
    method EmitUnary(e: Expr)
      requires Valid() && (e.Minus? || e.Bang? || e.Assign?)
      modifies this, iseq, iseq.nodes
      ensures Valid() && Emitted(old(D()), D(), ExprCode(e, |old(D()).v|), {}) && D() == ExprDraft(old(D()), e)
      ensures old(iseq.nodes) <= iseq.nodes && forall k | |old(iseq.nodes)| <= k < |iseq.nodes| :: fresh(iseq.nodes[k])
      decreases e, 0
    {
      hide Valid, Emitted, StringsOk, PlainOp, ExprCode, ExprDraft;
      PlainUnary();
      ghost var d := D();
      UnaryDraft(d, e);
      EmitExpr(if e.Assign? then e.rhs else e.inner);
      ghost var d1, lo := D(), |d.v|;
      ghost var last;
      var n;
      if e.Minus? {
        last := Negate;
        n := EmitOp(OP_NEGATE, Negate);
      } else if e.Bang? {
        last := Not;
        n := EmitOp(OP_NOT, Not);
      } else {
        last := SetGlobal(e.name);
        n := EmitNamed(OP_SET_GLOBAL, e.name, last);
      }
      UnaryCode(e, lo);
      EmittedThen(d, d1, D(), ExprCode(if e.Assign? then e.rhs else e.inner, lo), [last], {});
    }

    // Two operands and the operator.
    method EmitBinary(e: Expr)
      requires Valid() && (e.Binary? || e.Comparison?)
      modifies this, iseq, iseq.nodes
      ensures Valid() && Emitted(old(D()), D(), ExprCode(e, |old(D()).v|), {}) && D() == ExprDraft(old(D()), e)
      ensures old(iseq.nodes) <= iseq.nodes && forall k | |old(iseq.nodes)| <= k < |iseq.nodes| :: fresh(iseq.nodes[k])
      decreases e, 0
    {
      hide Valid, Emitted, StringsOk, PlainOp, ExprCode, ExprDraft;
      BinaryDraft(D(), e);
      if e.Binary? {
        PlainArith(e.aop);
      } else {
        PlainCompare(e.cop);
      }
      ghost var d := D();
      EmitExpr(e.left);
      ghost var d1 := D();
      EmitExpr(e.right);
      ghost var d2 := D();
      var code := if e.Binary? then CodeOf(e.aop) else CompareCode(e.cop);
      ghost var last := if e.Binary? then Arith(e.aop) else Cmp(e.cop);
      var n := EmitOp(code, last);
      ghost var l := ExprCode(e.left, |d.v|);
      EmittedSize(d, d1, l, {});
      ghost var r := ExprCode(e.right, |d1.v|);
      EmittedThen(d, d1, d2, l, r, {});
      EmittedThen(d, d2, D(), l + r, [last], {});
      BinaryCode(e, |d.v|);
    }

    method EmitArithSet(op: ArithOp, name: string)
      requires Valid()
      modifies this, iseq, iseq.nodes
      ensures Valid() && Emitted(old(D()), D(), [Arith(op), SetGlobal(name)], {}) && D() == ArithSet(old(D()), op, name)
      ensures old(iseq.nodes) <= iseq.nodes && forall k | |old(iseq.nodes)| <= k < |iseq.nodes| :: fresh(iseq.nodes[k])
    {
      hide Valid, Emitted, StringsOk, PlainOp;
      PlainArith(op);
      ghost var d := D();
      var n := EmitOp(CodeOf(op), Arith(op));
      ghost var d1 := D();
      n := EmitNamed(OP_SET_GLOBAL, name, SetGlobal(name));
      EmittedThen(d, d1, D(), [Arith(op)], [SetGlobal(name)], {});
      assert [Arith(op)] + [SetGlobal(name)] == [Arith(op), SetGlobal(name)];
    }

    // The variable, the right side, the operator and the assignment.
    method EmitOpAssign(e: Expr)
      requires Valid() && e.OpAssign?
      modifies this, iseq, iseq.nodes
      ensures Valid() && Emitted(old(D()), D(), ExprCode(e, |old(D()).v|), {}) && D() == ExprDraft(old(D()), e)
      ensures old(iseq.nodes) <= iseq.nodes && forall k | |old(iseq.nodes)| <= k < |iseq.nodes| :: fresh(iseq.nodes[k])
      decreases e, 0
    {
      hide Valid, Emitted, StringsOk, ExprCode, ExprDraft, ArithSet, Named;
      ghost var d := D();
      OpAssignDraft(d, e);
      var n := EmitNamed(OP_GET_GLOBAL, e.name, GetGlobal(e.name));
      ghost var d1 := D();
      EmitExpr(e.rhs);
      ghost var d2 := D();
      EmitArithSet(e.op, e.name);
      ghost var r := ExprCode(e.rhs, |d1.v|);
      EmittedThen(d, d1, d2, [GetGlobal(e.name)], r, {});
      EmittedThen(d, d2, D(), [GetGlobal(e.name)] + r, [Arith(e.op), SetGlobal(e.name)], {});
      OpAssignCode(e, |d.v|);
    }

    // The two sides of a logical expression, with the jump over the right one still open.
    method EmitSides(e: Expr, jumpCode: nat) returns (skip: Node, ghost j: nat)
      requires Valid() && (e.AndExpr? || e.OrExpr?) && IsJump(jumpCode)
      modifies this, iseq, iseq.nodes
      ensures var l := ExprCode(e.left, |old(D()).v|);
        var r := ExprCode(e.right, j + 1);
        && Valid() && j == |old(D()).v| + |l| < |iseq.nodes| && iseq.nodes[j] == skip
        && Emitted(old(D()), D(), l + [JumpIns(jumpCode, j + 1 + |r| + 1)] + r, {j})
        && var d1 := ExprDraft(old(D()), e.left); j == |d1.v| && D() == ExprDraft(Opened(d1, jumpCode, false), e.right)
      ensures old(iseq.nodes) <= iseq.nodes && forall k | |old(iseq.nodes)| <= k < |iseq.nodes| :: fresh(iseq.nodes[k])
      decreases e, 0
    {
      hide Valid, Emitted, StringsOk, ExprCode, IsJump, JumpIns, ExprDraft;
      ghost var d, lo := D(), |D().v|;
      EmitExpr(e.left);
      ghost var d1 := D();
      ghost var l := ExprCode(e.left, lo);
      EmittedSize(d, d1, l, {});
      Sizes();
      j := |d1.v|;
      skip := EmitJump(jumpCode, false);
      ghost var d2 := D();
      ghost var r := ExprCode(e.right, j + 1);
      EmittedOpen(d, d1, l, {}, jumpCode, false, j + 1 + |r| + 1);
      assert {} + {j} == {j};
      EmitExpr(e.right);
      EmittedThen(d, d2, D(), l + [JumpIns(jumpCode, j + 1 + |r| + 1)], r, {j});
    }

    // The left side, the jump over the right one and the operator, at which it lands.
    method EmitLogical(e: Expr)
      requires Valid() && (e.AndExpr? || e.OrExpr?)
      modifies this, iseq, iseq.nodes
      ensures Valid() && Emitted(old(D()), D(), ExprCode(e, |old(D()).v|), {}) && D() == ExprDraft(old(D()), e)
      ensures old(iseq.nodes) <= iseq.nodes && forall k | |old(iseq.nodes)| <= k < |iseq.nodes| :: fresh(iseq.nodes[k])
      decreases e, 1
    {
      hide Valid, Emitted, StringsOk, PlainOp, ExprCode, IsJump, JumpIns, PatchedTail, Off, ExprDraft;
      PlainLogical();
      ghost var d := D();
      LogicalDraft(d, e);
      var jumpCode := if e.AndExpr? then OP_JUMP_IF_FALSE_PEEK else OP_JUMP_IF_TRUE_PEEK;
      var skip;
      ghost var j;
      skip, j := EmitSides(e, jumpCode);
      ghost var d1 := D();
      ghost var l := ExprCode(e.left, |d.v|);
      ghost var r := ExprCode(e.right, j + 1);
      ghost var jump := JumpIns(jumpCode, j + 1 + |r| + 1);
      ghost var last := if e.AndExpr? then And else Or;
      var n := EmitOp(if e.AndExpr? then OP_AND else OP_OR, last);
      EmittedThen(d, d1, D(), l + [jump] + r, [last], {j});
      JumpTarget(jumpCode, j + 1 + |r| + 1);
      LogicalTail(d, D(), l, jump, r, last, j);
      Sizes();
      PatchTail(skip, j);
      LogicalParts(e, |d.v|);
    }

    method EmitOperation(e: Expr)
      requires Valid() && !e.Number? && !e.True? && !e.False? && !e.NilLiteral? && !e.Grouping? && !e.Variable?
      modifies this, iseq, iseq.nodes
      ensures Valid() && Emitted(old(D()), D(), ExprCode(e, |old(D()).v|), {}) && D() == ExprDraft(old(D()), e)
      ensures old(iseq.nodes) <= iseq.nodes && forall k | |old(iseq.nodes)| <= k < |iseq.nodes| :: fresh(iseq.nodes[k])
      decreases e, 2
    {
      hide Emitted, StringsOk, ExprCode, ExprDraft;
      if e.OpAssign? {
        EmitOpAssign(e);
      } else if e.Binary? || e.Comparison? {
        EmitBinary(e);
      } else if e.AndExpr? || e.OrExpr? {
        EmitLogical(e);
      } else {
        EmitUnary(e);
      }
    }

    // ---------- statements ----------

    // A condition and the jump taken when it is false, which is to land on t.
    method EmitTest(c: Expr, labelled: bool, ghost t: nat) returns (skip: Node, ghost j: nat)
      requires Valid()
      modifies this, iseq, iseq.nodes
      ensures Valid() && j == |old(D()).v| + |ExprCode(c, |old(D()).v|)| && j + 1 == |iseq.nodes| == |D().v|
        && iseq.nodes[j] == skip
      ensures Emitted(old(D()), D(), ExprCode(c, |old(D()).v|) + [JumpIfFalse(t)], {j})
      ensures NoValueEnd(D().v) && D() == Opened(ExprDraft(old(D()), c), OP_JUMP_IF_FALSE, labelled)
      ensures old(iseq.nodes) <= iseq.nodes && forall k | |old(iseq.nodes)| <= k < |iseq.nodes| :: fresh(iseq.nodes[k])
    {
      hide Valid, Emitted, StringsOk, ExprCode, ExprDraft;
      ghost var d := D();
      EmitExpr(c);
      ghost var d1 := D();
      EmittedSize(d, d1, ExprCode(c, |d.v|), {});
      Sizes();
      j := |d1.v|;
      skip := EmitJump(OP_JUMP_IF_FALSE, labelled);
      EmittedOpen(d, d1, ExprCode(c, |d.v|), {}, OP_JUMP_IF_FALSE, labelled, t);
      assert {} + {j} == {j};
    }

    // Closes an open jump, to land behind all that has been emitted since d.
    method CloseJump(skip: Node, ghost j: nat, ghost d: Draft, ghost code: seq<Ins>, ghost open: set<nat>)
      requires Valid() && Emitted(d, D(), code, open) && j in open
        && |d.v| <= j < |iseq.nodes| == |D().v| == |d.v| + |code|
      requires iseq.nodes[j] == skip && Target(code[j - |d.v|]) == Machine.Some(|D().v|) && NoValueEnd(D().v)
      modifies this, iseq, iseq.nodes
      ensures Valid() && iseq.nodes == old(iseq.nodes) && D() == PatchedNext(old(D()), j) && |D().v| == |old(D()).v|
      ensures Emitted(d, D(), code, open - {j}) && NoValueEnd(D().v)
    {
      hide Valid, Emitted, Off;
      OpenAt(d, D(), code, open, j);
      EmittedNext(d, D(), code, open, j);
      PatchNext(skip, j);
    }

    method EmitStmt(s: Stmt)
      requires Valid() && NoValueEnd(D().v)
      modifies this, iseq, iseq.nodes
      ensures Valid() && Emitted(old(D()), D(), StmtCode(s, |old(D()).v|), {}) && NoValueEnd(D().v)
      ensures D() == StmtDraft(old(D()), s)
      ensures old(iseq.nodes) <= iseq.nodes && forall k | |old(iseq.nodes)| <= k < |iseq.nodes| :: fresh(iseq.nodes[k])
      decreases s, 2
    {
      hide Valid, Emitted, StmtCode, NoValueEnd, StmtDraft;
      if s.ExprStmt? || s.PrintStmt? {
        EmitSimple(s);
      } else if s.If? {
        EmitIf(s);
      } else if s.IfElse? {
        EmitIfElse(s);
      } else if s.While? {
        EmitWhile(s);
      } else {
        EmitStmts(s.stmts);
        BlockParts(s, |old(D()).v|);
        BlockDraft(old(D()), s);
      }
    }

    method EmitStmts(ss: Stmts)
      requires Valid() && NoValueEnd(D().v)
      modifies this, iseq, iseq.nodes
      ensures Valid() && Emitted(old(D()), D(), StmtsCode(ss, |old(D()).v|), {}) && NoValueEnd(D().v)
      ensures D() == StmtsDraft(old(D()), ss)
      ensures old(iseq.nodes) <= iseq.nodes && forall k | |old(iseq.nodes)| <= k < |iseq.nodes| :: fresh(iseq.nodes[k])
      decreases ss, 0
    {
      hide Valid, Emitted, StmtCode, NoValueEnd, StringsOk, StmtDraft;
      match ss
      case None =>
        NothingEmitted();
      case More(first, rest) =>
        ghost var d := D();
        EmitStmt(first);
        ghost var d1 := D();
        EmittedSize(d, d1, StmtCode(first, |d.v|), {});
        EmitStmts(rest);
        EmittedThen(d, d1, D(), StmtCode(first, |d.v|), StmtsCode(rest, |d1.v|), {});
    }

    lemma NothingEmitted()
      requires Valid()
      ensures Emitted(D(), D(), [], {})
    {
      EmittedNone(D());
    }

    // An expression and what takes its value.
    method EmitSimple(s: Stmt)
      requires Valid() && (s.ExprStmt? || s.PrintStmt?)
      modifies this, iseq, iseq.nodes
      ensures Valid() && Emitted(old(D()), D(), StmtCode(s, |old(D()).v|), {}) && NoValueEnd(D().v)
      ensures D() == StmtDraft(old(D()), s)
      ensures old(iseq.nodes) <= iseq.nodes && forall k | |old(iseq.nodes)| <= k < |iseq.nodes| :: fresh(iseq.nodes[k])
    {
      hide Valid, Emitted, PlainOp, ExprCode, ExprDraft;
      PlainStatement();
      ghost var d := D();
      EmitExpr(s.e);
      ghost var d1 := D();
      var code := if s.ExprStmt? then OP_POP else OP_PRINT;
      ghost var last := if s.ExprStmt? then Pop(1) else Print;
      var n := EmitOp(code, last);
      EmittedThen(d, d1, D(), ExprCode(s.e, |d.v|), [last], {});
    }

    method EmitIf(s: Stmt)
      requires Valid() && s.If? && NoValueEnd(D().v)
      modifies this, iseq, iseq.nodes
      ensures Valid() && Emitted(old(D()), D(), StmtCode(s, |old(D()).v|), {}) && NoValueEnd(D().v)
      ensures D() == StmtDraft(old(D()), s)
      ensures old(iseq.nodes) <= iseq.nodes && forall k | |old(iseq.nodes)| <= k < |iseq.nodes| :: fresh(iseq.nodes[k])
      decreases s, 1
    {
      hide Valid, Emitted, StmtCode, ExprCode, NoValueEnd, ExprDraft, StmtDraft, PatchedNext;
      ghost var d := D();
      IfDraft(d, s);
      ghost var lo, cc := |d.v|, ExprCode(s.cond, |d.v|);
      ghost var tc := StmtCode(s.thenBranch, lo + |cc| + 1);
      ghost var end := lo + |cc| + 1 + |tc|;
      var skip;
      ghost var j;
      skip, j := EmitTest(s.cond, false, end);
      ghost var d1 := D();
      EmitStmt(s.thenBranch);
      ghost var code := cc + [JumpIfFalse(end)] + tc;
      EmittedThen(d, d1, D(), cc + [JumpIfFalse(end)], tc, {j});
      EmittedSize(d, D(), code, {j});
      Sizes();
      CloseJump(skip, j, d, code, {j});
      assert {j} - {j} == {};
      IfParts(s, lo);
    }

    // The condition and the first branch of an `if` with an `else`, and the jump over the
    // second one, which is still open.
    method EmitThen(s: Stmt, ghost mid: nat, ghost end: nat) returns (skip: Node, ghost j: nat)
      requires Valid() && s.IfElse? && NoValueEnd(D().v)
      requires var body := |D().v| + |ExprCode(s.cond, |D().v|)| + 1;
        mid == body + |StmtCode(s.thenBranch, body)| + 1
      modifies this, iseq, iseq.nodes
      ensures var lo := |old(D()).v|;
        var cc := ExprCode(s.cond, lo);
        var tc := StmtCode(s.thenBranch, lo + |cc| + 1);
        && Valid() && j + 1 == mid == |iseq.nodes| == |D().v| && iseq.nodes[j] == skip
        && Emitted(old(D()), D(), cc + [JumpIfFalse(mid)] + tc + [Jump(end)], {j}) && NoValueEnd(D().v)
        && D() == ThenDraft(old(D()), s)
      ensures old(iseq.nodes) <= iseq.nodes && forall k | |old(iseq.nodes)| <= k < |iseq.nodes| :: fresh(iseq.nodes[k])
      decreases s, 0
    {
      hide Valid, Emitted, StmtCode, ExprCode, NoValueEnd, ExprDraft, StmtDraft, PatchedNext;
      ghost var d := D();
      ghost var lo, cc := |d.v|, ExprCode(s.cond, |d.v|);
      ghost var tc := StmtCode(s.thenBranch, lo + |cc| + 1);
      var test;
      ghost var i;
      test, i := EmitTest(s.cond, false, mid);
      ghost var d1 := D();
      EmitStmt(s.thenBranch);
      ghost var d2, code := D(), cc + [JumpIfFalse(mid)] + tc;
      EmittedThen(d, d1, d2, cc + [JumpIfFalse(mid)], tc, {i});
      EmittedSize(d, d2, code, {i});
      j := |d2.v|;
      Sizes();
      skip := EmitJump(OP_JUMP, false);
      EmittedOpen(d, d2, code, {i}, OP_JUMP, false, end);
      OpenedEnd(d2, OP_JUMP, false);
      Sizes();
      CloseJump(test, i, d, code + [Jump(end)], {i} + {j});
      assert {i} + {j} - {i} == {j};
    }

    method EmitIfElse(s: Stmt)
      requires Valid() && s.IfElse? && NoValueEnd(D().v)
      modifies this, iseq, iseq.nodes
      ensures Valid() && Emitted(old(D()), D(), StmtCode(s, |old(D()).v|), {}) && NoValueEnd(D().v)
      ensures D() == StmtDraft(old(D()), s)
      ensures old(iseq.nodes) <= iseq.nodes && forall k | |old(iseq.nodes)| <= k < |iseq.nodes| :: fresh(iseq.nodes[k])
      decreases s, 1
    {
      hide Valid, Emitted, StmtCode, ExprCode, NoValueEnd, StmtDraft, ThenDraft, PatchedNext;
      ghost var d := D();
      IfElseDraft(d, s);
      ghost var lo, cc := |d.v|, ExprCode(s.cond, |d.v|);
      ghost var tc := StmtCode(s.thenBranch, lo + |cc| + 1);
      ghost var mid := lo + |cc| + 1 + |tc| + 1;
      ghost var ec := StmtCode(s.elseBranch, mid);
      ghost var end := mid + |ec|;
      var skip;
      ghost var j;
      skip, j := EmitThen(s, mid, end);
      ghost var d1, code := D(), cc + [JumpIfFalse(mid)] + tc + [Jump(end)];
      EmitStmt(s.elseBranch);
      EmittedThen(d, d1, D(), code, ec, {j});
      EmittedSize(d, D(), code + ec, {j});
      Sizes();
      CloseJump(skip, j, d, code + ec, {j});
      assert {j} - {j} == {};
      IfElseParts(s, lo);
    }

    // Links a loop to its target and labels that.
    method LinkLoop(loop: Node, target: Node, ghost i: nat, ghost t: nat)
      requires Valid() && t < i < |iseq.nodes| == |iseq.view| && iseq.nodes[i] == loop && iseq.nodes[t] == target
      requires iseq.view[i].jumpToPrev == NoLink
      modifies iseq`view, loop`code, loop`operands, loop`jumpTo, loop`jumpToPrev, target`isLabel
      ensures Valid() && iseq.constants == old(iseq.constants)
      ensures var w := old(iseq.view);
        iseq.view == w[i := w[i].(jumpTo := To(t))][t := w[t].(isLabel := true)]
    {
      hide Showing, Chained, Distinct, Off;
      ghost var w := iseq.view;
      LinkSame(iseq.nodes, t);
      ShownLinks(iseq.nodes, w, i);
      Overlink(iseq, loop, loop.operands, target, null, i);
      LabelOff(iseq.view, t);
      iseq.MarkLabel(target, t);
    }

    // Emits the jump back to the instruction at a word offset, which is labelled.
    method EmitLoop(loopStart: int, ghost t: nat)
      requires Valid() && t < |iseq.nodes| == |D().v| && loopStart == Off(D().v, t)
      modifies this, iseq, iseq.nodes
      ensures Valid() && D() == Looped(old(D()), t)
      ensures |iseq.nodes| == |old(iseq.nodes)| + 1 && old(iseq.nodes) <= iseq.nodes
        && fresh(iseq.nodes[|old(iseq.nodes)|])
    {
      hide Valid, Off;
      ghost var v := iseq.view;
      StartWords();
      OffMonotone(v, t, |v|);
      var offset := iseq.wordCount - loopStart;
      var loop := EmitInsn(OP_LOOP, [offset], false);
      OffSame(v, iseq.view, t);
      Sizes();
      var target := TargetAt(loopStart, t);
      LinkLoop(loop, target, |v|, t);
    }

    // The instruction at a word offset at which one starts.
    method TargetAt(wordOffset: int, ghost t: nat) returns (target: Node)
      requires Valid() && t < |iseq.nodes| == |iseq.view| && wordOffset == Off(iseq.view, t)
      ensures target == iseq.nodes[t]
    {
      var r := InsnAtOffset(iseq, wordOffset);
      assert r == iseq.nodes[t];
      target := r;
    }

    // The condition of a loop and the jump out of it, which is labelled, and the
    // instruction that is to know about that jump.
    method EmitLoopTest(c: Expr, ghost t: nat) returns (skip: Node, loopLabel: Node, ghost j: nat, ghost k: nat)
      requires Valid()
      modifies this, iseq, iseq.nodes
      ensures Valid() && j == |old(D()).v| + |ExprCode(c, |old(D()).v|)| && j + 1 == |iseq.nodes| == |D().v|
        && iseq.nodes[j] == skip
      ensures Emitted(old(D()), D(), ExprCode(c, |old(D()).v|) + [JumpIfFalse(t)], {j}) && NoValueEnd(D().v)
      ensures |old(D()).v| <= k < j && iseq.nodes[k] == loopLabel && !IsJump(D().v[k].code) && !IsLoop(D().v[k].code)
      ensures var test := ExprDraft(old(D()), c);
        D() == Opened(test, OP_JUMP_IF_FALSE, true) && k == NotePlace(old(D()), test) && j == |test.v|
      ensures old(iseq.nodes) <= iseq.nodes && forall k | |old(iseq.nodes)| <= k < |iseq.nodes| :: fresh(iseq.nodes[k])
    {
      hide Valid, Emitted, StringsOk, ExprCode, ExprDraft;
      ghost var d := D();
      Sizes();
      var before := iseq.tail;
      LastNode();
      EmitExpr(c);
      ghost var d1 := D();
      EmittedSize(d, d1, ExprCode(c, |d.v|), {});
      ExprEnds(c, |d.v|);
      Sizes();
      LastNode();
      if before != null {
        k := |d.v|;
        NextOf(k - 1);
        loopLabel := before.next;
      } else {
        k := |d1.v| - 1;
        loopLabel := iseq.tail;
      }
      PlainEnd(d, d1, ExprCode(c, |d.v|), k);
      j := |d1.v|;
      skip := EmitJump(OP_JUMP_IF_FALSE, true);
      EmittedOpen(d, d1, ExprCode(c, |d.v|), {}, OP_JUMP_IF_FALSE, true, t);
      assert {} + {j} == {j};
    }

    lemma LastNode()
      requires Valid()
      ensures iseq.tail == if iseq.nodes == [] then null else iseq.nodes[|iseq.nodes| - 1]
    {
    }

    lemma NextOf(i: nat)
      requires Valid() && i < |iseq.nodes|
      ensures iseq.nodes[i].next == NodeAt(iseq.nodes, i + 1)
    {
      NextNode(iseq.nodes, i);
    }

    // Notes the jump out of the loop at an instruction that is no jump.
    method Note(n: Node, jump: Node, ghost k: nat, ghost j: nat, ghost d: Draft, ghost code: seq<Ins>,
        ghost open: set<nat>)
      requires Valid() && k < |iseq.nodes| == |D().v| && iseq.nodes[k] == n && |d.v| <= k
      requires j < |iseq.nodes| && iseq.nodes[j] == jump
      requires !IsJump(D().v[k].code) && !IsLoop(D().v[k].code) && Emitted(d, D(), code, open)
      modifies this, iseq, iseq.nodes
      ensures Valid() && iseq.nodes == old(iseq.nodes) && Emitted(d, D(), code, open)
      ensures D() == Noted(old(D()), k, j)
    {
      hide Emitted, Showing, Chained, Distinct, Off, LinkOf;
      ShownLinks(iseq.nodes, iseq.view, k);
      LinkSame(iseq.nodes, j);
      ghost var e := D();
      Overlink(iseq, n, n.operands, jump, n.jumpToPrev, k);
      EmittedSize(d, e, code, open);
      NotedPrefix(d.v, e.v, k, D().v);
      EmittedRelinked(d, e, D(), code, open);
    }

    // The condition of a loop, the jump out and the body.
    method EmitBody(s: Stmt, ghost end: nat) returns (skip: Node, ghost j: nat)
      requires Valid() && s.While? && NoValueEnd(D().v)
      modifies this, iseq, iseq.nodes
      ensures var lo := |old(D()).v|;
        var cc := ExprCode(s.cond, lo);
        var code := cc + [JumpIfFalse(end)] + StmtCode(s.body, lo + |cc| + 1);
        && Valid() && j == lo + |cc| < |iseq.nodes| == |D().v| && iseq.nodes[j] == skip
        && Emitted(old(D()), D(), code, {j}) && D() == BodyDraft(old(D()), s) && j == |ExprDraft(old(D()), s.cond).v|
      ensures old(iseq.nodes) <= iseq.nodes && forall k | |old(iseq.nodes)| <= k < |iseq.nodes| :: fresh(iseq.nodes[k])
      decreases s, 0
    {
      hide Valid, Emitted, StmtCode, ExprCode, StringsOk, NoValueEnd, ExprDraft, StmtDraft, Opened, Noted, NotePlace;
      ghost var d := D();
      ghost var cc := ExprCode(s.cond, |d.v|);
      ghost var bc := StmtCode(s.body, |d.v| + |cc| + 1);
      var loopLabel;
      ghost var k;
      skip, loopLabel, j, k := EmitLoopTest(s.cond, end);
      ghost var d1, code := D(), cc + [JumpIfFalse(end)];
      EmitStmt(s.body);
      EmittedThen(d, d1, D(), code, bc, {j});
      EmittedSize(d1, D(), bc, {});
      Sizes();
      Note(loopLabel, skip, k, j, d, code + bc, {j});
    }

    // The condition with the jump out, the body, and the jump back to the condition.
    method EmitWhile(s: Stmt)
      requires Valid() && s.While? && NoValueEnd(D().v)
      modifies this, iseq, iseq.nodes
      ensures Valid() && Emitted(old(D()), D(), StmtCode(s, |old(D()).v|), {}) && NoValueEnd(D().v)
      ensures D() == StmtDraft(old(D()), s)
      ensures old(iseq.nodes) <= iseq.nodes && forall k | |old(iseq.nodes)| <= k < |iseq.nodes| :: fresh(iseq.nodes[k])
      decreases s, 1
    {
      hide Valid, Emitted, StmtCode, ExprCode, Off, StringsOk, IsValueCode, ExprDraft, StmtDraft, BodyDraft;
      ghost var d := D();
      WhileDraft(d, s);
      ghost var lo, cc := |d.v|, ExprCode(s.cond, |d.v|);
      ghost var end := lo + |cc| + 1 + |StmtCode(s.body, lo + |cc| + 1)| + 1;
      ghost var code := cc + [JumpIfFalse(end)] + StmtCode(s.body, lo + |cc| + 1);
      var loopStart := iseq.wordCount;
      StartWords();
      var skip;
      ghost var j;
      skip, j := EmitBody(s, end);
      ghost var e := D();
      EmittedSize(d, e, code, {j});
      OffSame(d.v, e.v, lo);
      EmittedLoop(d, e, code, {j}, lo);
      EmitLoop(loopStart, lo);
      LoopedEnd(e, lo);
      CloseJump(skip, j, d, code + [Loop(lo)], {j});
      assert {j} - {j} == {};
      WhileParts(s, lo);
    }

    lemma StartWords()
      requires Valid()
      ensures iseq.wordCount == Off(D().v, |D().v|)
    {
    }

    // ---------- programs ----------

    method EmitItem(i: Item)
      requires Valid() && NoValueEnd(D().v)
      modifies this, iseq, iseq.nodes
      ensures Valid() && Emitted(old(D()), D(), ItemCode(i, |old(D()).v|), {}) && NoValueEnd(D().v)
      ensures D() == ItemDraft(old(D()), i)
      ensures old(iseq.nodes) <= iseq.nodes && forall k | |old(iseq.nodes)| <= k < |iseq.nodes| :: fresh(iseq.nodes[k])
    {
      hide Valid, Emitted, StmtCode, ExprCode, StringsOk, PlainOp, ExprDraft, StmtDraft;
      ghost var d := D();
      match i
      case Plain(s) =>
        EmitStmt(s);
      case VarStmt(x) =>
        PlainConstants();
        var n := EmitOp(OP_NIL, Push(Nil));
        ghost var d1 := D();
        n := EmitNamed(OP_DEFINE_GLOBAL, x, DefineGlobal(x));
        EmittedThen(d, d1, D(), [Push(Nil)], [DefineGlobal(x)], {});
      case VarInit(x, e) =>
        EmitExpr(e);
        ghost var d1 := D();
        var n := EmitNamed(OP_DEFINE_GLOBAL, x, DefineGlobal(x));
        EmittedThen(d, d1, D(), ExprCode(e, |d.v|), [DefineGlobal(x)], {});
    }

    // Emits a whole program and the instruction that ends it.  The list stands for the
    // program's code and is in the order the optimizer needs.
    method EmitProgram(p: Program)
      requires Valid() && D() == EMPTY_DRAFT
      modifies this, iseq, iseq.nodes
      ensures Valid() && AllMean(iseq.view, iseq.constants, ProgramCode(p)) && D() == ProgramDraft(p)
      ensures Off(iseq.view, |iseq.view|) < WORD_LIMIT ==> InOrder(Now(iseq), ProgramCode(p))
      ensures old(iseq.nodes) <= iseq.nodes && forall k | |old(iseq.nodes)| <= k < |iseq.nodes| :: fresh(iseq.nodes[k])
    {
      hide Valid, Emitted, ItemCode, StringsOk, PlainOp, AllMean, InOrder, Off, ItemDraft;
      EmptyEmitted();
      for i := 0 to |p|
        invariant Valid() && NoValueEnd(D().v)
        invariant Emitted(EMPTY_DRAFT, D(), ItemsCode(p[..i], 0), {}) && D() == ItemsDraft(EMPTY_DRAFT, p[..i])
        invariant old(iseq.nodes) <= iseq.nodes && forall k | |old(iseq.nodes)| <= k < |iseq.nodes| ::
          fresh(iseq.nodes[k])
      {
        ghost var e := D();
        EmittedSize(EMPTY_DRAFT, e, ItemsCode(p[..i], 0), {});
        EmitItem(p[i]);
        EmittedThen(EMPTY_DRAFT, e, D(), ItemsCode(p[..i], 0), ItemCode(p[i], |e.v|), {});
        ItemsNext(p, i, 0);
        assert p[..i + 1][..i] == p[..i];
      }
      assert p[..|p|] == p;
      ghost var e := D();
      ProgramInOrder(e, ItemsCode(p, 0));
      PlainStatement();
      var n := EmitOp(OP_LEAVE, Leave);
    }
  }

  lemma EmptyEmitted()
    ensures Emitted(EMPTY_DRAFT, EMPTY_DRAFT, [], {}) && NoValueEnd(EMPTY_DRAFT.v)
  {
    EmittedNone(EMPTY_DRAFT);
  }

  lemma ItemsFirst(p: Program, lo: nat)
    requires p != []
    ensures var c := ItemCode(p[0], lo); ItemsCode(p, lo) == c + ItemsCode(p[1..], lo + |c|)
  {
    hide ItemCode;
  }

  lemma ItemsNone(lo: nat)
    ensures ItemsCode([], lo) == []
  {
  }

  lemma {:induction false} ItemsNext(p: Program, i: nat, lo: nat)
    requires i < |p|
    ensures var code := ItemsCode(p[..i], lo);
      ItemsCode(p[..i + 1], lo) == code + ItemCode(p[i], lo + |code|)
    decreases i
  {
    hide ItemCode, ItemsCode;
    var c := ItemCode(p[0], lo);
    ItemsFirst(p[..i + 1], lo);
    if i > 0 {
      ItemsFirst(p[..i], lo);
      ItemsNext(p[1..], i - 1, lo + |c|);
      assert p[..i][1..] == p[1..][..i - 1] && p[..i + 1][1..] == p[1..][..i];
    } else {
      ItemsNone(lo);
      ItemsNone(lo + |c|);
      assert p[..0] == [] && p[..1][1..] == [];
    }
  }

  lemma LoopedEnd(e: Draft, t: nat)
    requires t < |e.v|
    ensures NoValueEnd(Looped(e, t).v) && |Looped(e, t).v| == |e.v| + 1
  {
    hide Off;
  }

  lemma OpenedEnd(d: Draft, code: nat, labelled: bool)
    requires IsJump(code)
    ensures NoValueEnd(Opened(d, code, labelled).v) && |Opened(d, code, labelled).v| == |d.v| + 1
  {
  }

  lemma NotedPrefix(d: Insns, v: Insns, k: nat, w: Insns)
    requires d <= v && |d| <= k < |v| == |w| && w == v[k := w[k]]
    ensures d <= w
  {
  }

  // The ends of an expression's code are no jumps.
  lemma {:induction false} ExprEnds(e: Expr, lo: nat)
    ensures var code := ExprCode(e, lo);
      code != [] && Target(code[0]).None? && Target(code[|code| - 1]).None?
    decreases e
  {
    match e
    case Grouping(inner) => ExprEnds(inner, lo);
    case Assign(_, rhs) => ExprEnds(rhs, lo);
    case Binary(_, _, _) => OperatorEnds(e, lo);
    case Comparison(_, _, _) => OperatorEnds(e, lo);
    case AndExpr(_, _) => OperatorEnds(e, lo);
    case OrExpr(_, _) => OperatorEnds(e, lo);
    case Minus(inner) => ExprEnds(inner, lo);
    case Bang(inner) => ExprEnds(inner, lo);
    case _ =>
  }

  lemma {:induction false} OperatorEnds(e: Expr, lo: nat)
    requires e.Binary? || e.Comparison? || e.AndExpr? || e.OrExpr?
    ensures var code := ExprCode(e, lo);
      code != [] && Target(code[0]).None? && Target(code[|code| - 1]).None?
    decreases e, 0
  {
    hide ExprCode;
    ExprEnds(e.left, lo);
    if e.Binary? || e.Comparison? {
      BinaryCode(e, lo);
    } else {
      LogicalParts(e, lo);
    }
  }

  lemma PlainEnd(d: Draft, e: Draft, code: seq<Ins>, k: nat)
    requires Emitted(d, e, code, {}) && |d.v| <= k < |e.v| && Target(code[k - |d.v|]).None?
    ensures !IsJump(e.v[k].code) && !IsLoop(e.v[k].code)
  {
    hide Means;
    SegAt(e.v, e.pool, e.label_, |d.v|, code, {}, k - |d.v|);
    MeansNoJump(e.v, e.pool, k, code[k - |d.v|]);
  }

  lemma BlockParts(s: Stmt, lo: nat)
    requires s.Block?
    ensures StmtCode(s, lo) == StmtsCode(s.stmts, lo)
  {
  }

  lemma IfParts(s: Stmt, lo: nat)
    requires s.If?
    ensures var cc := ExprCode(s.cond, lo);
      var tc := StmtCode(s.thenBranch, lo + |cc| + 1);
      StmtCode(s, lo) == cc + [JumpIfFalse(lo + |cc| + 1 + |tc|)] + tc
  {
  }

  lemma IfElseParts(s: Stmt, lo: nat)
    requires s.IfElse?
    ensures var cc := ExprCode(s.cond, lo);
      var tc := StmtCode(s.thenBranch, lo + |cc| + 1);
      var mid := lo + |cc| + 1 + |tc| + 1;
      var ec := StmtCode(s.elseBranch, mid);
      StmtCode(s, lo) == cc + [JumpIfFalse(mid)] + tc + [Jump(mid + |ec|)] + ec
  {
  }

  lemma WhileParts(s: Stmt, lo: nat)
    requires s.While?
    ensures var cc := ExprCode(s.cond, lo);
      var bc := StmtCode(s.body, lo + |cc| + 1);
      StmtCode(s, lo) == cc + [JumpIfFalse(lo + |cc| + 1 + |bc| + 1)] + bc + [Loop(lo)]
  {
  }

  lemma JumpTarget(code: nat, t: nat)
    requires IsJump(code)
    ensures Target(JumpIns(code, t)) == Machine.Some(t)
  {
  }

  lemma UnaryCode(e: Expr, lo: nat)
    requires e.Minus? || e.Bang? || e.Assign?
    ensures ExprCode(e, lo) == ExprCode(if e.Assign? then e.rhs else e.inner, lo)
      + [if e.Minus? then Negate else if e.Bang? then Not else SetGlobal(e.name)]
  {
  }

  lemma BinaryCode(e: Expr, lo: nat)
    requires e.Binary? || e.Comparison?
    ensures var l := ExprCode(e.left, lo);
      ExprCode(e, lo) == l + ExprCode(e.right, lo + |l|) + [if e.Binary? then Arith(e.aop) else Cmp(e.cop)]
  {
  }

  lemma OpAssignCode(e: Expr, lo: nat)
    requires e.OpAssign?
    ensures ExprCode(e, lo) == [GetGlobal(e.name)] + ExprCode(e.rhs, lo + 1) + [Arith(e.op), SetGlobal(e.name)]
  {
  }

  lemma LogicalParts(e: Expr, lo: nat)
    requires e.AndExpr? || e.OrExpr?
    ensures var l := ExprCode(e.left, lo);
      var r := ExprCode(e.right, lo + |l| + 1);
      var code := if e.AndExpr? then OP_JUMP_IF_FALSE_PEEK else OP_JUMP_IF_TRUE_PEEK;
      ExprCode(e, lo) == l + [JumpIns(code, lo + |l| + 1 + |r| + 1)] + r
        + [if e.AndExpr? then And else Or]
  {
  }

  // The operator emitted, the jump over the right side can be closed.
  lemma LogicalTail(d: Draft, e: Draft, l: seq<Ins>, jump: Ins, r: seq<Ins>, last: Ins, j: nat)
    requires Emitted(d, e, l + [jump] + r + [last], {j}) && j == |d.v| + |l|
      && Target(jump) == Machine.Some(j + 1 + |r| + 1)
    requires e.v != [] && e.v[|e.v| - 1].code in {OP_AND, OP_OR} && |e.v[|e.v| - 1].operands| == 0
    ensures |e.v| == j + 1 + |r| + 1 && |e.v[j].operands| == 1
    ensures Emitted(d, PatchedTail(e, j), l + [jump] + r + [last], {})
  {
    hide Emitted, Off;
    var code := l + [jump] + r + [last];
    EmittedSize(d, e, code, {j});
    OpenAt(d, e, code, {j}, j);
    EmittedTail(d, e, code, {j}, j);
    assert {j} - {j} == {};
  }

  lemma ExprCodes(e: Expr, lo: nat)
    ensures e.Number? ==> ExprCode(e, lo) == [Push(Num(e.r))]
    ensures e.True? ==> ExprCode(e, lo) == [Push(Bool(true))]
    ensures e.False? ==> ExprCode(e, lo) == [Push(Bool(false))]
    ensures e.NilLiteral? ==> ExprCode(e, lo) == [Push(Nil)]
    ensures e.Grouping? ==> ExprCode(e, lo) == ExprCode(e.inner, lo)
    ensures e.Variable? ==> ExprCode(e, lo) == [GetGlobal(e.name)]
  {
  }

  lemma LeafDrafts(d: Draft, e: Expr)
    ensures e.Number? ==> ExprDraft(d, e) == NumberDraft(d, e.r)
    ensures e.True? ==> ExprDraft(d, e) == Added(d, OP_TRUE, [], false)
    ensures e.False? ==> ExprDraft(d, e) == Added(d, OP_FALSE, [], false)
    ensures e.NilLiteral? ==> ExprDraft(d, e) == Added(d, OP_NIL, [], false)
    ensures e.Grouping? ==> ExprDraft(d, e) == ExprDraft(d, e.inner)
    ensures e.Variable? ==> ExprDraft(d, e) == Named(d, OP_GET_GLOBAL, e.name)
  {
  }

  lemma UnaryDraft(d: Draft, e: Expr)
    requires e.Minus? || e.Bang? || e.Assign?
    ensures var d1 := ExprDraft(d, if e.Assign? then e.rhs else e.inner);
      ExprDraft(d, e) == if e.Assign? then Named(d1, OP_SET_GLOBAL, e.name)
        else Added(d1, if e.Minus? then OP_NEGATE else OP_NOT, [], false)
  {
  }

  lemma BinaryDraft(d: Draft, e: Expr)
    requires e.Binary? || e.Comparison?
    ensures var d2 := ExprDraft(ExprDraft(d, e.left), e.right);
      ExprDraft(d, e) == Added(d2, if e.Binary? then CodeOf(e.aop) else CompareCode(e.cop), [], false)
  {
  }

  lemma OpAssignDraft(d: Draft, e: Expr)
    requires e.OpAssign?
    ensures ExprDraft(d, e) == ArithSet(ExprDraft(Named(d, OP_GET_GLOBAL, e.name), e.rhs), e.op, e.name)
  {
  }

  lemma LogicalDraft(d: Draft, e: Expr)
    requires e.AndExpr? || e.OrExpr?
    ensures var l := ExprDraft(d, e.left);
      var jump := if e.AndExpr? then OP_JUMP_IF_FALSE_PEEK else OP_JUMP_IF_TRUE_PEEK;
      var r := Added(ExprDraft(Opened(l, jump, false), e.right), if e.AndExpr? then OP_AND else OP_OR, [], false);
      |l.v| < |r.v| && ExprDraft(d, e) == PatchedTail(r, |l.v|)
  {
  }

  lemma BlockDraft(d: Draft, s: Stmt)
    requires s.Block?
    ensures StmtDraft(d, s) == StmtsDraft(d, s.stmts)
  {
  }

  lemma IfDraft(d: Draft, s: Stmt)
    requires s.If?
    ensures var test := ExprDraft(d, s.cond);
      var e := StmtDraft(Opened(test, OP_JUMP_IF_FALSE, false), s.thenBranch);
      |test.v| < |e.v| && StmtDraft(d, s) == PatchedNext(e, |test.v|)
  {
  }

  lemma IfElseDraft(d: Draft, s: Stmt)
    requires s.IfElse?
    ensures var first := ThenDraft(d, s);
      var e := StmtDraft(first, s.elseBranch);
      0 < |first.v| <= |e.v| && StmtDraft(d, s) == PatchedNext(e, |first.v| - 1)
  {
  }

  // A loop before its jump back.
  function BodyDraft(d: Draft, s: Stmt): (r: Draft)
    requires s.While?
    ensures |r.v| > |d.v|
  {
    var test := ExprDraft(d, s.cond);
    Noted(StmtDraft(Opened(test, OP_JUMP_IF_FALSE, true), s.body), NotePlace(d, test), |test.v|)
  }

  lemma WhileDraft(d: Draft, s: Stmt)
    requires s.While?
    ensures var e := Looped(BodyDraft(d, s), |d.v|);
      |ExprDraft(d, s.cond).v| < |e.v| && StmtDraft(d, s) == PatchedNext(e, |ExprDraft(d, s.cond).v|)
  {
  }

  lemma TailNode(iseq: Iseq)
    requires iseq.Valid() && iseq.nodes != []
    ensures iseq.tail == iseq.nodes[|iseq.nodes| - 1]
  {
  }

  lemma LinkSame(nodes: seq<Node>, i: nat)
    requires Distinct(nodes) && i < |nodes|
    ensures LinkOf(nodes, nodes[i]) == To(i)
  {
    IndexUnique(nodes, i);
  }

  lemma LabelOff(v: Insns, j: nat)
    requires j < |v|
    ensures var w := v[j := v[j].(isLabel := true)]; Off(w, |w|) == Off(v, |v|)
  {
    OffSame(v, v[j := v[j].(isLabel := true)], |v|);
  }

  // Sets the operand and the links of a jump.
  method Overlink(iseq: Iseq, n: Node, operands: seq<nat>, jumpTo: Node?, jumpToPrev: Node?, ghost at: nat)
    requires iseq.Valid() && at < |iseq.nodes| && iseq.nodes[at] == n
    requires |iseq.view| == |iseq.nodes| && |operands| == |iseq.view[at].operands|
    modifies iseq`view, n`code, n`operands, n`jumpTo, n`jumpToPrev
    ensures iseq.Valid()
    ensures iseq.view == old(iseq.view)[at := old(iseq.view)[at].(operands := operands,
      jumpTo := LinkOf(iseq.nodes, jumpTo), jumpToPrev := LinkOf(iseq.nodes, jumpToPrev))]
  {
    hide Showing, Chained, Distinct, Off;
    ghost var v := iseq.view;
    ShownLinks(iseq.nodes, v, at);
    iseq.Rewrite(n, n.code, operands, jumpTo, jumpToPrev, at);
    OffSame(v, iseq.view, |v|);
  }

  lemma NamedOk(c: Draft, code: nat, name: string, i: nat, ins: Ins)
    requires StringsOk(c.pool, c.strings) && i < |c.pool| && c.pool[i] == StringConst(name)
    requires (code == OP_GET_GLOBAL && ins == GetGlobal(name)) || (code == OP_SET_GLOBAL && ins == SetGlobal(name))
      || (code == OP_DEFINE_GLOBAL && ins == DefineGlobal(name))
    ensures Emitted(c, Added(c, code, [i], false), [ins], {})
  {
    hide Emitted;
    EmittedPlain(c, code, [i], ins);
  }
}
