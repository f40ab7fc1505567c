// The compilers of nested functions: locals, scopes and captured variables in place.
module FunctionCompilers {
  import Code
  import Nesting
  import opened Opcodes
  import opened Scopes
  import opened Upvalues

  const LX_MAX_LOCALS := 256

  datatype VarOp = VarGet | VarSet

  // A function with one more descriptor, if it has not got it and there is room.
  function WithUpvalue(f: Frame, u: Upvalue): Frame {
    f.(upvalues := Upvalues.AddUpvalue(f.upvalues, u).upvalues)
  }

  // The name is among the constants, at `at`: where it was, or at their end if it is new.
  ghost predicate Indexed(constants: seq<Code.Constant>, table: map<string, nat>, name: string,
      constants': seq<Code.Constant>, table': map<string, nat>, at: int) {
    && 0 <= at < |constants'| && constants'[at] == Code.StringConst(name)
    && (if name in table then constants' == constants && table' == table && at == table[name]
        else constants' == constants + [Code.StringConst(name)] && table' == table[name := at])
  }

  // Looking a name up in the functions around has made gs of fs: descriptors lead where
  // they led, and arg is one that leads to the local lexical scoping assigns, or -1.
  ghost predicate FoundAround(fs: seq<Frame>, gs: seq<Frame>, name: string, arg: int, clean: bool) {
    && fs != [] && |gs| == |fs| && Wellformed(fs) && Wellformed(gs) && Extends(fs, gs)
    && (forall k, u | 0 <= k < |fs| && 0 <= u < |fs[k].upvalues| ::
          u < |gs[k].upvalues| && Chase(gs, k, u) == Chase(fs, k, u))
    && var n, t := |fs| - 1, Lexical(fs[..|fs| - 1], name);
       && (t.None? <==> arg == -1)
       && (t.Some? ==> 0 <= arg < |gs[n].upvalues| && (clean ==> Chase(gs, n, arg) == t.value))
  }

  // The instruction refers to exactly the variable that lexical scoping assigns.
  ghost predicate Refers(fs: seq<Frame>, gs: seq<Frame>, name: string, getSet: VarOp, op: nat, operands: seq<int>,
      clean: bool) {
    && fs != [] && |gs| == |fs| && Wellformed(fs) && Wellformed(gs) && Extends(fs, gs)
    && (forall k, u | 0 <= k < |fs| && 0 <= u < |fs[k].upvalues| ::
          u < |gs[k].upvalues| && Chase(gs, k, u) == Chase(fs, k, u))
    && var n, t := |fs| - 1, Lexical(fs, name);
       && (t.None? ==> op == (if getSet.VarGet? then OP_GET_GLOBAL else OP_SET_GLOBAL) && |operands| == 1)
       && (t.Some? && t.value.owner == n ==>
             && op == (if getSet.VarGet? then OP_GET_LOCAL else OP_SET_LOCAL)
             && |operands| == 2 && operands[0] == t.value.index)
       && (t.Some? && t.value.owner != n ==>
             && op == (if getSet.VarGet? then OP_GET_UPVALUE else OP_SET_UPVALUE)
             && |operands| == 2 && 0 <= operands[0] < |gs[n].upvalues|
             && (clean ==> Chase(gs, n, operands[0]) == t.value))
  }

  lemma ResolvedFinds(fs: seq<Frame>, name: string)
    requires Wellformed(fs) && fs != []
    ensures var r := Upvalues.ResolveUpvalue(fs, name); FoundAround(fs, r.frames, name, r.index, !r.full)
  {
    hide Wellformed, Chase, Linked, Upvalues.ResolveUpvalue;
    ResolveFinds(fs, name);
    var gs := Upvalues.ResolveUpvalue(fs, name).frames;
    ExtendsSelf(fs);
    WellformedLinked(fs);
    WellformedLinked(gs);
    forall k, u | 0 <= k < |fs| && 0 <= u < |fs[k].upvalues|
      ensures k < |gs| && u < |gs[k].upvalues| && Chase(gs, k, u) == Chase(fs, k, u)
    {
      ResolveStable(fs, name, k, u);
    }
  }

  lemma ExtendsSelf(fs: seq<Frame>)
    ensures Extends(fs, fs)
  {
  }

  lemma RefersMore(fs: seq<Frame>, gs: seq<Frame>, name: string, getSet: VarOp, op: nat, arg: int, at: int, clean: bool)
    requires Wellformed(fs) && fs != [] && gs == fs && Scopes.ResolveLocal(fs[|fs| - 1].locals, name) == arg != -1
    requires op == if getSet.VarGet? then OP_GET_LOCAL else OP_SET_LOCAL
    ensures Refers(fs, gs, name, getSet, op, [arg, at], clean)
  {
    hide Chase;
    ExtendsSelf(fs);
  }

  lemma RefersOutside(fs: seq<Frame>, gs: seq<Frame>, name: string, getSet: VarOp, op: nat, arg: int, at: int,
      clean: bool)
    requires FoundAround(fs, gs, name, arg, clean) && Scopes.ResolveLocal(fs[|fs| - 1].locals, name) == -1
    requires op == if arg != -1 then (if getSet.VarGet? then OP_GET_UPVALUE else OP_SET_UPVALUE)
      else if getSet.VarGet? then OP_GET_GLOBAL else OP_SET_GLOBAL
    ensures Refers(fs, gs, name, getSet, op, if arg == -1 then [at] else [arg, at], clean)
  {
    hide Chase, Wellformed, Extends;
    LexicalOutside(fs, name);
  }

  lemma ResolvedAlone(fs: seq<Frame>, name: string)
    requires |fs| == 1
    ensures Upvalues.ResolveUpvalue(fs, name) == Resolved(fs, -1, false)
  {
  }

  lemma ResolvedHere(fs: seq<Frame>, name: string)
    requires |fs| > 1 && Scopes.ResolveLocal(fs[|fs| - 2].locals, name) != -1
    ensures var n := |fs| - 1;
      var local := Scopes.ResolveLocal(fs[n - 1].locals, name);
      var a := Upvalues.AddUpvalue(fs[n].upvalues, Upvalue(local, true));
      Upvalues.ResolveUpvalue(fs, name)
        == Resolved(fs[..n - 1] + [MarkCaptured(fs[n - 1], local), WithUpvalue(fs[n], Upvalue(local, true))], a.index,
          a.full)
  {
    hide Upvalues.AddUpvalue;
  }

  lemma ResolvedOutside(fs: seq<Frame>, name: string)
    requires |fs| > 1 && Scopes.ResolveLocal(fs[|fs| - 2].locals, name) == -1
    ensures var n := |fs| - 1;
      var r := Upvalues.ResolveUpvalue(fs[..n], name);
      Upvalues.ResolveUpvalue(fs, name) ==
        if r.index == -1 then Resolved(r.frames + [fs[n]], -1, r.full)
        else
          var a := Upvalues.AddUpvalue(fs[n].upvalues, Upvalue(r.index, false));
          Resolved(r.frames + [WithUpvalue(fs[n], Upvalue(r.index, false))], a.index, r.full || a.full)
  {
    hide Upvalues.AddUpvalue;
  }

  class FunctionCompiler {
    const enclosing: FunctionCompiler?
    const isBlock: bool
    const locals: array<Local>
    const upvalues: array<Upvalue>
    var localCount: nat
    var localCountMax: nat
    var upvalueCount: nat
    var scopeDepth: int
    var errors: nat
    // The constants of the function's code, and where the strings among them are.
    var constants: seq<Code.Constant>
    var constTbl: map<string, nat>
    // This compiler, its arrays and those of the compilers around it.
    ghost const repr: set<object>
    // The compilers and the arrays among them.
    ghost const compilers: set<FunctionCompiler>
    ghost const arrays: set<object>

    // What holds of this compiler alone.
    ghost predicate Shape()
      reads this
    {
      && this in repr && locals in repr && upvalues in repr && locals.Length == LX_MAX_LOCALS
        && upvalues.Length == LX_MAX_UPVALUES
      && localCount <= MAX_LOCALS && upvalueCount <= LX_MAX_UPVALUES && localCount <= localCountMax
      && this in compilers && compilers <= repr && locals in arrays && upvalues in arrays && arrays <= repr
      && this !in arrays && Memoized()
      && (enclosing != null ==>
            && enclosing.compilers <= compilers && enclosing.arrays <= arrays && enclosing.repr < repr
            && enclosing in repr && this !in enclosing.repr && locals !in enclosing.repr && upvalues !in enclosing.repr)
    }

    ghost predicate Memoized()
      reads `constants, `constTbl
    {
      forall x | x in constTbl :: constTbl[x] < |constants| && constants[constTbl[x]] == Code.StringConst(x)
    }

    ghost predicate Valid()
      reads this, repr
      decreases repr
    {
      Shape() && (enclosing != null ==> enclosing.Valid())
    }

    ghost function Own(): Frame
      reads `localCount, `upvalueCount, locals, upvalues
      requires localCount <= locals.Length && upvalueCount <= upvalues.Length
    {
      Frame(locals[..localCount], upvalues[..upvalueCount])
    }

    // The stack of functions as a value, this one last.
    ghost function Frames(): (fs: seq<Frame>)
      reads this, repr
      requires Valid()
      ensures |fs| > 0
      decreases repr
    {
      (if enclosing == null then [] else enclosing.Frames()) + [Own()]
    }

    ghost function Scope(): Scoping
      reads this, locals
      requires localCount <= locals.Length
    {
      Scoping(locals[..localCount], scopeDepth, errors)
    }

    // A compiler for the main program, or for a function inside another: its first slot
    // is taken by the function itself.
    constructor (enclosing: FunctionCompiler?, scopeDepth: int, isTopLevel: bool, isBlock: bool)
      requires enclosing != null ==> enclosing.Valid()
      ensures Valid() && this.enclosing == enclosing && this.isBlock == isBlock
      ensures fresh(repr - if enclosing == null then {} else enclosing.repr)
      ensures Scope() == if isTopLevel then Scoping([], scopeDepth, 0) else Nesting.NewUnit(scopeDepth).scope
      ensures upvalueCount == 0 && constants == [] && localCountMax == localCount
    {
      this.enclosing, this.isBlock, this.scopeDepth := enclosing, isBlock, scopeDepth;
      var none := Local("", 0, false, false);
      var ls := new Local[LX_MAX_LOCALS](_ => none);
      var us := new Upvalue[LX_MAX_UPVALUES](_ => Upvalue(0, false));
      if !isTopLevel {
        ls[0] := Local("", scopeDepth, false, true);
      }
      locals, upvalues := ls, us;
      localCount := if isTopLevel then 0 else 1;
      localCountMax := if isTopLevel then 0 else 1;
      upvalueCount, errors, constants, constTbl := 0, 0, [], map[];
      compilers := {this} + if enclosing == null then {} else enclosing.compilers;
      arrays := {ls, us} + if enclosing == null then {} else enclosing.arrays;
      repr := {this, ls, us} + if enclosing == null then {} else enclosing.repr;
    }

    // ---------- scopes ----------

    method ResolveLocal(name: string) returns (slot: int)
      requires Valid()
      ensures slot == Scopes.ResolveLocal(locals[..localCount], name)
    {
      var i: int := localCount - 1;
      while i >= 0
        invariant -1 <= i < localCount
        invariant Scopes.ResolveLocal(locals[..localCount], name) == Scopes.ResolveLocal(locals[..i + 1], name)
      {
        assert locals[..i + 1][..i] == locals[..i];
        if name == locals[i].name {
          return i;
        }
        i := i - 1;
      }
      return -1;
    }

    method PushScope()
      requires Valid()
      modifies `scopeDepth
      ensures Valid() && Scope() == Apply(old(Scope()), Push)
    {
      scopeDepth := scopeDepth + 1;
    }

    // Takes the locals of the innermost scope away and emits for each what takes it off
    // the value stack or closes it.
    method PopScope() returns (emitted: seq<nat>)
      requires Valid()
      modifies `scopeDepth, `localCount
      ensures Valid() && Scope() == Apply(old(Scope()), Pop)
      ensures localCount <= old(localCount)
      ensures emitted == Closing(old(locals[..localCount]), localCount, isBlock)
      ensures forall k | 0 <= k < |emitted| :: Written(emitted[k]) == 0
    {
      emitted := PopLocals();
      ClosingPlain(old(locals[..localCount]), localCount, isBlock);
      scopeDepth := scopeDepth - 1;
    }

    method PopLocals() returns (emitted: seq<nat>)
      requires Shape()
      modifies `localCount
      ensures Shape() && localCount <= old(localCount)
      ensures locals[..localCount] == Popped(old(locals[..localCount]), scopeDepth)
      ensures emitted == Closing(old(locals[..localCount]), localCount, isBlock)
    {
      emitted := [];
      ghost var was := locals[..localCount];
      assert was[..localCount] == was;
      while localCount > 0 && locals[localCount - 1].depth >= scopeDepth
        invariant localCount <= |was| && Shape() && was[..localCount] == locals[..localCount]
        invariant Popped(was, scopeDepth) == Popped(was[..localCount], scopeDepth)
        invariant emitted == Closing(was, localCount, isBlock)
        decreases localCount
      {
        var local := locals[localCount - 1];
        ghost var n := localCount - 1;
        assert was[..localCount][..n] == was[..n] && was[n] == local;
        if local.isUpvalue {
          emitted := emitted + [OP_CLOSE_UPVALUE];
        } else if !isBlock && local.popOnScopeEnd {
          emitted := emitted + [OP_POP];
        }
        localCount := localCount - 1;
      }
    }

    // Adds a local slot for the name at this depth, without looking for another.
    method AddLocal(name: string, popOnScopeEnd: bool) returns (slot: int)
      requires Valid()
      modifies `localCount, `localCountMax, `errors, locals
      ensures Valid() && Scope() ==
        if old(localCount) >= MAX_LOCALS then old(Scope()).(errors := old(errors) + 1)
        else old(Scope()).(locals := old(Scope()).locals + [Local(name, scopeDepth, false, popOnScopeEnd)])
      ensures slot == if old(localCount) >= MAX_LOCALS then -1 else old(localCount)
      ensures localCountMax == if localCount > old(localCountMax) then localCount else old(localCountMax)
    {
      if localCount >= MAX_LOCALS {
        errors := errors + 1;
        return -1;
      }
      slot := localCount;
      ghost var was := locals[..localCount];
      locals[slot] := Local(name, scopeDepth, false, popOnScopeEnd);
      localCount := localCount + 1;
      if localCount > localCountMax {
        localCountMax := localCount;
      }
      assert locals[..localCount] == was + [locals[slot]];
    }

    // The index of a name among the constants, which it joins only once.
    method IdentifierConstant(name: string) returns (at: nat)
      requires Shape()
      modifies `constants, `constTbl
      ensures Shape() && Indexed(old(constants), old(constTbl), name, constants, constTbl, at)
    {
      if name in constTbl {
        return constTbl[name];
      }
      at := |constants|;
      constants := constants + [Code.StringConst(name)];
      constTbl := constTbl[name := at];
    }

    // Declares a variable in the innermost scope; at the outermost level variables are
    // global and take no slot but a constant for their name.
    method DeclareVariable(name: string) returns (slot: int)
      requires Valid()
      modifies `localCount, `localCountMax, `errors, `constants, `constTbl, locals
      ensures Valid() && Scope() == Apply(old(Scope()), Declare(name))
      ensures scopeDepth != 0 && slot >= 0 ==>
        slot + 1 == localCount == old(localCount) + 1 && locals[slot] == Local(name, scopeDepth, false, true)
      ensures scopeDepth != 0 && slot < 0 ==> errors == old(errors) + 1
      ensures scopeDepth == 0 ==> Indexed(old(constants), old(constTbl), name, constants, constTbl, slot)
      ensures scopeDepth != 0 ==> constants == old(constants) && constTbl == old(constTbl)
      ensures localCountMax == if localCount > old(localCountMax) then localCount else old(localCountMax)
    {
      hide DeclaredHere, Indexed;
      if scopeDepth == 0 {
        slot := IdentifierConstant(name);
        return;
      }
      var here := LookHere(name);
      if here {
        errors := errors + 1;
        return -1;
      }
      slot := AddLocal(name, true);
    }

    // Whether a local of this scope has the name.
    method LookHere(name: string) returns (here: bool)
      requires Valid()
      ensures here <==> DeclaredHere(locals[..localCount], name, scopeDepth)
    {
      var i: int := localCount - 1;
      ghost var was := locals[..localCount];
      assert was[..localCount] == was;
      while i >= 0
        invariant -1 <= i < localCount
        invariant DeclaredHere(was, name, scopeDepth) == DeclaredHere(was[..i + 1], name, scopeDepth)
      {
        assert was[..i + 1][..i] == was[..i] && was[i] == locals[i];
        if locals[i].depth != -1 && locals[i].depth < scopeDepth {
          break;
        }
        if name == locals[i].name {
          return true;
        }
        i := i - 1;
      }
      return false;
    }

    method AddFakeLocal(popOnScopeEnd: bool) returns (slot: int)
      requires Valid() && scopeDepth > 0
      modifies `localCount, `localCountMax, `errors, locals
      ensures Valid() && Scope() == Apply(old(Scope()), Fake(popOnScopeEnd))
      ensures localCountMax == if localCount > old(localCountMax) then localCount else old(localCountMax)
    {
      slot := AddLocal(FAKE_NAME, popOnScopeEnd);
    }

    // ---------- captured variables ----------

    method AddUpvalue(index: nat, isLocal: bool) returns (at: nat, full: bool)
      requires Shape()
      modifies `upvalueCount, upvalues
      ensures Shape() && locals[..localCount] == old(locals[..localCount])
      ensures upvalues[..upvalueCount] == Upvalues.AddUpvalue(old(upvalues[..upvalueCount]),
        Upvalue(index, isLocal)).upvalues
      ensures var a := Upvalues.AddUpvalue(old(upvalues[..upvalueCount]), Upvalue(index, isLocal));
        at == a.index && full == a.full
    {
      ghost var us, u := upvalues[..upvalueCount], Upvalue(index, isLocal);
      for i := 0 to upvalueCount
        invariant forall j | 0 <= j < i :: us[j] != u
        invariant us == upvalues[..upvalueCount]
      {
        var upvalue := upvalues[i];
        assert us[i] == upvalue;
        if upvalue.index == index && upvalue.isLocal == isLocal {
          assert Upvalues.FindUpvalue(us, u) == i;
          return i, false;
        }
      }
      assert Upvalues.FindUpvalue(us, u) == |us|;
      if upvalueCount == LX_MAX_UPVALUES {
        return 0, true;
      }
      upvalues[upvalueCount] := Upvalue(index, isLocal);
      at, full := upvalueCount, false;
      upvalueCount := upvalueCount + 1;
      assert upvalues[..upvalueCount] == us + [u];
    }

    // Flags a local as captured by an inner function.
    method Capture(slot: nat)
      requires Valid() && slot < localCount
      modifies locals
      ensures Valid() && Own() == MarkCaptured(old(Own()), slot)
      ensures Frames() == old(Frames())[..|old(Frames())| - 1] + [Own()]
    {
      locals[slot] := locals[slot].(isUpvalue := true);
    }

    lemma Around()
      requires Valid() && enclosing != null
      ensures Shape() && enclosing.Valid() && Frames() == enclosing.Frames() + [Own()]
      ensures Frames()[..|Frames()| - 1] == enclosing.Frames() && Frames()[|Frames()| - 1] == Own()
    {
    }

    lemma Assemble()
      requires Shape() && enclosing != null && enclosing.Valid()
      ensures Valid() && Frames() == enclosing.Frames() + [Own()]
    {
    }

    lemma LastFrame()
      requires Valid()
      ensures Shape() && Frames()[|Frames()| - 1] == Own()
    {
    }

    // Captures a local of the function around.
    method CaptureHere(local: nat) returns (at: int, full: bool)
      requires Valid() && enclosing != null && local < enclosing.localCount
      modifies `upvalueCount, upvalues, enclosing.locals
      ensures Valid() && Own().locals == old(Own().locals)
      ensures var fs := old(Frames());
        var n := |fs| - 1;
        n > 0 && local < |fs[n - 1].locals|
        && Frames() == fs[..n - 1] + [MarkCaptured(fs[n - 1], local), WithUpvalue(fs[n], Upvalue(local, true))]
      ensures var a := Upvalues.AddUpvalue(old(Own()).upvalues, Upvalue(local, true)); at == a.index && full == a.full
    {
      hide Valid, Frames, Upvalues.AddUpvalue;
      LastFrame();
      Around();
      enclosing.LastFrame();
      enclosing.Capture(local);
      at, full := AddUpvalue(local, true);
      Assemble();
    }

    // Captures what the function around has captured.
    method CaptureOuter(outer: nat) returns (at: int, full: bool)
      requires Shape() && enclosing != null && enclosing.Valid()
      modifies `upvalueCount, upvalues
      ensures Valid() && Own().locals == old(Own().locals) && enclosing.Frames() == old(enclosing.Frames())
      ensures Frames() == enclosing.Frames() + [WithUpvalue(old(Own()), Upvalue(outer, false))]
      ensures var a := Upvalues.AddUpvalue(old(Own()).upvalues, Upvalue(outer, false)); at == a.index && full == a.full
    {
      hide Valid, Frames, Upvalues.AddUpvalue;
      at, full := AddUpvalue(outer, false);
      Assemble();
    }

    // Looks the name up in the functions around this one.
    method ResolveUpvalue(name: string) returns (at: int, full: bool)
      requires Valid()
      modifies compilers`upvalueCount, arrays
      ensures Valid() && Own().locals == old(Own().locals)
      ensures var r := Upvalues.ResolveUpvalue(old(Frames()), name);
        Frames() == r.frames && at == r.index && full == r.full
      decreases repr
    {
      hide Valid, Frames, Upvalues.AddUpvalue, Upvalues.ResolveUpvalue, WithUpvalue;
      ghost var fs := Frames();
      LastFrame();
      if enclosing == null {
        Alone();
        ResolvedAlone(fs, name);
        return -1, false;
      }
      Around();
      enclosing.LastFrame();
      var local := enclosing.ResolveLocal(name);
      if local != -1 {
        ResolvedHere(fs, name);
        at, full := CaptureHere(local);
        return;
      }
      ResolvedOutside(fs, name);
      var outer, outerFull := enclosing.ResolveUpvalue(name);
      if outer != -1 {
        at, full := CaptureOuter(outer);
        full := outerFull || full;
      } else {
        at, full := -1, outerFull;
        Assemble();
      }
    }

    lemma Alone()
      requires Valid() && enclosing == null
      ensures |Frames()| == 1
    {
    }

    method ReportError()
      requires Valid()
      modifies `errors
      ensures Valid() && Frames() == old(Frames()) && errors == old(errors) + 1
    {
      errors := errors + 1;
    }

    // Looks the name up in the functions around and says so when room runs out.
    method FindOutside(name: string) returns (arg: int)
      requires Valid() && Wellformed(Frames()) && Scopes.ResolveLocal(Own().locals, name) == -1
      modifies `errors, compilers`upvalueCount, arrays
      ensures Valid() && errors <= old(errors) + 1 && constants == old(constants) && constTbl == old(constTbl)
      ensures FoundAround(old(Frames()), Frames(), name, arg, errors == old(errors))
    {
      hide Valid, Frames, Wellformed, Upvalues.ResolveUpvalue, FoundAround;
      ghost var fs := Frames();
      LastFrame();
      var full;
      arg, full := ResolveUpvalue(name);
      ResolvedFinds(fs, name);
      if full {
        ReportError();
      }
    }

    // The instruction for reading or writing a named variable, with the index of the name
    // among the constants: exactly the variable that lexical scoping assigns, a global one
    // when it assigns none.
    method NamedVariable(name: string, getSet: VarOp) returns (op: nat, operands: seq<int>)
      requires Valid() && Wellformed(Frames())
      modifies `errors, `constants, `constTbl, compilers`upvalueCount, arrays
      ensures Valid() && errors <= old(errors) + 1 && operands != [] && |operands| == Written(op)
      ensures Refers(old(Frames()), Frames(), name, getSet, op, operands, errors == old(errors))
      ensures operands[|operands| - 1] >= 0
        && Indexed(old(constants), old(constTbl), name, constants, constTbl, operands[|operands| - 1])
    {
      hide Valid, Frames, Wellformed, Upvalues.ResolveUpvalue, FoundAround, Refers, Indexed, Written;
      VariableSizes();
      ghost var fs := Frames();
      LastFrame();
      var arg := ResolveLocal(name);
      if arg != -1 {
        op := if getSet.VarGet? then OP_GET_LOCAL else OP_SET_LOCAL;
      } else {
        arg := FindOutside(name);
        op := if arg != -1 then (if getSet.VarGet? then OP_GET_UPVALUE else OP_SET_UPVALUE)
          else if getSet.VarGet? then OP_GET_GLOBAL else OP_SET_GLOBAL;
      }
      ghost var gs, clean := Frames(), errors == old(errors);
      var at := NameIndex(name);
      operands := if op in {OP_GET_GLOBAL, OP_SET_GLOBAL} then [at] else [arg, at];
      if Scopes.ResolveLocal(fs[|fs| - 1].locals, name) == -1 {
        RefersOutside(fs, gs, name, getSet, op, arg, at, clean);
      } else {
        RefersMore(fs, gs, name, getSet, op, arg, at, clean);
      }
    }

    lemma VariableSizes()
      ensures forall op | op in {OP_GET_GLOBAL, OP_SET_GLOBAL} :: Written(op) == 1
      ensures forall op | op in {OP_GET_LOCAL, OP_SET_LOCAL, OP_GET_UPVALUE, OP_SET_UPVALUE} :: Written(op) == 2
    {
    }

    method NameIndex(name: string) returns (at: nat)
      requires Valid()
      modifies `constants, `constTbl
      ensures Valid() && Frames() == old(Frames())
      ensures Indexed(old(constants), old(constTbl), name, constants, constTbl, at)
    {
      hide Indexed;
      at := IdentifierConstant(name);
    }
  }

  // What leaving a scope emits for the locals from slot n on, the last of them first.
  function Closing(locals: seq<Local>, n: nat, isBlock: bool): seq<nat>
    requires n <= |locals|
    decreases |locals| - n
  {
    if n == |locals| then []
    else Closing(locals, n + 1, isBlock) + ClosingOne(locals[n], isBlock)
  }

  lemma {:induction false} ClosingPlain(locals: seq<Local>, n: nat, isBlock: bool)
    requires n <= |locals|
    ensures forall k | 0 <= k < |Closing(locals, n, isBlock)| :: Written(Closing(locals, n, isBlock)[k]) == 0
    decreases |locals| - n
  {
    if n < |locals| {
      ClosingPlain(locals, n + 1, isBlock);
    }
  }

  function ClosingOne(local: Local, isBlock: bool): seq<nat> {
    if local.isUpvalue then [OP_CLOSE_UPVALUE] else if !isBlock && local.popOnScopeEnd then [OP_POP] else []
  }
}
