// What leaving a scope emits, told by what happened to its slots: whatever was pushed for
// them goes off the value stack again.
module Unwinding {
  import opened Opcodes
  import opened Scopes
  import opened FunctionCompilers
  import Nesting

  // ---------- what happened to a slot ----------

  // A run of scope operations from s on has captured the slot, as it is now.
  predicate CapturedIn(s: Scoping, ops: seq<ScopeOp>, slot: nat)
    decreases |ops|
  {
    if ops == [] then slot < |s.locals| && s.locals[slot].isUpvalue
    else
      var m := |ops| - 1;
      && slot < |RunScopes(s, ops[..m]).locals|
      && (ops[m] == Capture(slot) || CapturedIn(s, ops[..m], slot))
  }

  // The slot was taken by the compiler for a value that stays when the scope is left.
  predicate StaysIn(s: Scoping, ops: seq<ScopeOp>, slot: nat)
    decreases |ops|
  {
    if ops == [] then slot < |s.locals| && !s.locals[slot].popOnScopeEnd
    else
      var m := |ops| - 1;
      if slot < |RunScopes(s, ops[..m]).locals| then StaysIn(s, ops[..m], slot) else ops[m] == Fake(false)
  }

  lemma {:induction false} PoppedPrefix(locals: seq<Local>, depth: int)
    ensures Popped(locals, depth) <= locals
    decreases |locals|
  {
    if locals != [] && locals[|locals| - 1].depth >= depth {
      PoppedPrefix(locals[..|locals| - 1], depth);
    }
  }

  lemma {:induction false} FlagsTold(s: Scoping, ops: seq<ScopeOp>, slot: nat)
    requires slot < |RunScopes(s, ops).locals|
    ensures var local := RunScopes(s, ops).locals[slot];
      (local.isUpvalue <==> CapturedIn(s, ops, slot)) && (!local.popOnScopeEnd <==> StaysIn(s, ops, slot))
    decreases |ops|
  {
    hide DeclaredHere;
    if ops != [] {
      var m := |ops| - 1;
      var before := RunScopes(s, ops[..m]);
      PoppedPrefix(before.locals, before.depth);
      if slot < |before.locals| {
        FlagsTold(s, ops[..m], slot);
      }
    }
  }

  // ---------- leaving a scope ----------

  // Something must be done for the slot when its scope is left.
  predicate Unwinds(s: Scoping, ops: seq<ScopeOp>, isBlock: bool, slot: nat) {
    CapturedIn(s, ops, slot) || (!isBlock && !StaysIn(s, ops, slot))
  }

  lemma {:induction false} ClosesFrom(s: Scoping, ops: seq<ScopeOp>, isBlock: bool, n: nat) returns (slots: seq<nat>)
    requires n <= |RunScopes(s, ops).locals|
    ensures var locals := RunScopes(s, ops).locals;
      var code := Closing(locals, n, isBlock);
      && |slots| == |code| && (forall i, j | 0 <= i < j < |slots| :: slots[i] > slots[j])
      && (forall slot: nat :: slot in slots <==> n <= slot < |locals| && Unwinds(s, ops, isBlock, slot))
      && (forall k | 0 <= k < |code| :: code[k] == if CapturedIn(s, ops, slots[k]) then OP_CLOSE_UPVALUE else OP_POP)
    decreases |RunScopes(s, ops).locals| - n
  {
    hide RunScopes, CapturedIn, StaysIn;
    var locals := RunScopes(s, ops).locals;
    if n == |locals| {
      slots := [];
    } else {
      slots := ClosesFrom(s, ops, isBlock, n + 1);
      FlagsTold(s, ops, n);
      forall i | 0 <= i < |slots| ensures slots[i] > n {
        assert slots[i] in slots;
      }
      if Unwinds(s, ops, isBlock, n) {
        slots := slots + [n];
      }
    }
  }

  // After any run, leaving the scope goes through its slots from the last one down: it
  // closes each captured one and takes each other off the value stack, but for those the
  // compiler wants to stay, and in a block for none.
  lemma ScopeUnwinds(s: Scoping, ops: seq<ScopeOp>, isBlock: bool) returns (slots: seq<nat>)
    ensures var t := RunScopes(s, ops);
      var n := |Popped(t.locals, t.depth)|;
      && n <= |t.locals|
      && var code := Closing(t.locals, n, isBlock);
         && |slots| == |code| && (forall i, j | 0 <= i < j < |slots| :: slots[i] > slots[j])
         && (forall slot: nat :: slot in slots <==> n <= slot < |t.locals| && Unwinds(s, ops, isBlock, slot))
         && (forall k | 0 <= k < |code| ::
               code[k] == if CapturedIn(s, ops, slots[k]) then OP_CLOSE_UPVALUE else OP_POP)
  {
    hide RunScopes, CapturedIn, StaysIn;
    var t := RunScopes(s, ops);
    PoppedPrefix(t.locals, t.depth);
    slots := ClosesFrom(s, ops, isBlock, |Popped(t.locals, t.depth)|);
  }

  // ---------- the value stack ----------

  // Slots taken in a run, each with a value that is left on the stack for it.
  function Taken(s: Scoping, ops: seq<ScopeOp>): nat
    decreases |ops|
  {
    if ops == [] then 0
    else
      var m := |ops| - 1;
      var before, after := RunScopes(s, ops[..m]), RunScopes(s, ops);
      Taken(s, ops[..m]) + if |after.locals| > |before.locals| then 1 else 0
  }

  // Instructions a run has emitted in a function that is no block, leaving scopes: each
  // takes one value off the stack.
  function Emitted(s: Scoping, ops: seq<ScopeOp>): nat
    decreases |ops|
  {
    if ops == [] then 0
    else
      var m := |ops| - 1;
      var before := RunScopes(s, ops[..m]);
      PoppedPrefix(before.locals, before.depth);
      Emitted(s, ops[..m])
      + if ops[m].Pop? then |Closing(before.locals, |Popped(before.locals, before.depth)|, false)| else 0
  }

  // Every slot is to be given up with its scope.
  predicate AllLeave(s: Scoping, ops: seq<ScopeOp>) {
    (forall i | 0 <= i < |s.locals| :: s.locals[i].popOnScopeEnd) && Fake(false) !in ops
  }

  // The slot of a new function itself is given up as well.
  lemma FunctionLeaves(depth: int, ops: seq<ScopeOp>)
    requires Fake(false) !in ops
    ensures AllLeave(Nesting.NewUnit(depth).scope, ops)
  {
  }

  lemma {:induction false} NoneStays(s: Scoping, ops: seq<ScopeOp>, slot: nat)
    requires AllLeave(s, ops)
    ensures !StaysIn(s, ops, slot)
    decreases |ops|
  {
    if ops != [] {
      var m := |ops| - 1;
      assert ops[m] in ops;
      NoneStays(s, ops[..m], slot);
    }
  }

  lemma {:induction false} ClosesEach(s: Scoping, ops: seq<ScopeOp>, n: nat)
    requires AllLeave(s, ops) && n <= |RunScopes(s, ops).locals|
    ensures var locals := RunScopes(s, ops).locals;
      var code := Closing(locals, n, false);
      && |code| == |locals| - n
      && forall k | 0 <= k < |code| ::
        code[k] == if CapturedIn(s, ops, |locals| - 1 - k) then OP_CLOSE_UPVALUE else OP_POP
    decreases |RunScopes(s, ops).locals| - n
  {
    hide RunScopes, CapturedIn, StaysIn, AllLeave;
    var locals := RunScopes(s, ops).locals;
    if n < |locals| {
      ClosesEach(s, ops, n + 1);
      FlagsTold(s, ops, n);
      NoneStays(s, ops, n);
    }
  }

  lemma StepHeight(s: Scoping, op: ScopeOp)
    ensures var t := Apply(s, op);
      && (op.Pop? ==> |t.locals| <= |s.locals|)
      && (!op.Pop? ==> |s.locals| <= |t.locals| <= |s.locals| + 1)
  {
    hide DeclaredHere;
    PoppedPrefix(s.locals, s.depth);
  }

  // In a function that is no block the value stack is, at every point of a run, as high
  // above where it was as there are more slots, which is what makes slot numbers places on
  // the stack.
  lemma {:induction false} HeightIsSlots(s: Scoping, ops: seq<ScopeOp>)
    requires AllLeave(s, ops)
    ensures Taken(s, ops) - Emitted(s, ops) == |RunScopes(s, ops).locals| - |s.locals|
    decreases |ops|
  {
    hide Apply, Popped, Closing;
    if ops != [] {
      var m := |ops| - 1;
      var before := RunScopes(s, ops[..m]);
      HeightIsSlots(s, ops[..m]);
      StepHeight(before, ops[m]);
      PoppedPrefix(before.locals, before.depth);
      ClosesEach(s, ops[..m], |Popped(before.locals, before.depth)|);
      if ops[m].Pop? {
        PopLeaves(before);
      }
    }
  }

  lemma PopLeaves(s: Scoping)
    ensures Apply(s, Pop).locals == Popped(s.locals, s.depth)
  {
  }

  // So a scope, whatever happens in it, leaves the stack as high as it found it.
  lemma ScopeBalances(s: Scoping, e: EnvStack, base: int, inner: seq<ScopeOp>)
    requires Agree(s, e, base) && Nested(s.depth + 1, inner) && DepthAfter(inner) == 0
    requires AllLeave(s, [Push] + inner + [Pop])
    ensures Taken(s, [Push] + inner + [Pop]) == Emitted(s, [Push] + inner + [Pop])
  {
    hide Describes, Taken, Emitted, AllLeave;
    var ops := [Push] + inner + [Pop];
    HeightIsSlots(s, ops);
    PopRestores(s, e, base, inner);
    RunParts(s, inner);
  }

  lemma {:induction false} RunAfterPush(s: Scoping, inner: seq<ScopeOp>)
    ensures RunScopes(s, [Push] + inner) == RunScopes(Apply(s, Push), inner)
    decreases |inner|
  {
    hide Apply;
    var ops := [Push] + inner;
    if inner == [] {
      assert ops == [Push] && ops[..0] == [];
      assert RunScopes(s, ops[..0]) == s;
    } else {
      var m := |inner| - 1;
      RunAfterPush(s, inner[..m]);
      assert ops[..m + 1] == [Push] + inner[..m] && ops[m + 1] == inner[m];
    }
  }

  lemma RunParts(s: Scoping, inner: seq<ScopeOp>)
    ensures RunScopes(s, [Push] + inner + [Pop]) == Apply(RunScopes(Apply(s, Push), inner), Pop)
  {
    hide Apply;
    var ops := [Push] + inner + [Pop];
    assert ops[..|ops| - 1] == [Push] + inner;
    RunAfterPush(s, inner);
  }
}
