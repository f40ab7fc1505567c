// Local slots and scopes of one function, and captured variables across a stack of
// nested functions, as values.
module Scopes {
  const MAX_LOCALS := 255
  const LX_MAX_UPVALUES := 256

  // The name of the locals the compiler adds for itself.
  const FAKE_NAME := "_"

  datatype Local = Local(name: string, depth: int, isUpvalue: bool, popOnScopeEnd: bool)

  datatype Option<T> = None | Some(value: T)

  // ---------- lookup of a local ----------

  // The slot of the last local with the name, or -1.
  function ResolveLocal(locals: seq<Local>, name: string): (slot: int)
    ensures -1 <= slot < |locals|
    ensures slot >= 0 ==> locals[slot].name == name
    ensures forall j | slot < j < |locals| :: locals[j].name != name
  {
    if locals == [] then -1
    else if locals[|locals| - 1].name == name then |locals| - 1
    else ResolveLocal(locals[..|locals| - 1], name)
  }

  // Whether the innermost scope declares the name: a walk down while depths allow.
  predicate DeclaredHere(locals: seq<Local>, name: string, depth: int) {
    locals != [] && var last := locals[|locals| - 1];
    && !(last.depth != -1 && last.depth < depth)
    && (last.name == name || DeclaredHere(locals[..|locals| - 1], name, depth))
  }

  // What popScope leaves: locals from the top go while they are as deep as the scope.
  function Popped(locals: seq<Local>, depth: int): seq<Local> {
    if locals != [] && locals[|locals| - 1].depth >= depth then Popped(locals[..|locals| - 1], depth) else locals
  }

  // ---------- scope operations ----------

  datatype ScopeOp = Push | Pop | Declare(name: string) | Fake(popOnScopeEnd: bool) | Capture(slot: nat)

  datatype Scoping = Scoping(locals: seq<Local>, depth: int, errors: nat)

  // The compiler's own bookkeeping.
  function Apply(s: Scoping, op: ScopeOp): Scoping {
    match op
    case Push => s.(depth := s.depth + 1)
    case Pop => s.(locals := Popped(s.locals, s.depth), depth := s.depth - 1)
    case Declare(name) =>
      if s.depth == 0 then s
      else if DeclaredHere(s.locals, name, s.depth) || |s.locals| >= MAX_LOCALS then s.(errors := s.errors + 1)
      else s.(locals := s.locals + [Local(name, s.depth, false, true)])
    case Fake(pop) =>
      if |s.locals| >= MAX_LOCALS then s.(errors := s.errors + 1)
      else s.(locals := s.locals + [Local(FAKE_NAME, s.depth, false, pop)])
    case Capture(slot) =>
      if slot < |s.locals| then s.(locals := s.locals[slot := s.locals[slot].(isUpvalue := true)]) else s
  }

  // The reference: a stack of environments, each binding names to slots.
  datatype Env = Env(bindings: map<string, nat>, start: nat)

  datatype EnvStack = EnvStack(envs: seq<Env>, count: nat, errors: nat)

  function EnvLookup(envs: seq<Env>, name: string): int {
    if envs == [] then -1
    else if name in envs[|envs| - 1].bindings then envs[|envs| - 1].bindings[name]
    else EnvLookup(envs[..|envs| - 1], name)
  }

  function Bind(e: EnvStack, name: string): EnvStack
    requires e.envs != []
  {
    var n := |e.envs| - 1;
    EnvStack(e.envs[n := e.envs[n].(bindings := e.envs[n].bindings[name := e.count])], e.count + 1, e.errors)
  }

  // The same operations on the environments; base is the depth of the first of them.
  function ApplyEnv(e: EnvStack, base: int, op: ScopeOp): EnvStack {
    if e.envs == [] then e
    else
      var n := |e.envs| - 1;
      match op
      case Push => e.(envs := e.envs + [Env(map[], e.count)])
      case Pop => EnvStack(e.envs[..n], e.envs[n].start, e.errors)
      case Declare(name) =>
        if base + n == 0 then e
        else if name in e.envs[n].bindings || e.count >= MAX_LOCALS then e.(errors := e.errors + 1)
        else Bind(e, name)
      case Fake(pop) =>
        if e.count >= MAX_LOCALS then e.(errors := e.errors + 1) else Bind(e, FAKE_NAME)
      case Capture(slot) => e
  }

  // Scopes nest: what is pushed is popped, and the first scope stays.
  function DepthAfter(ops: seq<ScopeOp>): int {
    if ops == [] then 0
    else
      var d := DepthAfter(ops[..|ops| - 1]);
      var op := ops[|ops| - 1];
      if op.Push? then d + 1 else if op.Pop? then d - 1 else d
  }

  // From the first scope, of depth base, what is popped was pushed before, and the
  // compiler adds locals of its own only inside a scope.
  ghost predicate Nested(base: int, ops: seq<ScopeOp>) {
    && (forall n | 0 <= n <= |ops| :: DepthAfter(ops[..n]) >= 0)
    && forall n | 0 <= n < |ops| && ops[n].Fake? :: base + DepthAfter(ops[..n]) > 0
  }

  function RunScopes(s: Scoping, ops: seq<ScopeOp>): Scoping
    decreases |ops|
  {
    if ops == [] then s else Apply(RunScopes(s, ops[..|ops| - 1]), ops[|ops| - 1])
  }

  function RunEnvs(e: EnvStack, base: int, ops: seq<ScopeOp>): EnvStack
    decreases |ops|
  {
    if ops == [] then e else ApplyEnv(RunEnvs(e, base, ops[..|ops| - 1]), base, ops[|ops| - 1])
  }

  // ---------- the two agree ----------

  // The locals from start on are those of depth d, and the map binds each of their names
  // to the last of them.
  ghost predicate Binds(locals: seq<Local>, start: nat, d: int, b: map<string, nat>) {
    && start <= |locals|
    && (forall i | start <= i < |locals| :: locals[i].depth == d && locals[i].name in b && i <= b[locals[i].name])
    && (forall x | x in b :: start <= b[x] < |locals| && locals[b[x]].name == x)
    && (forall i, j | start <= i < j < |locals| && locals[i].name == locals[j].name :: locals[j].name == FAKE_NAME)
  }

  // The environments describe the locals, from the innermost scope outwards.
  ghost predicate Describes(locals: seq<Local>, envs: seq<Env>, base: int)
    decreases |envs|
  {
    if envs == [] then locals == []
    else
      var n := |envs| - 1;
      Binds(locals, envs[n].start, base + n, envs[n].bindings) && Describes(locals[..envs[n].start], envs[..n], base)
  }

  lemma {:induction false} LookupAgrees(locals: seq<Local>, envs: seq<Env>, base: int, name: string)
    requires Describes(locals, envs, base)
    ensures ResolveLocal(locals, name) == EnvLookup(envs, name)
    decreases |envs|
  {
    if envs != [] {
      var n := |envs| - 1;
      var b := envs[n].bindings;
      var slot := ResolveLocal(locals, name);
      LookupAgrees(locals[..envs[n].start], envs[..n], base, name);
      if name in b {
        assert locals[b[name]].name == name;
        assert slot >= b[name];
      } else {
        ResolveBelow(locals, envs[n].start, name);
      }
    }
  }

  lemma {:induction false} ResolveBelow(locals: seq<Local>, n: nat, name: string)
    requires n <= |locals| && forall i | n <= i < |locals| :: locals[i].name != name
    ensures ResolveLocal(locals, name) == ResolveLocal(locals[..n], name)
    decreases |locals|
  {
    if n < |locals| {
      var m := |locals| - 1;
      ResolveBelow(locals[..m], n, name);
      assert locals[..m][..n] == locals[..n];
    } else {
      assert locals[..n] == locals;
    }
  }

  // Everything outside the innermost scope lies less deep.
  lemma {:induction false} Shallower(locals: seq<Local>, envs: seq<Env>, base: int)
    requires Describes(locals, envs, base)
    ensures forall i | 0 <= i < |locals| :: base <= locals[i].depth < base + |envs|
    ensures forall i, j | 0 <= i < j < |locals| :: locals[i].depth <= locals[j].depth
    ensures forall i, j | 0 <= i < j < |locals| && locals[i].depth == locals[j].depth
      && locals[i].name == locals[j].name
      :: locals[j].name == FAKE_NAME
    decreases |envs|
  {
    if envs != [] {
      var n := |envs| - 1;
      var start := envs[n].start;
      Shallower(locals[..start], envs[..n], base);
      forall i | 0 <= i < start ensures locals[i] == locals[..start][i] {
      }
    }
  }

  lemma {:induction false} DeclaredAgrees(locals: seq<Local>, start: nat, d: int, b: map<string, nat>, name: string)
    requires Binds(locals, start, d, b) && d >= 0
    requires forall i | 0 <= i < start :: 0 <= locals[i].depth < d
    ensures DeclaredHere(locals, name, d) <==> name in b
  {
    DeclaredFinds(locals, start, d, name);
  }

  lemma {:induction false} DeclaredFinds(locals: seq<Local>, start: nat, d: int, name: string)
    requires start <= |locals| && d >= 0 && (forall i | start <= i < |locals| :: locals[i].depth == d)
    requires forall i | 0 <= i < start :: 0 <= locals[i].depth < d
    ensures DeclaredHere(locals, name, d) <==> exists i :: start <= i < |locals| && locals[i].name == name
    decreases |locals|
  {
    if start < |locals| {
      var m := |locals| - 1;
      DeclaredFinds(locals[..m], start, d, name);
      if i :| start <= i < |locals| && locals[i].name == name && i < m {
        assert locals[..m][i].name == name;
      }
    }
  }

  lemma {:induction false} PoppedTo(locals: seq<Local>, start: nat, d: int)
    requires start <= |locals| && (forall i | start <= i < |locals| :: locals[i].depth == d)
    requires forall i | 0 <= i < start :: locals[i].depth < d
    ensures Popped(locals, d) == locals[..start]
    decreases |locals|
  {
    if start < |locals| {
      var m := |locals| - 1;
      PoppedTo(locals[..m], start, d);
      assert locals[..m][..start] == locals[..start];
    }
  }

  lemma {:induction false} CaptureDescribes(locals: seq<Local>, envs: seq<Env>, base: int, slot: nat)
    requires Describes(locals, envs, base) && slot < |locals|
    ensures Describes(locals[slot := locals[slot].(isUpvalue := true)], envs, base)
    decreases |envs|
  {
    if envs != [] {
      var n := |envs| - 1;
      var start, now := envs[n].start, locals[slot := locals[slot].(isUpvalue := true)];
      if slot < start {
        CaptureDescribes(locals[..start], envs[..n], base, slot);
        assert now[..start] == locals[..start][slot := locals[slot].(isUpvalue := true)];
      } else {
        assert now[..start] == locals[..start];
      }
    }
  }

  lemma BindDescribes(locals: seq<Local>, e: EnvStack, base: int, local: Local)
    requires e.envs != [] && Describes(locals, e.envs, base) && e.count == |locals|
    requires local.depth == base + |e.envs| - 1
    requires local.name in e.envs[|e.envs| - 1].bindings ==> local.name == FAKE_NAME
    ensures Describes(locals + [local], Bind(e, local.name).envs, base)
  {
    hide Binds;
    var n := |e.envs| - 1;
    var now, b := locals + [local], Bind(e, local.name).envs;
    var start := e.envs[n].start;
    DescribesLast(locals, e.envs, base);
    assert now[..start] == locals[..start] && b[..n] == e.envs[..n];
    BindBinds(locals, start, base + n, e.envs[n].bindings, local);
  }

  lemma DescribesLast(locals: seq<Local>, envs: seq<Env>, base: int)
    requires Describes(locals, envs, base) && envs != []
    ensures var n := |envs| - 1;
      && Binds(locals, envs[n].start, base + n, envs[n].bindings)
      && envs[n].start <= |locals| && Describes(locals[..envs[n].start], envs[..n], base)
  {
  }

  lemma BindBinds(locals: seq<Local>, start: nat, d: int, b: map<string, nat>, local: Local)
    requires Binds(locals, start, d, b) && local.depth == d && (local.name in b ==> local.name == FAKE_NAME)
    ensures Binds(locals + [local], start, d, b[local.name := |locals|])
  {
    var now := locals + [local];
    forall i | start <= i < |now| ensures now[i].depth == d && now[i].name in b[local.name := |locals|] {
      if i < |locals| {
        assert now[i] == locals[i];
      }
    }
  }

  ghost predicate Agree(s: Scoping, e: EnvStack, base: int) {
    && base >= 0 && e.envs != [] && s.depth == base + |e.envs| - 1
    && e.count == |s.locals| && s.errors == e.errors && Describes(s.locals, e.envs, base)
  }

  // Leaving the innermost scope takes exactly its slots.
  lemma PopsTo(s: Scoping, e: EnvStack, base: int)
    requires Agree(s, e, base)
    ensures var n := |e.envs| - 1; var start := e.envs[n].start;
      start <= |s.locals| && Popped(s.locals, s.depth) == s.locals[..start]
        && Describes(s.locals[..start], e.envs[..n], base)
  {
    var n := |e.envs| - 1;
    var start := e.envs[n].start;
    Shallower(s.locals[..start], e.envs[..n], base);
    assert forall i | 0 <= i < start :: s.locals[i] == s.locals[..start][i];
    PoppedTo(s.locals, start, s.depth);
  }

  lemma HereAgrees(s: Scoping, e: EnvStack, base: int, name: string)
    requires Agree(s, e, base)
    ensures DeclaredHere(s.locals, name, s.depth) <==> name in e.envs[|e.envs| - 1].bindings
  {
    var n := |e.envs| - 1;
    var start := e.envs[n].start;
    Shallower(s.locals[..start], e.envs[..n], base);
    assert forall i | 0 <= i < start :: s.locals[i] == s.locals[..start][i];
    DeclaredAgrees(s.locals, start, s.depth, e.envs[n].bindings, name);
  }

  lemma PushAgrees(s: Scoping, e: EnvStack, base: int)
    requires Agree(s, e, base)
    ensures Agree(Apply(s, Push), ApplyEnv(e, base, Push), base)
  {
    var f := e.envs + [Env(map[], e.count)];
    assert f[..|e.envs|] == e.envs && s.locals[..|s.locals|] == s.locals;
  }

  lemma StepAgrees(s: Scoping, e: EnvStack, base: int, op: ScopeOp)
    requires Agree(s, e, base) && (op.Pop? ==> |e.envs| > 1) && (op.Fake? ==> s.depth > 0)
    ensures Agree(Apply(s, op), ApplyEnv(e, base, op), base)
  {
    hide Describes, Binds, DeclaredHere, Popped;
    match op
    case Push =>
      PushAgrees(s, e, base);
    case Pop =>
      PopsTo(s, e, base);
    case Declare(name) =>
      HereAgrees(s, e, base, name);
      if s.depth != 0 && !DeclaredHere(s.locals, name, s.depth) {
        BindDescribes(s.locals, e, base, Local(name, s.depth, false, true));
      }
    case Fake(pop) =>
      BindDescribes(s.locals, e, base, Local(FAKE_NAME, s.depth, false, pop));
    case Capture(slot) =>
      if slot < |s.locals| {
        CaptureDescribes(s.locals, e.envs, base, slot);
      }
  }

  lemma NestedPrefix(base: int, ops: seq<ScopeOp>)
    requires Nested(base, ops) && ops != []
    ensures Nested(base, ops[..|ops| - 1]) && DepthAfter(ops[..|ops| - 1]) >= 0 && DepthAfter(ops) >= 0
    ensures ops[|ops| - 1].Fake? ==> base + DepthAfter(ops[..|ops| - 1]) > 0
  {
    var m := |ops| - 1;
    assert ops[..|ops|] == ops;
    assert forall n | 0 <= n <= m :: ops[..m][..n] == ops[..n];
  }

  // After any nested run of scope operations and declarations, the compiler's slots and
  // the stack of environments agree on every name.
  lemma {:induction false} ScopesAgree(s: Scoping, e: EnvStack, base: int, ops: seq<ScopeOp>)
    requires Agree(s, e, base) && |e.envs| == 1 && Nested(base, ops)
    ensures Agree(RunScopes(s, ops), RunEnvs(e, base, ops), base)
    ensures |RunEnvs(e, base, ops).envs| == 1 + DepthAfter(ops)
    ensures forall name :: ResolveLocal(RunScopes(s, ops).locals, name) == EnvLookup(RunEnvs(e, base, ops).envs, name)
    decreases |ops|
  {
    if ops != [] {
      var m := |ops| - 1;
      NestedPrefix(base, ops);
      ScopesAgree(s, e, base, ops[..m]);
      StepAgrees(RunScopes(s, ops[..m]), RunEnvs(e, base, ops[..m]), base, ops[m]);
    }
    forall name ensures ResolveLocal(RunScopes(s, ops).locals, name) == EnvLookup(RunEnvs(e, base, ops).envs, name) {
      LookupAgrees(RunScopes(s, ops).locals, RunEnvs(e, base, ops).envs, base, name);
    }
  }

  // In such a run depths never decrease along the slots, and no name but the
  // compiler's own is declared twice at one depth.
  lemma ScopesOrdered(s: Scoping, e: EnvStack, base: int, ops: seq<ScopeOp>)
    requires Agree(s, e, base) && |e.envs| == 1 && Nested(base, ops)
    ensures var locals := RunScopes(s, ops).locals;
      && (forall i, j | 0 <= i < j < |locals| :: locals[i].depth <= locals[j].depth)
      && (forall i, j | 0 <= i < j < |locals| && locals[i].depth == locals[j].depth && locals[i].name == locals[j].name
            :: locals[j].name == FAKE_NAME)
  {
    ScopesAgree(s, e, base, ops);
    Shallower(RunScopes(s, ops).locals, RunEnvs(e, base, ops).envs, base);
  }

  // The same slots, whatever has been captured.
  ghost predicate SameSlots(a: seq<Local>, b: seq<Local>) {
    |a| == |b| && forall i | 0 <= i < |a| :: a[i].(isUpvalue := false) == b[i].(isUpvalue := false)
  }

  // What a scope's own operations leave of the scopes outside it.
  ghost predicate Outside(s0: Scoping, e0: EnvStack, s: Scoping, e: EnvStack) {
    && |e.envs| > |e0.envs| && e.envs[..|e0.envs|] == e0.envs && e.envs[|e0.envs|].start == e0.count
    && |s.locals| >= |s0.locals| && SameSlots(s.locals[..|s0.locals|], s0.locals)
  }

  lemma OutsidePop(s0: Scoping, e0: EnvStack, s: Scoping, e: EnvStack, base: int)
    requires Agree(s0, e0, base) && Agree(s, e, base) && Outside(s0, e0, s, e) && |e.envs| > |e0.envs| + 1
    ensures Outside(s0, e0, Apply(s, Pop), ApplyEnv(e, base, Pop))
  {
    hide Describes, Popped;
    var n := |e.envs| - 1;
    var start := e.envs[n].start;
    PopsTo(s, e, base);
    StartsRise(s.locals[..start], e.envs[..n], base, |e0.envs|);
    assert s.locals[..start][..|s0.locals|] == s.locals[..|s0.locals|];
    assert e.envs[..n][..|e0.envs|] == e.envs[..|e0.envs|];
  }

  lemma OutsideBind(s0: Scoping, e0: EnvStack, s: Scoping, e: EnvStack, local: Local)
    requires Outside(s0, e0, s, e) && e0.count == |s0.locals|
    ensures Outside(s0, e0, s.(locals := s.locals + [local]), Bind(e, local.name))
  {
    assert (s.locals + [local])[..|s0.locals|] == s.locals[..|s0.locals|];
    assert Bind(e, local.name).envs[..|e0.envs|] == e.envs[..|e0.envs|];
  }

  lemma OutsideCapture(s0: Scoping, e0: EnvStack, s: Scoping, e: EnvStack, slot: nat)
    requires Outside(s0, e0, s, e) && slot < |s.locals|
    ensures Outside(s0, e0, s.(locals := s.locals[slot := s.locals[slot].(isUpvalue := true)]), e)
  {
    var k, now := |s0.locals|, s.locals[slot := s.locals[slot].(isUpvalue := true)];
    forall i | 0 <= i < k ensures now[..k][i].(isUpvalue := false) == s0.locals[i].(isUpvalue := false) {
      assert s.locals[..k][i] == s.locals[i];
    }
  }

  lemma OutsideStep(s0: Scoping, e0: EnvStack, s: Scoping, e: EnvStack, base: int, op: ScopeOp)
    requires Agree(s0, e0, base) && Agree(s, e, base) && Outside(s0, e0, s, e)
    requires op.Pop? ==> |e.envs| > |e0.envs| + 1
    ensures Outside(s0, e0, Apply(s, op), ApplyEnv(e, base, op))
  {
    var n := |e.envs| - 1;
    match op
    case Push =>
      assert (e.envs + [Env(map[], e.count)])[..|e0.envs|] == e.envs[..|e0.envs|];
    case Pop =>
      OutsidePop(s0, e0, s, e, base);
    case Declare(name) =>
      HereAgrees(s, e, base, name);
      if s.depth != 0 && !DeclaredHere(s.locals, name, s.depth) && |s.locals| < MAX_LOCALS {
        OutsideBind(s0, e0, s, e, Local(name, s.depth, false, true));
      }
    case Fake(pop) =>
      if |s.locals| < MAX_LOCALS {
        OutsideBind(s0, e0, s, e, Local(FAKE_NAME, s.depth, false, pop));
      }
    case Capture(slot) =>
      if slot < |s.locals| {
        OutsideCapture(s0, e0, s, e, slot);
      }
  }

  lemma {:induction false} StartsRise(locals: seq<Local>, envs: seq<Env>, base: int, k: nat)
    requires Describes(locals, envs, base) && k < |envs|
    ensures envs[k].start <= |locals|
    decreases |envs|
  {
    var n := |envs| - 1;
    if k < n {
      StartsRise(locals[..envs[n].start], envs[..n], base, k);
    }
  }

  lemma InsideStarts(s0: Scoping, e0: EnvStack, base: int)
    requires Agree(s0, e0, base)
    ensures Outside(s0, e0, Apply(s0, Push), ApplyEnv(e0, base, Push))
  {
    hide Describes;
    assert s0.locals[..|s0.locals|] == s0.locals;
  }

  lemma {:induction false} InsideKeeps(s0: Scoping, e0: EnvStack, base: int, inner: seq<ScopeOp>)
    requires Agree(s0, e0, base) && Nested(s0.depth + 1, inner)
    ensures var s, e := RunScopes(Apply(s0, Push), inner), RunEnvs(ApplyEnv(e0, base, Push), base, inner);
      Outside(s0, e0, s, e) && Agree(s, e, base) && |e.envs| == |e0.envs| + 1 + DepthAfter(inner)
    decreases |inner|
  {
    hide Describes, Outside, Bind, Popped, DeclaredHere;
    InsideStarts(s0, e0, base);
    if inner == [] {
      StepAgrees(s0, e0, base, Push);
    } else {
      var m := |inner| - 1;
      NestedPrefix(s0.depth + 1, inner);
      InsideKeeps(s0, e0, base, inner[..m]);
      var s, e := RunScopes(Apply(s0, Push), inner[..m]), RunEnvs(ApplyEnv(e0, base, Push), base, inner[..m]);
      StepAgrees(s, e, base, inner[m]);
      OutsideStep(s0, e0, s, e, base, inner[m]);
    }
  }

  // A scope pushed and popped, whatever happens in it, leaves exactly the slots of the
  // scope around it, at its depth.
  lemma PopRestores(s0: Scoping, e0: EnvStack, base: int, inner: seq<ScopeOp>)
    requires Agree(s0, e0, base) && Nested(s0.depth + 1, inner) && DepthAfter(inner) == 0
    ensures var s := Apply(RunScopes(Apply(s0, Push), inner), Pop);
      SameSlots(s.locals, s0.locals) && s.depth == s0.depth
  {
    hide Describes, Popped;
    InsideKeeps(s0, e0, base, inner);
    var s, e := RunScopes(Apply(s0, Push), inner), RunEnvs(ApplyEnv(e0, base, Push), base, inner);
    PopsTo(s, e, base);
  }
}
