// Functions inside functions, each with scopes of its own: compiling them runs alongside
// the environments of lexical scoping, and the two agree throughout.
module Nesting {
  import opened Scopes
  import opened Upvalues

  // A function being compiled, and the environments its scopes stand for; base is the
  // depth of its first scope.
  datatype Unit = Unit(scope: Scoping, upvalues: seq<Upvalue>)
  datatype Block = Block(env: EnvStack, base: int)

  datatype Step = Scope(op: ScopeOp) | Enter(depth: int) | Leave | Resolve(name: string)

  datatype Nest = Nest(units: seq<Unit>, blocks: seq<Block>)

  function FrameOf(u: Unit): Frame {
    Frame(u.scope.locals, u.upvalues)
  }

  function Frames(us: seq<Unit>): (fs: seq<Frame>)
    ensures |fs| == |us| && forall k | 0 <= k < |us| :: fs[k] == FrameOf(us[k])
  {
    seq(|us|, k requires 0 <= k < |us| => FrameOf(us[k]))
  }

  // Lexical scoping: the innermost function around in whose environments the name is
  // bound, and the slot it is bound to there.
  function EnvLexical(bs: seq<Block>, name: string): Option<Slot> {
    if bs == [] then None
    else
      var n := |bs| - 1;
      var slot := EnvLookup(bs[n].env.envs, name);
      if slot >= 0 then Some(Slot(n, slot)) else EnvLexical(bs[..n], name)
  }

  // ---------- steps ----------

  // The first slot of a function is its own.
  function NewUnit(depth: int): Unit {
    Unit(Scoping([Local("", depth, false, true)], depth, 0), [])
  }

  function NewBlock(depth: int): Block {
    Block(EnvStack([Env(map["" := 0], 0)], 1, 0), depth)
  }

  // Scopes are popped after they are pushed, the compiler adds locals of its own only
  // inside a scope, and the outermost function does not end.
  predicate Allowed(s: Nest, step: Step) {
    && s.units != [] && |s.blocks| == |s.units|
    && var n := |s.units| - 1;
       match step
       case Scope(op) =>
         (op.Pop? ==> |s.blocks[n].env.envs| > 1) && (op.Fake? ==> s.units[n].scope.depth > 0) && !op.Capture?
       case Enter(depth) => depth >= 0
       case Leave => n > 0
       case Resolve(_) => true
  }

  function WithFrame(u: Unit, f: Frame): Unit {
    Unit(u.scope.(locals := f.locals), f.upvalues)
  }

  function WithFrames(us: seq<Unit>, fs: seq<Frame>): (r: seq<Unit>)
    requires |fs| == |us|
    ensures |r| == |us| && forall k | 0 <= k < |us| :: r[k] == WithFrame(us[k], fs[k])
  {
    seq(|us|, k requires 0 <= k < |us| => WithFrame(us[k], fs[k]))
  }

  // A step of the compiler, and what it means for the environments: nothing when a name is
  // resolved.
  function Next(s: Nest, step: Step): Nest
    requires Allowed(s, step)
  {
    var n := |s.units| - 1;
    match step
    case Scope(op) =>
      var u, b := s.units[n], s.blocks[n];
      Nest(s.units[..n] + [u.(scope := Apply(u.scope, op))], s.blocks[..n] + [b.(env := ApplyEnv(b.env, b.base, op))])
    case Enter(depth) => Nest(s.units + [NewUnit(depth)], s.blocks + [NewBlock(depth)])
    case Leave => Nest(s.units[..n], s.blocks[..n])
    case Resolve(name) =>
      if ResolveLocal(s.units[n].scope.locals, name) != -1 then s
      else s.(units := WithFrames(s.units, ResolveUpvalue(Frames(s.units), name).frames))
  }

  predicate AllowedRun(s: Nest, steps: seq<Step>)
    decreases |steps|
  {
    steps == [] || (Allowed(s, steps[0]) && AllowedRun(Next(s, steps[0]), steps[1..]))
  }

  function Run(s: Nest, steps: seq<Step>): Nest
    requires AllowedRun(s, steps)
    decreases |steps|
  {
    if steps == [] then s else Run(Next(s, steps[0]), steps[1..])
  }

  // ---------- what every step keeps ----------

  ghost predicate AgreeAt(s: Nest, k: nat) {
    k < |s.units| && k < |s.blocks| && Agree(s.units[k].scope, s.blocks[k].env, s.blocks[k].base)
  }

  // Every function's slots agree with its environments, and descriptors are in order.
  ghost predicate InStep(s: Nest) {
    && s.units != [] && |s.blocks| == |s.units|
    && (forall k: nat | k < |s.units| :: AgreeAt(s, k))
    && Wellformed(Frames(s.units))
  }

  lemma {:induction false} DescribesSame(a: seq<Local>, b: seq<Local>, envs: seq<Env>, base: int)
    requires Describes(a, envs, base) && SameSlots(b, a)
    ensures Describes(b, envs, base)
    decreases |envs|
  {
    if envs != [] {
      var n := |envs| - 1;
      var start := envs[n].start;
      SlotsBinds(a, b, start, base + n, envs[n].bindings);
      assert SameSlots(b[..start], a[..start]);
      DescribesSame(a[..start], b[..start], envs[..n], base);
    }
  }

  lemma SlotsBinds(a: seq<Local>, b: seq<Local>, start: nat, d: int, m: map<string, nat>)
    requires Binds(a, start, d, m) && SameSlots(b, a)
    ensures Binds(b, start, d, m)
  {
    assert forall i | 0 <= i < |a| :: b[i].name == a[i].name && b[i].depth == a[i].depth by {
      forall i | 0 <= i < |a| ensures b[i].name == a[i].name && b[i].depth == a[i].depth {
        assert b[i].(isUpvalue := false) == a[i].(isUpvalue := false);
      }
    }
  }

  lemma {:induction false} LexicalAgrees(s: Nest, n: nat, name: string)
    requires InStep(s) && n <= |s.units|
    ensures Lexical(Frames(s.units)[..n], name) == EnvLexical(s.blocks[..n], name)
    decreases n
  {
    if n > 0 {
      var m := n - 1;
      assert AgreeAt(s, m);
      LookupAgrees(s.units[m].scope.locals, s.blocks[m].env.envs, s.blocks[m].base, name);
      LexicalAgrees(s, m, name);
      assert Frames(s.units)[..n][..m] == Frames(s.units)[..m] && s.blocks[..n][..m] == s.blocks[..m];
    }
  }

  lemma FrameSplit(us: seq<Unit>)
    requires us != []
    ensures var n := |us| - 1; Frames(us)[..n] + [FrameOf(us[n])] == Frames(us) && Frames(us[..n]) == Frames(us)[..n]
  {
  }

  lemma NewAgrees(depth: int)
    requires depth >= 0
    ensures Agree(NewUnit(depth).scope, NewBlock(depth).env, depth)
  {
    var locals := NewUnit(depth).scope.locals;
    assert locals[..0] == [];
    assert Binds(locals, 0, depth, map["" := 0]);
    assert [Env(map["" := 0], 0)][..0] == [];
  }

  lemma ScopeKeeps(s: Nest, op: ScopeOp)
    requires InStep(s) && Allowed(s, Scope(op))
    ensures InStep(Next(s, Scope(op)))
  {
    hide Describes, Wellformed, Apply, ApplyEnv;
    var n := |s.units| - 1;
    var t := Next(s, Scope(op));
    var u, b := s.units[n], s.blocks[n];
    assert AgreeAt(s, n);
    StepAgrees(u.scope, b.env, b.base, op);
    forall k: nat | k < |t.units| ensures AgreeAt(t, k) {
      assert k < n ==> AgreeAt(s, k);
    }
    FrameSplit(s.units);
    FrameSplit(t.units);
    assert t.units[..n] == s.units[..n];
    InnermostChanges(Frames(s.units)[..n], FrameOf(u), t.units[n].scope.locals);
  }

  lemma EnterKeeps(s: Nest, depth: int)
    requires InStep(s) && depth >= 0
    ensures InStep(Next(s, Enter(depth)))
  {
    hide Describes, Wellformed, Agree;
    var n := |s.units| - 1;
    var t := Next(s, Enter(depth));
    NewAgrees(depth);
    forall k: nat | k < |t.units| ensures AgreeAt(t, k) {
      assert k <= n ==> AgreeAt(s, k);
    }
    FrameSplit(s.units);
    FrameSplit(t.units);
    assert t.units[..n + 1] == s.units;
    InnermostChanges(Frames(s.units)[..n], FrameOf(s.units[n]), NewUnit(depth).scope.locals);
  }

  lemma LeaveKeeps(s: Nest)
    requires InStep(s) && |s.units| > 1
    ensures InStep(Next(s, Leave))
  {
    hide Describes, Wellformed, Agree;
    var n := |s.units| - 1;
    var t := Next(s, Leave);
    forall k: nat | k < n ensures AgreeAt(t, k) {
      assert AgreeAt(s, k);
    }
    FrameSplit(s.units);
    LinkedPrefix(Frames(s.units), n);
  }

  lemma ResolveKeeps(s: Nest, name: string)
    requires InStep(s)
    ensures InStep(Next(s, Resolve(name)))
  {
    hide Describes, Wellformed, Agree, SameSlots;
    var n := |s.units| - 1;
    var t := Next(s, Resolve(name));
    if t != s {
      var fs := Frames(s.units);
      var gs := ResolveUpvalue(fs, name).frames;
      ResolveKept(fs, name);
      assert Frames(t.units) == gs;
      forall k: nat | k < |t.units| ensures AgreeAt(t, k) {
        assert AgreeAt(s, k) && SameSlots(gs[k].locals, fs[k].locals);
        SameAgrees(s.units[k].scope, gs[k].locals, s.blocks[k].env, s.blocks[k].base);
      }
    }
  }

  lemma ResolveKept(fs: seq<Frame>, name: string)
    requires Wellformed(fs) && fs != []
    ensures var gs := ResolveUpvalue(fs, name).frames; Wellformed(gs) && Extends(fs, gs)
  {
    hide Wellformed, Chase;
    ResolveFinds(fs, name);
  }

  lemma SameAgrees(s: Scoping, locals: seq<Local>, e: EnvStack, base: int)
    requires Agree(s, e, base) && SameSlots(locals, s.locals)
    ensures Agree(s.(locals := locals), e, base)
  {
    hide Describes;
    DescribesSame(s.locals, locals, e.envs, base);
  }

  lemma StepKeeps(s: Nest, step: Step)
    requires InStep(s) && Allowed(s, step)
    ensures InStep(Next(s, step))
  {
    hide InStep, Next;
    match step
    case Scope(op) => ScopeKeeps(s, op);
    case Enter(depth) => EnterKeeps(s, depth);
    case Leave => LeaveKeeps(s);
    case Resolve(name) => ResolveKeeps(s, name);
  }

  // ---------- whole runs ----------

  // The program's own code: no slots, one environment.
  const OUTERMOST := Nest([Unit(Scoping([], 0, 0), [])], [Block(EnvStack([Env(map[], 0)], 0, 0), 0)])

  lemma OutermostInStep()
    ensures InStep(OUTERMOST)
  {
    assert [Env(map[], 0)][..0] == [];
    assert Describes([], [Env(map[], 0)], 0);
    assert LinkedAt(Frames(OUTERMOST.units), 0);
  }

  // Through every run of scopes, declarations, functions that begin and end and names that
  // are resolved, lookup in the slots of all functions agrees with lookup through all
  // their environments.
  lemma {:induction false} NestingAgrees(s: Nest, steps: seq<Step>)
    requires InStep(s) && AllowedRun(s, steps)
    ensures InStep(Run(s, steps))
    ensures var t := Run(s, steps); forall name :: Lexical(Frames(t.units), name) == EnvLexical(t.blocks, name)
    decreases |steps|
  {
    hide InStep, Next, Allowed;
    if steps == [] {
      forall name ensures Lexical(Frames(s.units), name) == EnvLexical(s.blocks, name) {
        WholeAgrees(s, name);
      }
    } else {
      StepKeeps(s, steps[0]);
      NestingAgrees(Next(s, steps[0]), steps[1..]);
    }
  }

  lemma WholeAgrees(s: Nest, name: string)
    requires InStep(s)
    ensures Lexical(Frames(s.units), name) == EnvLexical(s.blocks, name)
  {
    LexicalAgrees(s, |s.units|, name);
    assert Frames(s.units)[..|s.units|] == Frames(s.units) && s.blocks[..|s.units|] == s.blocks;
  }

  // At any point of a run, a name is found in the functions around exactly when it is bound
  // in their environments, and then, unless room runs out, the descriptor leads to the
  // slot of the innermost binding.
  lemma NestingResolves(s: Nest, steps: seq<Step>, name: string)
    requires InStep(s) && AllowedRun(s, steps)
    ensures var t := Run(s, steps);
      var n, fs := |t.units| - 1, Frames(t.units);
      && fs != [] && |t.blocks| == n + 1
      && var r, bound := ResolveUpvalue(fs, name), EnvLexical(t.blocks[..n], name);
         && (bound.None? ==> r == Resolved(fs, -1, false))
         && (bound.Some? ==> Found(fs, r, bound.value))
  {
    hide Wellformed, Found, ResolveUpvalue;
    NestingAgrees(s, steps);
    var t := Run(s, steps);
    var n := |t.units| - 1;
    LexicalAgrees(t, n, name);
    ResolveFinds(Frames(t.units), name);
  }

  // ---------- descriptors handed out ----------

  lemma {:induction false} ChaseBelow(fs: seq<Frame>, gs: seq<Frame>, k: nat, u: nat)
    requires Linked(fs) && Linked(gs) && k < |fs| && k < |gs| && fs[..k] == gs[..k] && fs[k].upvalues == gs[k].upvalues
    requires u < |fs[k].upvalues|
    ensures Chase(fs, k, u) == Chase(gs, k, u)
    decreases k
  {
    var d := fs[k].upvalues[u];
    assert LinkedAt(fs, k) && d in fs[k].upvalues;
    if !d.isLocal {
      var m := k - 1;
      assert fs[m] == fs[..k][m] && gs[m] == gs[..k][m];
      assert fs[..m] == fs[..k][..m] && gs[..m] == gs[..k][..m];
      ChaseBelow(fs, gs, m, d.index);
    }
  }

  // Descriptor u of function k leads to slot t.
  ghost predicate LeadsTo(s: Nest, k: nat, u: nat, t: Slot) {
    && k < |s.units| && u < |s.units[k].upvalues| && Linked(Frames(s.units)) && Chase(Frames(s.units), k, u) == t
  }

  lemma StepStable(s: Nest, step: Step, k: nat, u: nat, t: Slot)
    requires InStep(s) && Allowed(s, step) && k < |Next(s, step).units| && LeadsTo(s, k, u, t)
    ensures LeadsTo(Next(s, step), k, u, t)
  {
    hide Describes, Agree, Wellformed, Apply, ApplyEnv, Chase, Linked;
    var s' := Next(s, step);
    var fs, gs := Frames(s.units), Frames(s'.units);
    StepKeeps(s, step);
    WellformedLinked(fs);
    WellformedLinked(gs);
    if step.Resolve? {
      if s' != s {
        ResolveStable(fs, step.name, k, u);
        assert gs == ResolveUpvalue(fs, step.name).frames;
      }
    } else {
      assert fs[..k] == gs[..k];
      ChaseBelow(fs, gs, k, u);
    }
  }

  // The function is not left during the run.
  predicate StaysOpen(s: Nest, steps: seq<Step>, k: nat)
    requires AllowedRun(s, steps)
    decreases |steps|
  {
    k < |s.units| && (steps != [] ==> StaysOpen(Next(s, steps[0]), steps[1..], k))
  }

  // Whatever is compiled in between, a descriptor leads to the same slot for as long as its
  // function is being compiled.
  lemma {:induction false} NestingStable(s: Nest, steps: seq<Step>, k: nat, u: nat, t: Slot)
    requires InStep(s) && AllowedRun(s, steps) && StaysOpen(s, steps, k) && LeadsTo(s, k, u, t)
    ensures LeadsTo(Run(s, steps), k, u, t)
    decreases |steps|
  {
    hide InStep, Next, Allowed, LeadsTo;
    if steps != [] {
      StepKeeps(s, steps[0]);
      StepStable(s, steps[0], k, u, t);
      NestingStable(Next(s, steps[0]), steps[1..], k, u, t);
    }
  }
}
