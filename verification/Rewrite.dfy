// Replacing a straight stretch of instructions by another one with the same effect
// does not change what a program comes to, provided no jump goes into the middle of
// the stretch.
module Rewrite {
  import opened Machine
  import opened Code

  // Indexes outside the stretch of a instructions at j, once it has become b long.
  function Move(i: nat, j: nat, a: nat, b: nat): nat {
    if i >= j + a then i - a + b else i
  }

  function MoveIns(i: Ins, j: nat, a: nat, b: nat): Ins {
    if Target(i).Some? then WithTarget(i, Move(Target(i).value, j, a, b)) else i
  }

  predicate Inside(i: nat, j: nat, a: nat) {
    j < i < j + a
  }

  function MoveState(s: State, j: nat, a: nat, b: nat): State {
    if s.Running? then s.(pc := Move(s.pc, j, a, b)) else s
  }

  // The effect of the stretch: it goes on behind both stretches with the same stack
  // and environment, or ends in the same way.
  ghost predicate SameEffect(p: seq<Ins>, j: nat, a: nat, q: seq<Ins>, b: nat, stack: seq<Value>, env: Env) {
    var s := Steps(p, Running(j, stack, env), a);
    && (s.Running? ==> s.pc == j + a)
    && Steps(q, Running(j, stack, env), b) == MoveState(s, j, a, b)
  }

  ghost predicate Rewrites(p: seq<Ins>, j: nat, a: nat, q: seq<Ins>, b: nat) {
    && a >= 1 && j + a <= |p| && |q| == |p| - a + b
    && (forall i | 0 <= i < |p| && !(j <= i < j + a) :: q[Move(i, j, a, b)] == MoveIns(p[i], j, a, b))
    && (forall i | 0 <= i < |p| && Target(p[i]).Some? :: !Inside(Target(p[i]).value, j, a))
    && (forall stack, env :: SameEffect(p, j, a, q, b, stack, env))
  }

  // Outside the stretch the two programs go in step.
  lemma StepOutside(p: seq<Ins>, j: nat, a: nat, q: seq<Ins>, b: nat, s: State)
    requires Rewrites(p, j, a, q, b) && s.Running? && !(j <= s.pc < j + a)
    ensures Step(q, MoveState(s, j, a, b)) == MoveState(Step(p, s), j, a, b)
    ensures Step(p, s).Running? ==> !Inside(Step(p, s).pc, j, a)
  {
    hide Exec, MoveIns, SameEffect;
    if s.pc < |p| {
      assert q[Move(s.pc, j, a, b)] == MoveIns(p[s.pc], j, a, b);
      ExecMoved(p[s.pc], s.pc, j, a, b, s.stack, s.env);
    }
  }

  lemma ExecMoved(i: Ins, pc: nat, j: nat, a: nat, b: nat, stack: seq<Value>, env: Env)
    requires !(j <= pc < j + a) && a >= 1
    requires Target(i).Some? ==> !Inside(Target(i).value, j, a)
    ensures Exec(MoveIns(i, j, a, b), Move(pc, j, a, b) + 1, stack, env)
         == MoveState(Exec(i, pc + 1, stack, env), j, a, b)
    ensures var t := Exec(i, pc + 1, stack, env); t.Running? ==> !Inside(t.pc, j, a)
  {
    hide Binary, Comparison, Negated;
    assert Move(pc + 1, j, a, b) == Move(pc, j, a, b) + 1;
  }

  lemma {:induction false} EndsForward(p: seq<Ins>, j: nat, a: nat, q: seq<Ins>, b: nat, s: State, n: nat, r: State)
    requires Rewrites(p, j, a, q, b) && (s.Running? ==> !Inside(s.pc, j, a))
    requires Steps(p, s, n) == r && !r.Running?
    ensures EndsIn(q, MoveState(s, j, a, b), r)
    decreases n
  {
    hide Step, Steps;
    var z := MoveState(s, j, a, b);
    if !s.Running? {
      StepsFinal(p, s, n);
      StepsFinal(q, s, 0);
    } else if s.pc == j {
      assert SameEffect(p, j, a, q, b, s.stack, s.env);
      var t := Steps(p, s, a);
      if n < a {
        StepsStay(p, s, n, a);
      } else if !t.Running? {
        StepsStay(p, s, a, n);
      } else {
        StepsAdd(p, s, a, n - a);
        EndsForward(p, j, a, q, b, t, n - a, r);
        EndsLater(q, z, b, MoveState(t, j, a, b), r);
      }
    } else {
      StepsFirst(p, s, n);
      StepOutside(p, j, a, q, b, s);
      EndsForward(p, j, a, q, b, Step(p, s), n - 1, r);
      StepsFirst(q, z, 1);
      EndsLater(q, z, 1, MoveState(Step(p, s), j, a, b), r);
    }
  }

  lemma StepsFirst(p: seq<Ins>, s: State, n: nat)
    requires s.Running? && (n == 1 || !Steps(p, s, n).Running?)
    ensures n > 0 && Steps(p, s, n) == Steps(p, Step(p, s), n - 1)
    ensures n == 1 ==> Steps(p, s, n) == Step(p, s)
  {
    if n == 1 {
      assert Steps(p, Step(p, s), 0) == Step(p, s);
    }
  }

  lemma EndsLater(p: seq<Ins>, s: State, m: nat, t: State, r: State)
    requires Steps(p, s, m) == t && EndsIn(p, t, r)
    ensures EndsIn(p, s, r)
  {
    var n: nat :| Steps(p, t, n) == r;
    StepsAdd(p, s, m, n);
  }

  lemma {:induction false} EndsBackward(p: seq<Ins>, j: nat, a: nat, q: seq<Ins>, b: nat, s: State, n: nat, r: State)
    requires Rewrites(p, j, a, q, b) && (s.Running? ==> !Inside(s.pc, j, a))
    requires Steps(q, MoveState(s, j, a, b), n) == r && !r.Running?
    ensures EndsIn(p, s, r)
    decreases n, if s.Running? && s.pc == j then 1 else 0
  {
    hide Step, Steps;
    var z := MoveState(s, j, a, b);
    if !s.Running? {
      StepsFinal(q, s, n);
      StepsFinal(p, s, 0);
    } else if s.pc == j {
      assert SameEffect(p, j, a, q, b, s.stack, s.env);
      var t := Steps(p, s, a);
      if n < b {
        StepsStay(q, z, n, b);
      } else {
        StepsAdd(q, z, b, n - b);
        if t.Running? {
          EndsBackward(p, j, a, q, b, t, n - b, r);
          EndsLater(p, s, a, t, r);
        } else {
          StepsFinal(q, t, n - b);
        }
      }
    } else {
      StepsFirst(q, z, n);
      StepOutside(p, j, a, q, b, s);
      EndsBackward(p, j, a, q, b, Step(p, s), n - 1, r);
      StepsFirst(p, s, 1);
      EndsLater(p, s, 1, Step(p, s), r);
    }
  }

  // Both programs come to the same ends.
  lemma RewriteKeeps(p: seq<Ins>, j: nat, a: nat, q: seq<Ins>, b: nat, env: Env, r: State)
    requires Rewrites(p, j, a, q, b)
    ensures EndsIn(p, Running(0, [], env), r) <==> EndsIn(q, Running(0, [], env), r)
  {
    hide Rewrites, Steps;
    var s := Running(0, [], env);
    RewriteStart(p, j, a, q, b, s);
    if EndsIn(p, s, r) {
      var n: nat :| Steps(p, s, n) == r;
      EndsForward(p, j, a, q, b, s, n, r);
    }
    if EndsIn(q, s, r) {
      var n: nat :| Steps(q, s, n) == r;
      EndsBackward(p, j, a, q, b, s, n, r);
    }
  }

  lemma RewriteStart(p: seq<Ins>, j: nat, a: nat, q: seq<Ins>, b: nat, s: State)
    requires Rewrites(p, j, a, q, b) && s.Running? && s.pc == 0
    ensures !Inside(s.pc, j, a) && MoveState(s, j, a, b) == s
  {
  }
}
