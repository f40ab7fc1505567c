// Captured variables: how a name in a nested function is flattened into a chain of
// descriptors through every function in between, and where that chain leads.
module Upvalues {
  import opened Scopes

  datatype Upvalue = Upvalue(index: nat, isLocal: bool)

  // One function being compiled; a stack of them has the innermost last.
  datatype Frame = Frame(locals: seq<Local>, upvalues: seq<Upvalue>)

  // A local of one function of the stack.
  datatype Slot = Slot(owner: nat, index: nat)

  // ---------- the descriptors of one function ----------

  // The first descriptor equal to u, or the number of descriptors.
  function FindUpvalue(us: seq<Upvalue>, u: Upvalue): (i: nat)
    ensures i <= |us| && (i < |us| ==> us[i] == u) && forall j | 0 <= j < i :: us[j] != u
  {
    if us == [] then 0 else if us[0] == u then 0 else 1 + FindUpvalue(us[1..], u)
  }

  datatype Added = Added(upvalues: seq<Upvalue>, index: nat, full: bool)

  // A descriptor is shared if it is there already; when there is no room the result is
  // index 0 and an error.
  function AddUpvalue(us: seq<Upvalue>, u: Upvalue): Added {
    var i := FindUpvalue(us, u);
    if i < |us| then Added(us, i, false)
    else if |us| == LX_MAX_UPVALUES then Added(us, 0, true)
    else Added(us + [u], |us|, false)
  }

  ghost predicate DistinctUpvalues(us: seq<Upvalue>) {
    forall i, j | 0 <= i < j < |us| :: us[i] != us[j]
  }

  // ---------- resolution through the stack ----------

  datatype Resolved = Resolved(frames: seq<Frame>, index: int, full: bool)

  function MarkCaptured(f: Frame, slot: nat): Frame
    requires slot < |f.locals|
  {
    f.(locals := f.locals[slot := f.locals[slot].(isUpvalue := true)])
  }

  // The innermost function looks a name up in the functions around it.
  function ResolveUpvalue(fs: seq<Frame>, name: string): (r: Resolved)
    requires fs != []
    ensures |r.frames| == |fs| && r.index >= -1
    decreases |fs|
  {
    var n := |fs| - 1;
    if n == 0 then Resolved(fs, -1, false)
    else
      var m := n - 1;
      var local := ResolveLocal(fs[m].locals, name);
      if local != -1 then
        var a := AddUpvalue(fs[n].upvalues, Upvalue(local, true));
        Resolved(fs[..m] + [MarkCaptured(fs[m], local), fs[n].(upvalues := a.upvalues)], a.index, a.full)
      else
        var r := ResolveUpvalue(fs[..n], name);
        if r.index == -1 then Resolved(r.frames + [fs[n]], -1, r.full)
        else
          var a := AddUpvalue(fs[n].upvalues, Upvalue(r.index, false));
          Resolved(r.frames + [fs[n].(upvalues := a.upvalues)], a.index, r.full || a.full)
  }

  // Lexical scoping: the innermost enclosing function with a local of that name, and
  // the last such local.
  function Lexical(fs: seq<Frame>, name: string): Option<Slot> {
    if fs == [] then None
    else
      var n := |fs| - 1;
      var local := ResolveLocal(fs[n].locals, name);
      if local != -1 then Some(Slot(n, local)) else Lexical(fs[..n], name)
  }

  // The descriptor leads to a local or a descriptor of the function around.
  ghost predicate Leads(u: Upvalue, around: Frame) {
    u.index < if u.isLocal then |around.locals| else |around.upvalues|
  }

  ghost predicate LinkedAt(fs: seq<Frame>, k: nat) {
    k < |fs| && forall u | u in fs[k].upvalues :: k > 0 && Leads(u, fs[k - 1])
  }

  ghost predicate Linked(fs: seq<Frame>) {
    forall k: nat | k < |fs| :: LinkedAt(fs, k)
  }

  ghost predicate Wellformed(fs: seq<Frame>) {
    && Linked(fs)
    && forall k | 0 <= k < |fs| :: DistinctUpvalues(fs[k].upvalues) && |fs[k].upvalues| <= LX_MAX_UPVALUES
  }

  // Follows descriptor u of function k outwards to the captured local.
  function Chase(fs: seq<Frame>, k: nat, u: nat): (s: Slot)
    requires Linked(fs) && k < |fs| && u < |fs[k].upvalues|
    ensures s.owner < k && s.index < |fs[s.owner].locals|
  {
    var d := fs[k].upvalues[u];
    assert LinkedAt(fs, k) && d in fs[k].upvalues;
    if d.isLocal then Slot(k - 1, d.index) else Chase(fs, k - 1, d.index)
  }

  // gs differs from fs in captured flags and in descriptors added at the ends.
  ghost predicate Extends(fs: seq<Frame>, gs: seq<Frame>) {
    && |gs| == |fs|
    && forall k | 0 <= k < |fs| :: SameSlots(gs[k].locals, fs[k].locals) && fs[k].upvalues <= gs[k].upvalues
  }

  // Descriptors handed out before keep leading to the same local.
  lemma {:induction false} ChaseStays(fs: seq<Frame>, gs: seq<Frame>, k: nat, u: nat)
    requires Linked(fs) && Linked(gs) && Extends(fs, gs) && k < |fs| && u < |fs[k].upvalues|
    ensures u < |gs[k].upvalues| && Chase(gs, k, u) == Chase(fs, k, u)
  {
    var d := fs[k].upvalues[u];
    assert gs[k].upvalues[u] == d && LinkedAt(fs, k) && d in fs[k].upvalues;
    if !d.isLocal {
      ChaseStays(fs, gs, k - 1, d.index);
    }
  }

  // No two descriptors of a function lead to the same local.
  lemma {:induction false} ChaseInjective(fs: seq<Frame>, k: nat, u: nat, v: nat)
    requires Wellformed(fs) && k < |fs| && u < |fs[k].upvalues| && v < |fs[k].upvalues|
    requires Chase(fs, k, u) == Chase(fs, k, v)
    ensures u == v
  {
    var d, e := fs[k].upvalues[u], fs[k].upvalues[v];
    assert LinkedAt(fs, k) && d in fs[k].upvalues && e in fs[k].upvalues;
    if !d.isLocal && !e.isLocal {
      ChaseInjective(fs, k - 1, d.index, e.index);
    }
    assert DistinctUpvalues(fs[k].upvalues);
  }

  lemma {:induction false} LexicalBound(fs: seq<Frame>, name: string)
    requires Lexical(fs, name).Some?
    ensures var s := Lexical(fs, name).value; s.owner < |fs| && s.index < |fs[s.owner].locals|
  {
    var n := |fs| - 1;
    if ResolveLocal(fs[n].locals, name) == -1 {
      LexicalBound(fs[..n], name);
    }
  }

  lemma AddedKeeps(us: seq<Upvalue>, u: Upvalue)
    requires DistinctUpvalues(us) && |us| <= LX_MAX_UPVALUES
    ensures var a := AddUpvalue(us, u);
      && us <= a.upvalues && DistinctUpvalues(a.upvalues) && |a.upvalues| <= LX_MAX_UPVALUES
      && 0 <= a.index < |a.upvalues| && (!a.full ==> a.upvalues[a.index] == u)
      && (a.full <==> |us| == LX_MAX_UPVALUES && u !in us)
      && forall v | v in a.upvalues :: v in us || (v == u && !a.full)
  {
  }

  lemma LinkedPrefix(fs: seq<Frame>, n: nat)
    requires Wellformed(fs) && n <= |fs|
    ensures Wellformed(fs[..n])
  {
    forall k: nat | k < n ensures LinkedAt(fs[..n], k) {
      assert LinkedAt(fs, k);
    }
  }

  lemma {:induction false} ChasePrefix(fs: seq<Frame>, n: nat, k: nat, u: nat)
    requires n <= |fs| && Linked(fs) && Linked(fs[..n]) && k < n && u < |fs[k].upvalues|
    ensures Chase(fs[..n], k, u) == Chase(fs, k, u)
    decreases k
  {
    var d := fs[k].upvalues[u];
    assert LinkedAt(fs, k) && d in fs[k].upvalues;
    if !d.isLocal {
      ChasePrefix(fs, n, k - 1, d.index);
    }
  }

  // A function is added around which everything is in order.
  lemma WellformedMore(fs: seq<Frame>, f: Frame)
    requires Wellformed(fs) && fs != [] && DistinctUpvalues(f.upvalues) && |f.upvalues| <= LX_MAX_UPVALUES
    requires forall u | u in f.upvalues :: Leads(u, fs[|fs| - 1])
    ensures Wellformed(fs + [f])
  {
    var gs := fs + [f];
    forall k: nat | k < |gs| ensures LinkedAt(gs, k) {
      if k < |fs| {
        assert LinkedAt(fs, k);
      }
    }
  }

  // The captured local is flagged, and nothing but that flag and new descriptors changes.
  ghost predicate Captures(fs: seq<Frame>, gs: seq<Frame>, s: Slot) {
    && Extends(fs, gs) && s.owner < |fs| && s.index < |fs[s.owner].locals| && gs[s.owner].locals[s.index].isUpvalue
    && forall k, i | 0 <= k < |fs| && 0 <= i < |fs[k].locals| && Slot(k, i) != s :: gs[k].locals[i] == fs[k].locals[i]
  }

  lemma MarkKeeps(fs: seq<Frame>, k: nat, slot: nat)
    requires Wellformed(fs) && k < |fs| && slot < |fs[k].locals|
    ensures Wellformed(fs[k := MarkCaptured(fs[k], slot)])
      && Captures(fs, fs[k := MarkCaptured(fs[k], slot)], Slot(k, slot))
  {
    var gs := fs[k := MarkCaptured(fs[k], slot)];
    forall j: nat | j < |gs| ensures LinkedAt(gs, j) {
      assert LinkedAt(fs, j);
    }
  }

  // The innermost function f gets the descriptor u, which the frames around it lead on.
  lemma AddKeeps(gs: seq<Frame>, f: Frame, u: Upvalue)
    requires Wellformed(gs) && gs != [] && Leads(u, gs[|gs| - 1])
    requires DistinctUpvalues(f.upvalues) && |f.upvalues| <= LX_MAX_UPVALUES
    requires forall v | v in f.upvalues :: Leads(v, gs[|gs| - 1])
    ensures var a := AddUpvalue(f.upvalues, u);
      && Wellformed(gs + [f.(upvalues := a.upvalues)])
      && 0 <= a.index < |a.upvalues| && f.upvalues <= a.upvalues
      && (!a.full ==> a.upvalues[a.index] == u)
  {
    AddedKeeps(f.upvalues, u);
    WellformedMore(gs, f.(upvalues := AddUpvalue(f.upvalues, u).upvalues));
  }

  // What a successful resolution has to be: descriptor u of the innermost function leads
  // to the local s, which is flagged.
  ghost predicate Found(fs: seq<Frame>, r: Resolved, s: Slot) {
    var n := |fs| - 1;
    && fs != [] && |r.frames| == |fs| && Wellformed(r.frames) && Captures(fs, r.frames, s)
    && 0 <= r.index < |r.frames[n].upvalues|
    && (!r.full ==> Chase(r.frames, n, r.index) == s)
  }

  lemma FoundHere(fs: seq<Frame>, name: string)
    requires Wellformed(fs) && |fs| > 1 && ResolveLocal(fs[|fs| - 2].locals, name) != -1
    ensures Found(fs, ResolveUpvalue(fs, name), Slot(|fs| - 2, ResolveLocal(fs[|fs| - 2].locals, name)))
  {
    var n := |fs| - 1;
    var m := n - 1;
    var local := ResolveLocal(fs[m].locals, name);
    MarkKeeps(fs, m, local);
    var marked := fs[m := MarkCaptured(fs[m], local)];
    LinkedPrefix(marked, n);
    assert LinkedAt(marked, n);
    var r, u := ResolveUpvalue(fs, name), Upvalue(local, true);
    AddKeeps(marked[..n], fs[n], u);
    assert r.frames == marked[..n] + [fs[n].(upvalues := AddUpvalue(fs[n].upvalues, u).upvalues)];
  }

  lemma WellformedAt(fs: seq<Frame>, k: nat)
    requires Wellformed(fs) && k < |fs|
    ensures LinkedAt(fs, k) && DistinctUpvalues(fs[k].upvalues) && |fs[k].upvalues| <= LX_MAX_UPVALUES
  {
  }

  lemma FoundOutside(fs: seq<Frame>, r: Resolved, f: Frame, s: Slot)
    requires Wellformed(fs + [f]) && Found(fs, r, s)
    ensures var a := AddUpvalue(f.upvalues, Upvalue(r.index, false));
      Found(fs + [f], Resolved(r.frames + [f.(upvalues := a.upvalues)], a.index, r.full || a.full), s)
  {
    hide AddUpvalue;
    WellformedAt(fs + [f], |fs|);
    hide DistinctUpvalues;
    var n := |fs|;
    var m := n - 1;
    var u := Upvalue(r.index, false);
    var a := AddUpvalue(f.upvalues, u);
    forall v | v in f.upvalues ensures Leads(v, r.frames[m]) {
      assert LinkedAt(fs + [f], n) && v in (fs + [f])[n].upvalues;
      assert Leads(v, fs[m]) && fs[m].upvalues <= r.frames[m].upvalues && SameSlots(r.frames[m].locals, fs[m].locals);
    }
    AddKeeps(r.frames, f, u);
    var gs := r.frames + [f.(upvalues := a.upvalues)];
    assert gs[..n] == r.frames;
    if !r.full && !a.full {
      ChasePrefix(gs, n, m, r.index);
    }
  }

  // A name is found in the functions around exactly when lexical scoping finds it. Then,
  // unless a function on the way has no room for a descriptor, the descriptor returned
  // leads to the local lexical scoping assigns, which is flagged as captured; nothing else
  // changes but for descriptors added at the ends.
  lemma {:induction false} ResolveFinds(fs: seq<Frame>, name: string)
    requires Wellformed(fs) && fs != []
    ensures var r, t := ResolveUpvalue(fs, name), Lexical(fs[..|fs| - 1], name);
      && (t.None? ==> r == Resolved(fs, -1, false))
      && (t.Some? ==> Found(fs, r, t.value))
    decreases |fs|
  {
    var n := |fs| - 1;
    if n > 0 {
      var m := n - 1;
      assert fs[..n][..m] == fs[..m] && fs[..n] + [fs[n]] == fs;
      if ResolveLocal(fs[m].locals, name) != -1 {
        FoundHere(fs, name);
      } else {
        LinkedPrefix(fs, n);
        ResolveFinds(fs[..n], name);
        var t := Lexical(fs[..m], name);
        if t.Some? {
          FoundOutside(fs[..n], ResolveUpvalue(fs[..n], name), fs[n], t.value);
        }
      }
    }
  }

  // Room runs out only in a function that already has every descriptor it may have.
  lemma {:induction false} FullOnlyAtLimit(fs: seq<Frame>, name: string)
    requires Wellformed(fs) && fs != [] && ResolveUpvalue(fs, name).full
    ensures exists k :: 0 < k < |fs| && |fs[k].upvalues| == LX_MAX_UPVALUES
    decreases |fs|
  {
    var n := |fs| - 1;
    if n > 0 {
      var m := n - 1;
      if ResolveLocal(fs[m].locals, name) == -1 {
        LinkedPrefix(fs, n);
        if ResolveUpvalue(fs[..n], name).full {
          FullOnlyAtLimit(fs[..n], name);
          var k :| 0 < k < n && |fs[..n][k].upvalues| == LX_MAX_UPVALUES;
          assert |fs[k].upvalues| == LX_MAX_UPVALUES;
        } else {
          assert |fs[n].upvalues| == LX_MAX_UPVALUES;
        }
      } else {
        assert |fs[n].upvalues| == LX_MAX_UPVALUES;
      }
    }
  }

  // Resolving a name leaves every descriptor handed out before leading where it led.
  lemma ResolveStable(fs: seq<Frame>, name: string, k: nat, u: nat)
    requires Wellformed(fs) && fs != [] && k < |fs| && u < |fs[k].upvalues|
    ensures var gs := ResolveUpvalue(fs, name).frames;
      Wellformed(gs) && u < |gs[k].upvalues| && gs[k].upvalues[u] == fs[k].upvalues[u]
        && Chase(gs, k, u) == Chase(fs, k, u)
  {
    ResolveFinds(fs, name);
    var gs := ResolveUpvalue(fs, name).frames;
    assert Extends(fs, gs);
    ChaseStays(fs, gs, k, u);
  }

  lemma WellformedLinked(fs: seq<Frame>)
    requires Wellformed(fs)
    ensures Linked(fs)
  {
  }

  lemma LexicalOutside(fs: seq<Frame>, name: string)
    requires fs != [] && ResolveLocal(fs[|fs| - 1].locals, name) == -1
    ensures Lexical(fs, name) == Lexical(fs[..|fs| - 1], name)
    ensures Lexical(fs, name).Some? ==> Lexical(fs, name).value.owner < |fs| - 1
  {
    if Lexical(fs, name).Some? {
      LexicalBound(fs[..|fs| - 1], name);
    }
  }

  // Scopes come and go in the innermost function, an inner function begins and ends:
  // descriptors stay in order throughout.
  lemma InnermostChanges(fs: seq<Frame>, f: Frame, locals: seq<Local>)
    requires Wellformed(fs + [f])
    ensures Wellformed(fs + [f.(locals := locals)])
    ensures Wellformed(fs)
    ensures Wellformed(fs + [f] + [Frame(locals, [])])
  {
    LinkedPrefix(fs + [f], |fs|);
    assert (fs + [f])[..|fs|] == fs;
    var n := |fs|;
    forall u | u in f.upvalues ensures n > 0 && Leads(u, fs[n - 1]) {
      assert LinkedAt(fs + [f], n) && u in (fs + [f])[n].upvalues;
      assert n > 0 ==> (fs + [f])[n - 1] == fs[n - 1];
    }
    assert DistinctUpvalues((fs + [f])[n].upvalues);
    if n > 0 {
      WellformedMore(fs, f.(locals := locals));
    }
    WellformedMore(fs + [f], Frame(locals, []));
  }
}
