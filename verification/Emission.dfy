// What emitting code leaves behind, as a relation between lists: the new instructions
// mean the code of the tree, with links, labels and constants in order.
module Emission {
  import opened Opcodes
  import opened Machine
  import opened Code
  import opened Patch
  import opened Simplify
  import opened Optimizer

  // An instruction list under construction: its constants, the index of each string among
  // them, and whether the next instruction is to be labelled.
  datatype Draft = Draft(v: Insns, pool: seq<Constant>, strings: map<string, nat>, label_: bool)

  // The link of a finished jump: to the labelled instruction before its target, or to the
  // one before it with the target labelled, once it is there; that of a loop to its
  // labelled target.
  ghost predicate LinkOk(v: Insns, label_: bool, i: nat, ins: Ins)
    requires i < |v|
  {
    && (IsJump(v[i].code) ==> Target(ins).Some? && JumpLinkOk(v, label_, i, Target(ins).value))
    && (IsLoop(v[i].code) ==> Target(ins).Some? && LoopLinkOk(v, i, Target(ins).value))
  }

  ghost predicate JumpLinkOk(v: Insns, label_: bool, i: nat, t: nat)
    requires i < |v|
  {
    && i < t <= |v|
    && ((v[i].jumpTo == To(t - 1) && i < t - 1 && v[t - 1].isLabel)
        || (v[i].jumpTo == NoLink && v[i].jumpToPrev == To(t - 1)
            && (t < |v| ==> v[t].isLabel) && (t == |v| ==> label_)))
  }

  ghost predicate LoopLinkOk(v: Insns, i: nat, t: nat)
    requires i < |v|
  {
    t < |v| && v[i].jumpTo == To(t) && v[t].isLabel
  }

  // No jump lands behind a value on its way to an operator.
  ghost predicate LandingOk(v: Insns, ins: Ins) {
    Target(ins).Some? ==> var t := Target(ins).value; t <= |v| && (t > 0 ==> !IsValueCode(v[t - 1].code))
  }

  ghost predicate ConstantOk(v: Insns, pool: seq<Constant>, i: nat)
    requires i < |v|
  {
    && (v[i].isNumber ==>
          v[i].code == OP_CONSTANT && |v[i].operands| == 1 && v[i].operands[0] < |pool|
            && pool[v[i].operands[0]].NumberConst?)
    && (UsesPool(v[i]) && !v[i].isNumber ==> v[i].operands[0] < |pool| && pool[v[i].operands[0]].StringConst?)
  }

  ghost predicate InsnOk(v: Insns, pool: seq<Constant>, label_: bool, i: nat, ins: Ins) {
    && i < |v| && Means(v, pool, i, ins) && LinkOk(v, label_, i, ins) && LandingOk(v, ins) && ConstantOk(v, pool, i)
  }

  // A jump emitted but not patched yet.
  ghost predicate OpenJump(v: Insns, i: nat, ins: Ins) {
    && i < |v| && IsJump(v[i].code) && |v[i].operands| == 1 && v[i].jumpTo == NoLink && !v[i].isNumber
    && Target(ins).Some? && ins == JumpIns(v[i].code, Target(ins).value)
  }

  // The instructions from lo on are the code, but for the open jumps.
  ghost predicate Seg(v: Insns, pool: seq<Constant>, label_: bool, lo: nat, code: seq<Ins>, open: set<nat>) {
    && lo + |code| <= |v|
    && forall k: nat | k < |code| ::
         if lo + k in open then OpenJump(v, lo + k, code[k]) else InsnOk(v, pool, label_, lo + k, code[k])
  }

  // Number literals from lo to hi use constants of their own, from a up to b.
  ghost predicate Nums(v: Insns, lo: nat, hi: nat, a: nat, b: nat) {
    && hi <= |v|
    && (forall i | lo <= i < hi && v[i].isNumber :: |v[i].operands| == 1 && a <= v[i].operands[0] < b)
    && (forall i, j | lo <= i < j < hi && v[i].isNumber && v[j].isNumber :: v[i].operands[0] < v[j].operands[0])
  }

  ghost predicate StringsOk(pool: seq<Constant>, strings: map<string, nat>) {
    forall s | s in strings :: strings[s] < |pool| && pool[strings[s]] == StringConst(s)
  }

  // ---------- keeping what is emitted ----------

  // w is v with instructions added and none before changed but in its links or label,
  // except that the operand of the jump at j may be.
  ghost predicate Later(v: Insns, w: Insns, j: int) {
    && |v| <= |w|
    && forall k | 0 <= k < |v| ::
         && w[k].code == v[k].code && |w[k].operands| == |v[k].operands| && (v[k].isLabel ==> w[k].isLabel)
         && w[k].isNumber == v[k].isNumber && (k != j ==> w[k].operands == v[k].operands)
         && (k != j && (IsJump(v[k].code) || IsLoop(v[k].code)) ==>
           w[k].jumpTo == v[k].jumpTo && w[k].jumpToPrev == v[k].jumpToPrev)
  }

  // A label that is due has been given, or is still due.
  ghost predicate Handed(v: Insns, label_: bool, w: Insns, label': bool) {
    |v| <= |w| && (label_ ==> if |v| < |w| then w[|v|].isLabel else label')
  }

  lemma LaterOff(v: Insns, w: Insns, j: int, i: nat)
    requires Later(v, w, j) && i <= |v|
    ensures Off(w, i) == Off(v, i)
  {
    OffSame(v, w, i);
  }

  lemma MeansLater(v: Insns, pool: seq<Constant>, w: Insns, qool: seq<Constant>, j: int, i: nat, ins: Ins)
    requires Later(v, w, j) && i != j && pool <= qool && i < |v| && Means(v, pool, i, ins)
    ensures Means(w, qool, i, ins)
  {
    hide Off;
    if Target(ins).None? {
      MeansPlain(v, pool, i, ins, w, qool, i);
    } else {
      var t := Target(ins).value;
      MeansTarget(v, pool, i, ins);
      LaterOff(v, w, j, i);
      LaterOff(v, w, j, t);
      if IsJump(v[i].code) {
        JumpMeans(w, qool, i, t);
      } else {
        LoopMeans(w, qool, i, t);
      }
    }
  }

  lemma InsnLater(v: Insns, pool: seq<Constant>, label_: bool, w: Insns, qool: seq<Constant>, label': bool, j: int,
      i: nat, ins: Ins)
    requires Later(v, w, j) && Handed(v, label_, w, label') && i != j && pool <= qool && InsnOk(v, pool, label_, i, ins)
    ensures InsnOk(w, qool, label', i, ins)
  {
    hide Means;
    MeansLater(v, pool, w, qool, j, i, ins);
  }

  lemma SegLater(v: Insns, pool: seq<Constant>, label_: bool, w: Insns, qool: seq<Constant>, label': bool, j: int,
      lo: nat, code: seq<Ins>, open: set<nat>)
    requires Later(v, w, j) && Handed(v, label_, w, label') && pool <= qool && !(lo <= j < lo + |code|)
    requires Seg(v, pool, label_, lo, code, open)
    ensures Seg(w, qool, label', lo, code, open)
  {
    hide InsnOk, Later, Handed, OpenJump;
    LaterSize(v, w, j);
    forall k: nat | k < |code|
      ensures if lo + k in open then OpenJump(w, lo + k, code[k]) else InsnOk(w, qool, label', lo + k, code[k])
    {
      if lo + k in open {
        OpenLater(v, w, j, lo + k, code[k]);
      } else {
        InsnLater(v, pool, label_, w, qool, label', j, lo + k, code[k]);
      }
    }
  }

  lemma OpenLater(v: Insns, w: Insns, j: int, i: nat, ins: Ins)
    requires Later(v, w, j) && i != j && OpenJump(v, i, ins)
    ensures OpenJump(w, i, ins)
  {
  }

  lemma LaterSize(v: Insns, w: Insns, j: int)
    requires Later(v, w, j)
    ensures |v| <= |w|
  {
  }

  lemma SegJoin(v: Insns, pool: seq<Constant>, label_: bool, lo: nat, a: seq<Ins>, b: seq<Ins>, open: set<nat>)
    requires Seg(v, pool, label_, lo, a, open) && Seg(v, pool, label_, lo + |a|, b, open)
    ensures Seg(v, pool, label_, lo, a + b, open)
  {
    hide InsnOk, OpenJump;
    forall k: nat | k < |a + b|
      ensures if lo + k in open then OpenJump(v, lo + k, (a + b)[k]) else InsnOk(v, pool, label_, lo + k, (a + b)[k])
    {
      if k >= |a| {
        var m: nat := k - |a|;
        assert lo + |a| + m == lo + k && b[m] == (a + b)[k];
        SegAt(v, pool, label_, lo + |a|, b, open, m);
      } else {
        SegAt(v, pool, label_, lo, a, open, k);
      }
    }
  }

  lemma SegAt(v: Insns, pool: seq<Constant>, label_: bool, lo: nat, code: seq<Ins>, open: set<nat>, k: nat)
    requires Seg(v, pool, label_, lo, code, open) && k < |code|
    ensures if lo + k in open then OpenJump(v, lo + k, code[k]) else InsnOk(v, pool, label_, lo + k, code[k])
  {
  }

  lemma SegOne(v: Insns, pool: seq<Constant>, label_: bool, lo: nat, ins: Ins)
    requires InsnOk(v, pool, label_, lo, ins)
    ensures Seg(v, pool, label_, lo, [ins], {})
  {
  }

  // Open jumps elsewhere make no difference.
  lemma SegOpen(v: Insns, pool: seq<Constant>, label_: bool, lo: nat, code: seq<Ins>, open: set<nat>, more: set<nat>)
    requires Seg(v, pool, label_, lo, code, open)
    requires forall i | lo <= i < lo + |code| :: i in open <==> i in more
    ensures Seg(v, pool, label_, lo, code, more)
  {
  }

  lemma NumsLater(v: Insns, w: Insns, j: int, lo: nat, hi: nat, a: nat, b: nat)
    requires Nums(v, lo, hi, a, b) && Later(v, w, j) && (0 <= j < |v| ==> !v[j].isNumber)
    ensures Nums(w, lo, hi, a, b)
  {
  }

  lemma NumsJoin(v: Insns, lo: nat, mid: nat, hi: nat, a: nat, b: nat, c: nat)
    requires Nums(v, lo, mid, a, b) && Nums(v, mid, hi, b, c) && lo <= mid <= hi && a <= b <= c
    ensures Nums(v, lo, hi, a, c)
  {
  }

  // ---------- emitting a piece of code ----------

  // From d to e the code has been emitted, with some jumps still open; what was there
  // is as it was.
  ghost predicate Emitted(d: Draft, e: Draft, code: seq<Ins>, open: set<nat>) {
    && d.v <= e.v && |e.v| == |d.v| + |code| && d.pool <= e.pool && (forall i | i in open :: |d.v| <= i < |e.v|)
    && Seg(e.v, e.pool, e.label_, |d.v|, code, open) && Nums(e.v, |d.v|, |e.v|, |d.pool|, |e.pool|)
    && StringsOk(e.pool, e.strings) && (if code == [] then e.label_ == d.label_ else d.label_ ==> e.v[|d.v|].isLabel)
  }

  lemma PrefixLater(v: Insns, w: Insns)
    requires v <= w
    ensures Later(v, w, -1)
  {
    assert forall k | 0 <= k < |v| :: w[k] == v[k];
  }

  lemma EmittedNone(d: Draft)
    requires StringsOk(d.pool, d.strings)
    ensures Emitted(d, d, [], {})
  {
  }

  lemma EmittedThen(d: Draft, e: Draft, f: Draft, a: seq<Ins>, b: seq<Ins>, open: set<nat>)
    requires Emitted(d, e, a, open) && Emitted(e, f, b, {})
    ensures Emitted(d, f, a + b, open)
  {
    hide Seg, Nums, Later, StringsOk;
    PrefixLater(e.v, f.v);
    SegLater(e.v, e.pool, e.label_, f.v, f.pool, f.label_, -1, |d.v|, a, open);
    SegOpen(f.v, f.pool, f.label_, |e.v|, b, {}, open);
    SegJoin(f.v, f.pool, f.label_, |d.v|, a, b, open);
    NumsLater(e.v, f.v, -1, |d.v|, |e.v|, |d.pool|, |e.pool|);
    NumsJoin(f.v, |d.v|, |e.v|, |f.v|, |d.pool|, |e.pool|, |f.pool|);
    assert a != [] ==> f.v[|d.v|] == e.v[|d.v|];
  }

  // The draft with one more instruction, which takes the label that is due.
  function Added(d: Draft, code: nat, operands: seq<nat>, isNumber: bool): Draft {
    d.(v := d.v + [Insn(code, operands, isNumber, d.label_, NoLink, NoLink)], label_ := false)
  }

  // An instruction that is no jump, of which the constant is that of a string.
  lemma EmittedPlain(d: Draft, code: nat, operands: seq<nat>, ins: Ins)
    requires StringsOk(d.pool, d.strings) && Target(ins).None? && !IsJump(code) && !IsLoop(code)
    requires |operands| == Written(code) && Decode(code, operands, d.pool, 0) == Some(ins)
    requires UsesPool(Insn(code, operands, false, false, NoLink, NoLink)) ==>
      operands[0] < |d.pool| && d.pool[operands[0]].StringConst?
    ensures Emitted(d, Added(d, code, operands, false), [ins], {})
  {
    var e := Added(d, code, operands, false);
    PlainMeans(e.v, e.pool, |d.v|, ins);
    SegOne(e.v, e.pool, e.label_, |d.v|, ins);
  }

  // A number literal, with a new constant.
  lemma EmittedNumber(d: Draft, r: real)
    requires StringsOk(d.pool, d.strings)
    ensures var c := d.(pool := d.pool + [NumberConst(r)]);
      Emitted(d, Added(c, OP_CONSTANT, [|d.pool|], true), [Push(Num(r))], {})
  {
    var c := d.(pool := d.pool + [NumberConst(r)]);
    var e := Added(c, OP_CONSTANT, [|d.pool|], true);
    PlainMeans(e.v, e.pool, |d.v|, Push(Num(r)));
    SegOne(e.v, e.pool, e.label_, |d.v|, Push(Num(r)));
  }

  // A string made a constant before anything uses it.
  lemma EmittedLater(d: Draft, c: Draft, e: Draft, code: seq<Ins>)
    requires c.v == d.v && c.label_ == d.label_ && d.pool <= c.pool && Emitted(c, e, code, {})
    ensures Emitted(d, e, code, {})
  {
  }

  // ---------- jumps ----------

  // A jump whose operand is to be patched; it may be labelled for a reason of its own.
  function Opened(d: Draft, code: nat, labelled: bool): Draft {
    d.(v := d.v + [Insn(code, [0], false, d.label_ || labelled, NoLink, NoLink)], label_ := false)
  }

  lemma EmittedOpen(d: Draft, e: Draft, a: seq<Ins>, open: set<nat>, code: nat, labelled: bool, t: nat)
    requires Emitted(d, e, a, open) && IsJump(code)
    ensures Emitted(d, Opened(e, code, labelled), a + [JumpIns(code, t)], open + {|e.v|})
  {
    hide Later, StringsOk, InsnOk;
    var f := Opened(e, code, labelled);
    var j, more := |e.v|, open + {|e.v|};
    PrefixLater(e.v, f.v);
    SegLater(e.v, e.pool, e.label_, f.v, f.pool, f.label_, -1, |d.v|, a, open);
    SegOpen(f.v, f.pool, f.label_, |d.v|, a, open, more);
    OneOpen(f.v, f.pool, f.label_, j, JumpIns(code, t), more);
    SegJoin(f.v, f.pool, f.label_, |d.v|, a, [JumpIns(code, t)], more);
    NumsLater(e.v, f.v, -1, |d.v|, |e.v|, |d.pool|, |e.pool|);
    assert a != [] ==> f.v[|d.v|] == e.v[|d.v|];
  }

  lemma OneOpen(v: Insns, pool: seq<Constant>, label_: bool, j: nat, ins: Ins, open: set<nat>)
    requires OpenJump(v, j, ins) && j in open
    ensures Seg(v, pool, label_, j, [ins], open)
  {
  }

  // The words from instruction i to instruction k behind it.
  function Distance(v: Insns, i: nat, k: nat): nat
    requires i <= |v| && k <= |v|
  {
    if Off(v, i) <= Off(v, k) then Off(v, k) - Off(v, i) else 0
  }

  // Patching the jump at j to land behind the last instruction.
  function PatchedNext(d: Draft, j: nat): Draft
    requires j < |d.v|
  {
    var last := |d.v| - 1;
    var operand := Distance(d.v, j, last) + |d.v[last].operands|;
    d.(v := d.v[j := d.v[j].(operands := [operand], jumpToPrev := To(last))], label_ := true)
  }

  // Patching the jump at j to land behind the last instruction, which has no operands
  // and becomes its labelled link.
  function PatchedTail(d: Draft, j: nat): Draft
    requires j < |d.v|
  {
    var last := |d.v| - 1;
    var jump := d.v[j].(operands := [Distance(d.v, j, last)], jumpTo := To(last));
    d.(v := d.v[j := jump][last := d.v[last].(isLabel := true)])
  }

  lemma JumpSpan(v: Insns, j: nat)
    requires j < |v| && |v[j].operands| == 1
    ensures Off(v, |v|) >= Off(v, j) + 2 && Off(v, |v| - 1) + Size(v[|v| - 1]) == Off(v, |v|)
    ensures j < |v| - 1 ==> Off(v, |v| - 1) >= Off(v, j) + 2
  {
    OffMonotone(v, j + 1, |v|);
    if j < |v| - 1 {
      OffMonotone(v, j + 1, |v| - 1);
    }
  }

  // Closing an open jump.
  lemma EmittedClose(d: Draft, e: Draft, f: Draft, code: seq<Ins>, open: set<nat>, j: nat)
    requires Emitted(d, e, code, open) && j in open
    requires f.pool == e.pool && f.strings == e.strings && |f.v| == |e.v| && Later(e.v, f.v, j) && d.v <= f.v
    requires (e.label_ ==> f.label_) && InsnOk(f.v, f.pool, f.label_, j, code[j - |d.v|])
    ensures Emitted(d, f, code, open - {j})
  {
    hide InsnOk, StringsOk, Seg, Later, Nums;
    var k: nat := j - |d.v|;
    SegClose(e.v, e.pool, e.label_, f.v, f.label_, |d.v|, code, open, j, k);
    OpenCode(e.v, e.pool, e.label_, |d.v|, code, open, k);
    NumsLater(e.v, f.v, j, |d.v|, |e.v|, |d.pool|, |e.pool|);
    LabelStays(e.v, f.v, j, |d.v|);
  }

  lemma OpenCode(v: Insns, pool: seq<Constant>, label_: bool, lo: nat, code: seq<Ins>, open: set<nat>, k: nat)
    requires Seg(v, pool, label_, lo, code, open) && k < |code| && lo + k in open
    ensures lo + k < |v| && !v[lo + k].isNumber && IsJump(v[lo + k].code) && |v[lo + k].operands| == 1
    ensures v[lo + k].jumpTo == NoLink && Target(code[k]).Some?
      && code[k] == JumpIns(v[lo + k].code, Target(code[k]).value)
  {
    SegAt(v, pool, label_, lo, code, open, k);
  }

  lemma LabelStays(v: Insns, w: Insns, j: int, i: nat)
    requires Later(v, w, j)
    ensures i < |v| && v[i].isLabel ==> w[i].isLabel
  {
  }

  // One jump of a segment is closed.
  lemma SegClose(v: Insns, pool: seq<Constant>, label_: bool, w: Insns, label': bool, lo: nat, code: seq<Ins>,
      open: set<nat>, j: nat, k: nat)
    requires Seg(v, pool, label_, lo, code, open) && j == lo + k && k < |code| && |w| == |v| && Later(v, w, j)
    requires (label_ ==> label') && InsnOk(w, pool, label', j, code[k])
    ensures Seg(w, pool, label', lo, code, open - {j})
  {
    hide InsnOk, Seg, Later;
    var a, b, rest := code[0..k], code[k + 1..|code|], open - {j};
    assert code == a + [code[k]] + b;
    SegPart(v, pool, label_, lo, code, open, 0, k);
    SegPart(v, pool, label_, lo, code, open, k + 1, |code|);
    SegLater(v, pool, label_, w, pool, label', j, lo, a, open);
    SegLater(v, pool, label_, w, pool, label', j, j + 1, b, open);
    SegOpen(w, pool, label', lo, a, open, rest);
    SegOpen(w, pool, label', j + 1, b, open, rest);
    SegOne(w, pool, label', j, code[k]);
    SegOpen(w, pool, label', j, [code[k]], {}, rest);
    SegJoin(w, pool, label', lo, a, [code[k]], rest);
    SegJoin(w, pool, label', lo, a + [code[k]], b, rest);
  }

  lemma SegPart(v: Insns, pool: seq<Constant>, label_: bool, lo: nat, code: seq<Ins>, open: set<nat>, a: nat, b: nat)
    requires Seg(v, pool, label_, lo, code, open) && a <= b <= |code|
    ensures Seg(v, pool, label_, lo + a, code[a..b], open)
  {
    hide InsnOk, OpenJump;
    forall k: nat | k < b - a
      ensures var i, ins := lo + a + k, code[a..b][k];
        if i in open then OpenJump(v, i, ins) else InsnOk(v, pool, label_, i, ins)
    {
      SegAt(v, pool, label_, lo, code, open, a + k);
    }
  }

  // The list does not end with a value on its way to an operator.
  ghost predicate NoValueEnd(v: Insns) {
    v != [] ==> !IsValueCode(v[|v| - 1].code)
  }

  lemma OpenAt(d: Draft, e: Draft, code: seq<Ins>, open: set<nat>, j: nat)
    requires Emitted(d, e, code, open) && j in open
    ensures |d.v| <= j < |e.v| == |d.v| + |code|
    ensures !e.v[j].isNumber && IsJump(e.v[j].code) && |e.v[j].operands| == 1 && e.v[j].jumpTo == NoLink
    ensures Target(code[j - |d.v|]).Some? && code[j - |d.v|] == JumpIns(e.v[j].code, Target(code[j - |d.v|]).value)
  {
    hide Seg;
    OpenCode(e.v, e.pool, e.label_, |d.v|, code, open, j - |d.v|);
  }

  // A jump patched to land behind all that has been emitted.
  lemma EmittedNext(d: Draft, e: Draft, code: seq<Ins>, open: set<nat>, j: nat)
    requires Emitted(d, e, code, open) && j in open && |d.v| <= j < |e.v| == |d.v| + |code|
    requires Target(code[j - |d.v|]) == Some(|e.v|) && NoValueEnd(e.v)
    ensures Emitted(d, PatchedNext(e, j), code, open - {j})
  {
    hide Seg, Nums, StringsOk, Off, Emitted;
    OpenAt(d, e, code, open, j);
    var f := PatchedNext(e, j);
    EmittedSize(d, e, code, open);
    NextLater(e, j);
    NextOk(e, j);
    assert d.v <= f.v;
    EmittedClose(d, e, f, code, open, j);
  }

  lemma EmittedSize(d: Draft, e: Draft, code: seq<Ins>, open: set<nat>)
    requires Emitted(d, e, code, open)
    ensures d.v <= e.v && |e.v| == |d.v| + |code| && d.pool <= e.pool && StringsOk(e.pool, e.strings)
  {
  }

  lemma NextLater(e: Draft, j: nat)
    requires j < |e.v| && |e.v[j].operands| == 1
    ensures Later(e.v, PatchedNext(e, j).v, j)
  {
    hide Off;
  }

  lemma NextOk(e: Draft, j: nat)
    requires j < |e.v| && |e.v[j].operands| == 1 && !e.v[j].isNumber && IsJump(e.v[j].code) && e.v[j].jumpTo == NoLink
    requires NoValueEnd(e.v)
    ensures var f := PatchedNext(e, j);
      InsnOk(f.v, f.pool, f.label_, j, JumpIns(f.v[j].code, |e.v|)) && f.v[j].code == e.v[j].code
  {
    hide Off, Means;
    var f := PatchedNext(e, j);
    NextLater(e, j);
    JumpSpan(e.v, j);
    LaterOff(e.v, f.v, j, j);
    LaterOff(e.v, f.v, j, |e.v|);
    JumpMeans(f.v, f.pool, j, |e.v|);
  }

  // A jump patched to land behind the operator just emitted.
  lemma EmittedTail(d: Draft, e: Draft, code: seq<Ins>, open: set<nat>, j: nat)
    requires Emitted(d, e, code, open) && j in open && |d.v| <= j < |e.v| - 1 && |e.v| == |d.v| + |code|
    requires Target(code[j - |d.v|]) == Some(|e.v|) && NoValueEnd(e.v) && |e.v[|e.v| - 1].operands| == 0
    ensures Emitted(d, PatchedTail(e, j), code, open - {j})
  {
    hide Seg, Nums, StringsOk, Off, Emitted;
    OpenAt(d, e, code, open, j);
    var f := PatchedTail(e, j);
    EmittedSize(d, e, code, open);
    TailLater(e, j);
    TailOk(e, j);
    assert d.v <= f.v;
    EmittedClose(d, e, f, code, open, j);
  }

  lemma TailLater(e: Draft, j: nat)
    requires j < |e.v| - 1 && |e.v[j].operands| == 1
    ensures Later(e.v, PatchedTail(e, j).v, j)
  {
    hide Off;
  }

  lemma TailOk(e: Draft, j: nat)
    requires j < |e.v| - 1 && |e.v[j].operands| == 1 && !e.v[j].isNumber && IsJump(e.v[j].code)
    requires NoValueEnd(e.v) && |e.v[|e.v| - 1].operands| == 0
    ensures var f := PatchedTail(e, j);
      InsnOk(f.v, f.pool, f.label_, j, JumpIns(f.v[j].code, |e.v|)) && f.v[j].code == e.v[j].code
  {
    hide Off, Means;
    var f, last := PatchedTail(e, j), |e.v| - 1;
    TailLater(e, j);
    JumpSpan(e.v, j);
    LaterOff(e.v, f.v, j, j);
    LaterOff(e.v, f.v, j, last);
    LaterOff(e.v, f.v, j, |e.v|);
    assert Off(f.v, |f.v|) == Off(f.v, last) + 1 by {
      JumpSpan(f.v, j);
    }
    JumpMeans(f.v, f.pool, j, |e.v|);
  }

  // Labels given, and links of what is no jump changed, within what has been emitted.
  lemma EmittedRelinked(d: Draft, e: Draft, f: Draft, code: seq<Ins>, open: set<nat>)
    requires Emitted(d, e, code, open) && |f.v| == |e.v| && Later(e.v, f.v, -1) && d.v <= f.v
    requires f.pool == e.pool && f.strings == e.strings && f.label_ == e.label_
    ensures Emitted(d, f, code, open)
  {
    hide Seg, Nums, StringsOk, Later;
    SegLater(e.v, e.pool, e.label_, f.v, f.pool, f.label_, -1, |d.v|, code, open);
    NumsLater(e.v, f.v, -1, |d.v|, |e.v|, |d.pool|, |e.pool|);
    LabelStays(e.v, f.v, -1, |d.v|);
  }

  // A loop back to the instruction at t.
  function Looped(d: Draft, t: nat): Draft
    requires t < |d.v|
  {
    var v := d.v + [Insn(OP_LOOP, [Distance(d.v, t, |d.v|)], false, d.label_, To(t), NoLink)];
    d.(v := v[t := v[t].(isLabel := true)], label_ := false)
  }

  lemma EmittedLoop(d: Draft, e: Draft, code: seq<Ins>, open: set<nat>, t: nat)
    requires Emitted(d, e, code, open) && |d.v| <= t < |e.v| && (t > 0 ==> !IsValueCode(e.v[t - 1].code))
    ensures Emitted(d, Looped(e, t), code + [Loop(t)], open)
  {
    hide Seg, Nums, StringsOk, Off, InsnOk;
    var f := Looped(e, t);
    LoopLater(e, t);
    SegLater(e.v, e.pool, e.label_, f.v, f.pool, f.label_, -1, |d.v|, code, open);
    SegOne(f.v, f.pool, f.label_, |e.v|, Loop(t));
    SegOpen(f.v, f.pool, f.label_, |e.v|, [Loop(t)], {}, open);
    SegJoin(f.v, f.pool, f.label_, |d.v|, code, [Loop(t)], open);
    NumsLater(e.v, f.v, -1, |d.v|, |e.v|, |d.pool|, |e.pool|);
    NumsOne(f.v, |d.v|, |e.v|, |d.pool|, |e.pool|);
    LabelStays(e.v, f.v, -1, |d.v|);
  }

  lemma NumsOne(v: Insns, lo: nat, hi: nat, a: nat, b: nat)
    requires Nums(v, lo, hi, a, b) && hi < |v| && !v[hi].isNumber
    ensures Nums(v, lo, hi + 1, a, b)
  {
  }

  lemma LoopLater(e: Draft, t: nat)
    requires t < |e.v| && (t > 0 ==> !IsValueCode(e.v[t - 1].code))
    ensures var f := Looped(e, t);
      && Later(e.v, f.v, -1) && Handed(e.v, e.label_, f.v, f.label_) && |f.v| == |e.v| + 1 && !f.v[|e.v|].isNumber
      && InsnOk(f.v, f.pool, f.label_, |e.v|, Loop(t))
      && forall i | 0 <= i < |e.v| && i != t :: f.v[i] == e.v[i]
  {
    hide Off, Means;
    var f := Looped(e, t);
    OffMonotone(e.v, t, |e.v|);
    assert Later(e.v, f.v, -1);
    LaterOff(e.v, f.v, -1, |e.v|);
    LaterOff(e.v, f.v, -1, t);
    LoopMeans(f.v, f.pool, |e.v|, t);
  }

  // ---------- a whole program ----------

  const EMPTY_DRAFT := Draft([], [], map[], false)

  // An instruction all of whose targets are in the list.
  lemma InsnGood(v: Insns, pool: seq<Constant>, i: nat, ins: Ins)
    requires InsnOk(v, pool, false, i, ins) && (Target(ins).Some? ==> Target(ins).value < |v|)
    ensures Means(v, pool, i, ins) && Linked(v, i, ins)
    ensures IsJump(v[i].code) && Recorded(v, i).Some? ==> v[Recorded(v, i).value].isLabel
    ensures IsLoop(v[i].code) && RecordedLoop(v, i).Some? ==> v[RecordedLoop(v, i).value].isLabel
    ensures Target(ins).Some? ==> var t := Target(ins).value; t > 0 ==> !IsValueCode(v[t - 1].code)
  {
    hide Means;
  }

  lemma NumbersGood(v: Insns, pool: seq<Constant>, code: seq<Ins>, b: nat)
    requires Seg(v, pool, false, 0, code, {}) && |v| == |code| && Nums(v, 0, |v|, 0, b)
    ensures OwnNumbers(v, pool)
  {
    hide Means, LinkOk, LandingOk;
    forall i | 0 <= i < |v|
      ensures ConstantOk(v, pool, i)
      ensures v[i].isNumber ==>
        v[i].code == OP_CONSTANT && |v[i].operands| == 1 && v[i].operands[0] < |pool|
          && pool[v[i].operands[0]].NumberConst?
    {
      SegAt(v, pool, false, 0, code, {}, i);
    }
    forall i, j | 0 <= i < |v| && 0 <= j < |v| && i != j && v[i].isNumber && UsesPool(v[j])
      ensures |v[i].operands| == 1 ==> v[i].operands[0] != v[j].operands[0]
    {
      assert ConstantOk(v, pool, i) && ConstantOk(v, pool, j);
      if v[j].isNumber && i < j {
        assert v[i].operands[0] < v[j].operands[0];
      } else if v[j].isNumber {
        assert v[j].operands[0] < v[i].operands[0];
      }
    }
  }

  // A whole program, once its last instruction is there, is in the order the optimizer
  // needs, as long as its words can be addressed.
  lemma ProgramInOrder(e: Draft, code: seq<Ins>)
    requires Emitted(EMPTY_DRAFT, e, code, {})
    ensures var f := Added(e, OP_LEAVE, [], false);
      && AllMean(f.v, f.pool, code + [Leave])
      && (Off(f.v, |f.v|) < WORD_LIMIT ==> InOrder(Listing(f.v, f.pool), code + [Leave]))
  {
    hide Seg, Nums, Off, InsnOk, Labelled, NoTargetAfterValue, OwnNumbers, Means, Linked;
    var f, p := Added(e, OP_LEAVE, [], false), code + [Leave];
    EmittedPlain(e, OP_LEAVE, [], Leave);
    EmittedThen(EMPTY_DRAFT, e, f, code, [Leave], {});
    forall i | 0 <= i < |f.v|
      ensures InsnOk(f.v, f.pool, false, i, p[i]) && (Target(p[i]).Some? ==> Target(p[i]).value < |f.v|)
    {
      SegAt(f.v, f.pool, f.label_, 0, p, {}, i);
      if i < |code| {
        SegAt(e.v, e.pool, e.label_, 0, code, {}, i);
        TargetsInside(e.v, e.pool, e.label_, i, code[i]);
      }
    }
    AllGood(f.v, f.pool, p);
    NumbersGood(f.v, f.pool, p, |f.pool|);
  }

  lemma TargetsInside(v: Insns, pool: seq<Constant>, label_: bool, i: nat, ins: Ins)
    requires InsnOk(v, pool, label_, i, ins)
    ensures Target(ins).Some? ==> Target(ins).value <= |v|
  {
  }

  lemma AllGood(v: Insns, pool: seq<Constant>, p: seq<Ins>)
    requires |p| == |v| && forall i | 0 <= i < |v| ::
      InsnOk(v, pool, false, i, p[i]) && (Target(p[i]).Some? ==> Target(p[i]).value < |v|)
    ensures AllMean(v, pool, p) && (forall i | 0 <= i < |v| :: Linked(v, i, p[i])) && Labelled(v)
      && NoTargetAfterValue(v, p)
  {
    hide InsnOk, Means, Linked;
    forall i | 0 <= i < |v|
      ensures Means(v, pool, i, p[i]) && Linked(v, i, p[i])
      ensures IsJump(v[i].code) && Recorded(v, i).Some? ==> v[Recorded(v, i).value].isLabel
      ensures IsLoop(v[i].code) && RecordedLoop(v, i).Some? ==> v[RecordedLoop(v, i).value].isLabel
      ensures Target(p[i]).Some? ==> var t := Target(p[i]).value; t > 0 ==> !IsValueCode(v[t - 1].code)
    {
      InsnGood(v, pool, i, p[i]);
    }
  }
}
