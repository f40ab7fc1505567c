// Removing an instruction from a list and adding an operand to one, as changes of
// the list: which jump operands are patched, and when every jump still lands on
// the instruction it landed on before.
module Patch {
  import opened Opcodes
  import opened Machine
  import opened Code

  const WORD_LIMIT: nat := 0x1_0000_0000

  // ---------- what an instruction means, without decoding it ----------

  lemma MeansPlain(v: Insns, pool: seq<Constant>, i: nat, ins: Ins, w: Insns, qool: seq<Constant>, j: nat)
    requires i < |v| && Means(v, pool, i, ins) && Target(ins).None?
    requires j < |w| && w[j].code == v[i].code && w[j].operands == v[i].operands && pool <= qool
    ensures Means(w, qool, j, ins)
  {
  }

  lemma MeansNoJump(v: Insns, pool: seq<Constant>, i: nat, ins: Ins)
    requires i < |v| && Means(v, pool, i, ins) && Target(ins).None?
    ensures !IsJump(v[i].code) && !IsLoop(v[i].code)
  {
  }

  // The jump or loop at i, which is ins, lands on t: its operand is the distance.
  ghost predicate LandsOn(v: Insns, i: nat, ins: Ins, t: nat) {
    && i < |v| && t <= |v| && |v[i].operands| == 1 && v[i].operands[0] > 0
    && (IsJump(v[i].code) || IsLoop(v[i].code)) && !(IsJump(v[i].code) && IsLoop(v[i].code))
    && (IsJump(v[i].code) ==>
          i < t && ins == JumpIns(v[i].code, t) && Off(v, t) == Off(v, i) + 1 + v[i].operands[0])
    && (IsLoop(v[i].code) ==>
          t < i && ins == Loop(t) && Off(v, t) + v[i].operands[0] == Off(v, i))
  }

  lemma MeansTarget(v: Insns, pool: seq<Constant>, i: nat, ins: Ins)
    requires i < |v| && Means(v, pool, i, ins) && Target(ins).Some?
    ensures LandsOn(v, i, ins, Target(ins).value)
  {
    var t := Target(ins).value;
    assert Target(Addressed(v, ins)) == Some(Off(v, t));
    if t <= i {
      OffMonotone(v, t, i);
    } else {
      OffMonotone(v, i, t);
    }
  }

  lemma JumpMeans(v: Insns, pool: seq<Constant>, i: nat, t: nat)
    requires i < |v| && IsJump(v[i].code) && |v[i].operands| == 1
    requires t <= |v| && v[i].operands[0] > 0 && Off(v, t) == Off(v, i) + 1 + v[i].operands[0]
    ensures Means(v, pool, i, JumpIns(v[i].code, t))
  {
  }

  lemma LoopMeans(v: Insns, pool: seq<Constant>, i: nat, t: nat)
    requires i < |v| && IsLoop(v[i].code) && |v[i].operands| == 1
    requires t <= |v| && v[i].operands[0] > 0 && Off(v, t) + v[i].operands[0] == Off(v, i)
    ensures Means(v, pool, i, Loop(t))
  {
  }

  // ---------- links ----------

  // The instruction the patcher takes a jump's target to be: its jumpTo, or else the
  // one after its jumpToPrev.  None where the patcher's assertions stop it, or where it
  // would follow a link to a freed instruction.
  function Recorded(v: Insns, i: nat): Option<nat>
    requires i < |v|
  {
    match v[i].jumpTo
    case To(r) => if r < |v| then Some(r) else None
    case Freed => None
    case NoLink =>
      match v[i].jumpToPrev
      case To(p) => if p + 1 < |v| then Some(p + 1) else None
      case _ => None
  }

  // A loop's target is its jumpTo only.
  function RecordedLoop(v: Insns, i: nat): Option<nat>
    requires i < |v|
  {
    match v[i].jumpTo
    case To(r) => if r < |v| then Some(r) else None
    case _ => None
  }

  // The jump or loop at i records instruction k as its target.
  ghost predicate Records(v: Insns, k: nat, i: nat)
    requires i < |v|
  {
    (IsJump(v[i].code) && Recorded(v, i) == Some(k)) || (IsLoop(v[i].code) && RecordedLoop(v, i) == Some(k))
  }

  // The recorded target of a jump is its target, or the last instruction it skips.
  ghost predicate LinkedJump(v: Insns, i: nat, t: nat)
    requires i < |v|
  {
    && Recorded(v, i).Some? && i < Recorded(v, i).value && t < |v|
    && (Recorded(v, i).value == t || (v[i].jumpTo.To? && Recorded(v, i).value + 1 == t))
  }

  ghost predicate Linked(v: Insns, i: nat, ins: Ins)
    requires i < |v|
  {
    && (IsJump(v[i].code) ==> Target(ins).Some? && LinkedJump(v, i, Target(ins).value))
    && (IsLoop(v[i].code) ==> Target(ins).Some? && RecordedLoop(v, i) == Target(ins))
  }

  // A list whose jumps all land where p says, with usable links.
  ghost predicate Linkable(v: Insns, pool: seq<Constant>, p: seq<Ins>) {
    && AllMean(v, pool, p)
    && Off(v, |v|) < WORD_LIMIT
    && forall i | 0 <= i < |v| :: Linked(v, i, p[i])
  }

  // ---------- removing an instruction ----------

  // Patching adds to an unsigned word and stops if the sum is zero.
  function WordPlus(w: nat, d: int): Option<nat> {
    var r := (w + d) % WORD_LIMIT;
    if r == 0 then None else Some(r)
  }

  function NextLink(v: Insns, k: nat): Link {
    if k + 1 < |v| then To(k + 1) else NoLink
  }

  function PatchOperand(i: Insn, d: int): Option<Insn> {
    if |i.operands| != 1 then None else
    match WordPlus(i.operands[0], d)
    case Some(w) => Some(i.(operands := [w]))
    case None => None
  }

  // Instruction i after patching for the removal of instruction k.
  function PatchForRemoval(v: Insns, k: nat, i: nat): Option<Insn>
    requires k < |v| && i < |v|
  {
    if i < k && IsJump(v[i].code) then
      match Recorded(v, i)
      case None => None
      case Some(r) =>
        if r < k then Some(v[i]) else
        PatchOperand(if r == k then v[i].(jumpTo := NextLink(v, k)) else v[i], 0 - Size(v[k]) as int)
    else if i > k && IsLoop(v[i].code) then
      match RecordedLoop(v, i)
      case None => None
      case Some(r) =>
        if r > k then Some(v[i]) else
        PatchOperand(if r == k then v[i].(jumpTo := NextLink(v, k)) else v[i], 0 - Size(v[k]) as int)
    else Some(v[i])
  }

  predicate Removable(v: Insns, k: nat)
    requires k < |v|
  {
    forall i | 0 <= i < |v| && i != k :: PatchForRemoval(v, k, i).Some?
  }

  function ShiftLink(l: Link, k: nat): Link {
    match l
    case To(j) => if j < k then l else if j == k then Freed else To(j - 1)
    case _ => l
  }

  function ShiftLinks(i: Insn, k: nat): Insn {
    i.(jumpTo := ShiftLink(i.jumpTo, k), jumpToPrev := ShiftLink(i.jumpToPrev, k))
  }

  // Old indexes of the instructions that stay, and new indexes of targets.
  function Up(j: nat, k: nat): nat {
    if j < k then j else j + 1
  }

  function Down(t: nat, k: nat): nat {
    if t > k then t - 1 else t
  }

  function Removed(v: Insns, k: nat): (w: Insns)
    requires k < |v| && Removable(v, k)
    ensures |w| == |v| - 1
    ensures forall j | 0 <= j < |w| :: w[j] == ShiftLinks(PatchForRemoval(v, k, Up(j, k)).value, k)
  {
    seq(|v| - 1, j requires 0 <= j < |v| - 1 => ShiftLinks(PatchForRemoval(v, k, Up(j, k)).value, k))
  }

  function RemoveIns(p: seq<Ins>, k: nat): (q: seq<Ins>)
    requires k < |p|
    ensures |q| == |p| - 1
    ensures forall j | 0 <= j < |q| :: q[j] == DownIns(p[Up(j, k)], k)
  {
    seq(|p| - 1, j requires 0 <= j < |p| - 1 => DownIns(p[Up(j, k)], k))
  }

  function DownIns(i: Ins, k: nat): Ins {
    if Target(i).Some? then WithTarget(i, Down(Target(i).value, k)) else i
  }

  lemma RemovedSize(v: Insns, k: nat, j: nat)
    requires k < |v| && Removable(v, k) && j < |v| - 1
    ensures Size(Removed(v, k)[j]) == Size(v[Up(j, k)])
    ensures Removed(v, k)[j].code == v[Up(j, k)].code
  {
    assert Up(j, k) != k;
    assert PatchForRemoval(v, k, Up(j, k)).Some?;
  }

  lemma {:induction false} RemovedOff(v: Insns, k: nat, j: nat)
    requires k < |v| && Removable(v, k) && j <= |v| - 1
    ensures Off(Removed(v, k), j) == if j <= k then Off(v, j) else Off(v, j + 1) - Size(v[k])
    ensures j == k ==> Off(v, j + 1) == Off(v, j) + Size(v[k])
  {
    hide Removed, Removable;
    if j > 0 {
      RemovedOff(v, k, j - 1);
      RemovedSize(v, k, j - 1);
    }
  }

  // The offset of an instruction or target after the removal.
  lemma RemovedAddress(v: Insns, k: nat, t: nat)
    requires k < |v| && Removable(v, k) && t <= |v|
    ensures Off(Removed(v, k), Down(t, k)) == if t <= k then Off(v, t) else Off(v, t) - Size(v[k])
  {
    RemovedOff(v, k, Down(t, k));
  }

  // What stands in the way of removing instruction k: a forward jump to it that
  // records it as the target, a forward jump that knows its target only as the one
  // after k, or a loop that would be left to jump to itself.
  ghost predicate WrongLanding(v: Insns, p: seq<Ins>, k: nat, i: nat)
    requires i < |v| && k < |v| && |p| == |v|
  {
    i < k && IsJump(v[i].code) && Target(p[i]) == Some(k) && Recorded(v, i) == Some(k)
  }

  ghost predicate LosesLink(v: Insns, k: nat, i: nat)
    requires i < |v|
  {
    i < k && IsJump(v[i].code) && v[i].jumpTo.NoLink? && v[i].jumpToPrev == To(k)
  }

  ghost predicate EmptiesLoop(v: Insns, p: seq<Ins>, k: nat, i: nat)
    requires i < |v| && k < |v| && |p| == |v|
  {
    i == k + 1 && IsLoop(v[i].code) && Target(p[i]) == Some(k)
  }

  ghost predicate SafeToRemove(v: Insns, p: seq<Ins>, k: nat)
    requires k < |v| && |p| == |v|
  {
    forall i | 0 <= i < |v| ::
      !WrongLanding(v, p, k, i) && !LosesLink(v, k, i) && !EmptiesLoop(v, p, k, i)
  }

  // Whether the jump or loop at i spans instruction k, so that its operand counts the
  // words of k.
  ghost predicate Spans(v: Insns, p: seq<Ins>, k: nat, i: nat)
    requires i < |v| && i < |p|
  {
    && Target(p[i]).Some?
    && (if IsLoop(v[i].code) then Target(p[i]).value <= k < i else i < k < Target(p[i]).value)
  }

  // Exactly what the patcher does to each instruction: it stops at a loop it would leave
  // empty, and at a jump that wrongly records the removed instruction when nothing would
  // be left of the distance; it changes the operands of the jumps that span the removed
  // instruction and of those that wrongly record it; and no others.
  lemma PatchedIffSpans(v: Insns, pool: seq<Constant>, p: seq<Ins>, k: nat, i: nat)
    requires Linkable(v, pool, p) && k < |v| && i < |v| && i != k
    ensures PatchForRemoval(v, k, i).None? <==>
      || EmptiesLoop(v, p, k, i)
      || (WrongLanding(v, p, k, i) && |v[i].operands| == 1 && v[i].operands[0] == Size(v[k]))
    ensures PatchForRemoval(v, k, i).Some? ==> var w := PatchForRemoval(v, k, i).value;
            && w.code == v[i].code
            && (if Spans(v, p, k, i) || WrongLanding(v, p, k, i)
                then |v[i].operands| == 1 && w.operands == [(v[i].operands[0] - Size(v[k])) % WORD_LIMIT]
                else w.operands == v[i].operands)
  {
    hide Means, Linked, Off, PatchForRemoval;
    if EmptiesLoop(v, p, k, i) {
      EmptyLoopStops(v, pool, p, k, i);
    } else if WrongLanding(v, p, k, i) {
      StraySubtracts(v, pool, p, k, i);
    } else {
      SpanSubtracts(v, pool, p, k, i);
    }
  }

  lemma StraySubtracts(v: Insns, pool: seq<Constant>, p: seq<Ins>, k: nat, i: nat)
    requires Linkable(v, pool, p) && k < |v| && i < |v| && i != k && WrongLanding(v, p, k, i)
    ensures |v[i].operands| == 1 && (PatchForRemoval(v, k, i).None? <==> v[i].operands[0] == Size(v[k]))
    ensures PatchForRemoval(v, k, i).Some? ==> var w := PatchForRemoval(v, k, i).value;
      w.code == v[i].code && w.operands == [(v[i].operands[0] - Size(v[k])) % WORD_LIMIT]
  {
    hide Means, Linked;
    assert Means(v, pool, i, p[i]) && Means(v, pool, k, p[k]);
    MeansTarget(v, pool, i, p[i]);
    OffMonotone(v, k + 1, |v|);
    assert Off(v, k + 1) == Off(v, k) + Size(v[k]);
  }

  lemma SpanSubtracts(v: Insns, pool: seq<Constant>, p: seq<Ins>, k: nat, i: nat)
    requires Linkable(v, pool, p) && k < |v| && i < |v| && i != k
    requires !WrongLanding(v, p, k, i) && !EmptiesLoop(v, p, k, i)
    ensures PatchForRemoval(v, k, i).Some?
    ensures var w := PatchForRemoval(v, k, i).value;
            && w.code == v[i].code
            && (if Spans(v, p, k, i)
                then |v[i].operands| == 1 && w.operands == [(v[i].operands[0] - Size(v[k])) % WORD_LIMIT]
                else w.operands == v[i].operands)
  {
    hide Means, Linked, PatchForRemoval, Off;
    PatchedRight(v, pool, p, k, i);
    if Spans(v, p, k, i) {
      SpanWords(v, pool, p, k, i);
    }
  }

  // A jump that does not wrongly record the removed instruction.
  lemma PatchedRight(v: Insns, pool: seq<Constant>, p: seq<Ins>, k: nat, i: nat)
    requires Linkable(v, pool, p) && k < |v| && i < |v| && i != k
    requires !WrongLanding(v, p, k, i) && !EmptiesLoop(v, p, k, i)
    ensures PatchForRemoval(v, k, i).Some?
    ensures var w := PatchForRemoval(v, k, i).value;
            && w.code == v[i].code && |w.operands| == |v[i].operands|
            && (if Spans(v, p, k, i)
                then |w.operands| == 1 && v[i].operands[0] > Size(v[k])
                     && w.operands[0] == v[i].operands[0] - Size(v[k])
                else w.operands == v[i].operands)
  {
    assert Means(v, pool, i, p[i]) && Linked(v, i, p[i]);
    if Target(p[i]).None? {
      MeansNoJump(v, pool, i, p[i]);
    } else {
      MeansTarget(v, pool, i, p[i]);
      SpanWords(v, pool, p, k, i);
    }
  }

  lemma SpanWords(v: Insns, pool: seq<Constant>, p: seq<Ins>, k: nat, i: nat)
    requires Linkable(v, pool, p) && k < |v| && i < |v| && Target(p[i]).Some?
    requires !EmptiesLoop(v, p, k, i)
    ensures |v[i].operands| == 1 && v[i].operands[0] < WORD_LIMIT
    ensures Spans(v, p, k, i) ==> v[i].operands[0] > Size(v[k])
  {
    hide Means, Linked;
    assert Means(v, pool, i, p[i]);
    MeansTarget(v, pool, i, p[i]);
    var t := Target(p[i]).value;
    OffMonotone(v, i, |v|);
    OffMonotone(v, t, |v|);
    if Spans(v, p, k, i) {
      assert Off(v, k + 1) == Off(v, k) + Size(v[k]);
      if IsLoop(v[i].code) {
        OffMonotone(v, t, k);
        OffMonotone(v, k + 1, i);
      } else {
        assert Off(v, i + 1) == Off(v, i) + Size(v[i]);
        OffMonotone(v, i + 1, k);
        OffMonotone(v, k + 1, t);
      }
    }
  }

  // After the removal, an instruction whose operand was rightly patched still lands
  // where it did; a jump to the removed instruction lands on its successor.
  lemma RemovedMeans(v: Insns, pool: seq<Constant>, p: seq<Ins>, k: nat, i: nat)
    requires Linkable(v, pool, p) && k < |v| && i < |v| && i != k && Removable(v, k)
    requires !WrongLanding(v, p, k, i) && !EmptiesLoop(v, p, k, i)
    ensures Means(Removed(v, k), pool, Down(i, k), DownIns(p[i], k))
  {
    hide Means, Linked, Removed, Removable, PatchForRemoval, Off, Linkable, AllMean, Recorded, RecordedLoop;
    var w, j := Removed(v, k), Down(i, k);
    RemovedAt(v, pool, p, k, i);
    if Target(p[i]).None? {
      MeansPlain(v, pool, i, p[i], w, pool, j);
    } else {
      var t := Target(p[i]).value;
      RemovedAddress(v, k, i);
      RemovedAddress(v, k, t);
      if IsJump(v[i].code) {
        JumpMeans(w, pool, j, Down(t, k));
        DownJump(v[i].code, t, k);
      } else {
        LoopMeans(w, pool, j, Down(t, k));
      }
    }
  }

  lemma DownJump(code: nat, t: nat, k: nat)
    requires IsJump(code)
    ensures DownIns(JumpIns(code, t), k) == JumpIns(code, Down(t, k))
  {
  }

  // Instruction i in its new place.
  lemma RemovedAt(v: Insns, pool: seq<Constant>, p: seq<Ins>, k: nat, i: nat)
    requires Linkable(v, pool, p) && k < |v| && i < |v| && i != k && Removable(v, k)
    requires !WrongLanding(v, p, k, i) && !EmptiesLoop(v, p, k, i)
    ensures i < |p| && Means(v, pool, i, p[i])
    ensures var w := Removed(v, k)[Down(i, k)];
            && w.code == v[i].code
            && (if Spans(v, p, k, i)
                then |w.operands| == 1 == |v[i].operands| && v[i].operands[0] > Size(v[k])
                     && w.operands[0] == v[i].operands[0] - Size(v[k])
                else w.operands == v[i].operands)
    ensures Target(p[i]).Some? ==> LandsOn(v, i, p[i], Target(p[i]).value)
  {
    hide Means, Linked, PatchForRemoval, Off, Removable;
    assert Up(Down(i, k), k) == i;
    PatchedRight(v, pool, p, k, i);
    if Target(p[i]).Some? {
      MeansTarget(v, pool, i, p[i]);
    }
  }

  // ---------- removal keeps the landings and the links ----------

  lemma RemovedLinked(v: Insns, pool: seq<Constant>, p: seq<Ins>, k: nat, i: nat)
    requires Linkable(v, pool, p) && k < |v| && i < |v| && i != k && Removable(v, k)
    requires SafeToRemove(v, p, k) && k + 1 < |v|
    ensures Linked(Removed(v, k), Down(i, k), DownIns(p[i], k))
  {
    hide Means, Off;
    var w, j := Removed(v, k), Down(i, k);
    assert PatchForRemoval(v, k, i).Some?;
    assert Up(j, k) == i && w[j] == ShiftLinks(PatchForRemoval(v, k, i).value, k);
    assert Linked(v, i, p[i]) && Means(v, pool, i, p[i]);
    if Target(p[i]).Some? {
      MeansTarget(v, pool, i, p[i]);
      var t := Target(p[i]).value;
      assert !WrongLanding(v, p, k, i) && !LosesLink(v, k, i);
      if IsJump(v[i].code) {
        assert Recorded(w, j).Some?;
        assert LinkedJump(w, j, Down(t, k));
      } else {
        assert RecordedLoop(w, j) == Some(Down(t, k));
      }
    } else {
      MeansNoJump(v, pool, i, p[i]);
    }
  }

  // The patcher succeeds when nothing stands in the way.
  lemma SafeRemovable(v: Insns, pool: seq<Constant>, p: seq<Ins>, k: nat)
    requires Linkable(v, pool, p) && k < |v| && SafeToRemove(v, p, k)
    ensures Removable(v, k)
  {
    hide Means, Linked, PatchForRemoval, Off;
    forall i | 0 <= i < |v| && i != k ensures PatchForRemoval(v, k, i).Some? {
      PatchedRight(v, pool, p, k, i);
    }
  }

  // Removing an instruction that nothing depends on re-patches the list so that every
  // jump still lands where it did.
  lemma RemoveKeeps(v: Insns, pool: seq<Constant>, p: seq<Ins>, k: nat)
    requires Linkable(v, pool, p) && k + 1 < |v| && SafeToRemove(v, p, k)
    ensures Removable(v, k) && Linkable(Removed(v, k), pool, RemoveIns(p, k))
  {
    hide Means, Linked, PatchForRemoval, Off, Removed, Removable, SafeToRemove, RemoveIns, DownIns;
    SafeRemovable(v, pool, p, k);
    var w, q := Removed(v, k), RemoveIns(p, k);
    RemovedOff(v, k, |w|);
    forall j | 0 <= j < |w| ensures Means(w, pool, j, q[j]) && Linked(w, j, q[j]) {
      RemovedBoth(v, pool, p, k, j);
    }
  }

  lemma RemovedBoth(v: Insns, pool: seq<Constant>, p: seq<Ins>, k: nat, j: nat)
    requires Linkable(v, pool, p) && k + 1 < |v| && Removable(v, k) && SafeToRemove(v, p, k) && j < |v| - 1
    ensures Means(Removed(v, k), pool, j, RemoveIns(p, k)[j])
    ensures Linked(Removed(v, k), j, RemoveIns(p, k)[j])
  {
    hide Means, Linked, PatchForRemoval, Off, Removed, Removable;
    var i := Up(j, k);
    assert Down(i, k) == j;
    RemovedMeans(v, pool, p, k, i);
    RemovedLinked(v, pool, p, k, i);
  }

  // Exactly the wrongly recorded jumps go astray: if the patcher gets through, every
  // jump lands where it should if and only if no forward jump to the removed
  // instruction records it as its target.
  lemma RemoveLandsIff(v: Insns, pool: seq<Constant>, p: seq<Ins>, k: nat)
    requires Linkable(v, pool, p) && k < |v| && Removable(v, k)
    ensures AllMean(Removed(v, k), pool, RemoveIns(p, k))
       <==> forall i | 0 <= i < |v| :: !WrongLanding(v, p, k, i)
  {
    var w, q := Removed(v, k), RemoveIns(p, k);
    hide Means, Linked, PatchForRemoval, Off, Removed;
    if forall i | 0 <= i < |v| :: !WrongLanding(v, p, k, i) {
      forall j | 0 <= j < |w| ensures Means(w, pool, j, q[j]) {
        var i := Up(j, k);
        assert Down(i, k) == j;
        NoEmptyLoop(v, pool, p, k, i);
        RemovedMeans(v, pool, p, k, i);
      }
    } else {
      var i :| 0 <= i < |v| && WrongLanding(v, p, k, i);
      GoesAstray(v, pool, p, k, i);
    }
  }

  // A loop left to jump to itself stops the patcher.
  lemma NoEmptyLoop(v: Insns, pool: seq<Constant>, p: seq<Ins>, k: nat, i: nat)
    requires Linkable(v, pool, p) && k < |v| && i < |v| && i != k && Removable(v, k)
    ensures !EmptiesLoop(v, p, k, i)
  {
    hide PatchForRemoval, Means, Linked, Off;
    assert PatchForRemoval(v, k, i).Some?;
    if EmptiesLoop(v, p, k, i) {
      EmptyLoopStops(v, pool, p, k, i);
    }
  }

  lemma EmptyLoopStops(v: Insns, pool: seq<Constant>, p: seq<Ins>, k: nat, i: nat)
    requires Linkable(v, pool, p) && k < |v| && i < |v| && i != k && EmptiesLoop(v, p, k, i)
    ensures PatchForRemoval(v, k, i).None?
  {
    hide Means, Decode;
    assert Means(v, pool, i, p[i]) && Linked(v, i, p[i]);
    MeansTarget(v, pool, i, p[i]);
    assert Off(v, k + 1) == Off(v, k) + Size(v[k]);
  }

  // A jump that records the removed instruction as its target is patched though its
  // target's address does not change.
  lemma GoesAstray(v: Insns, pool: seq<Constant>, p: seq<Ins>, k: nat, i: nat)
    requires Linkable(v, pool, p) && k < |v| && i < |v| && Removable(v, k) && WrongLanding(v, p, k, i)
    ensures !Means(Removed(v, k), pool, i, RemoveIns(p, k)[i])
  {
    hide Means, Off, Decode;
    var w, q := Removed(v, k), RemoveIns(p, k);
    assert Means(v, pool, i, p[i]) && PatchForRemoval(v, k, i).Some?;
    MeansTarget(v, pool, i, p[i]);
    StrayOperand(v, k, i);
    RemovedOff(v, k, i);
    RemovedOff(v, k, k);
    OffMonotone(v, k + 1, |v|);
    assert Target(q[i]) == Some(k);
    if Means(w, pool, i, q[i]) {
      MeansTarget(w, pool, i, q[i]);
      assert false;
    }
  }

  lemma StrayOperand(v: Insns, k: nat, i: nat)
    requires k < |v| && i < k && Removable(v, k) && IsJump(v[i].code) && |v[i].operands| == 1
    requires Recorded(v, i) == Some(k)
    ensures var w := Removed(v, k)[i];
            && w.code == v[i].code && |w.operands| == 1
            && w.operands[0] == (v[i].operands[0] - Size(v[k])) % WORD_LIMIT
  {
    assert PatchForRemoval(v, k, i).Some? && Up(i, k) == i;
  }

  // ---------- adding an operand to an instruction ----------

  // Instruction i after patching for one more operand of instruction k.
  function PatchForGrowth(v: Insns, k: nat, i: nat): Option<Insn>
    requires k < |v| && i < |v|
  {
    if i < k && IsJump(v[i].code) then
      match Recorded(v, i)
      case None => None
      case Some(r) =>
        if r < k then Some(v[i])
        else PatchOperand(if r == k then v[i].(jumpTo := NextLink(v, k), jumpToPrev := NoLink) else v[i], 1)
    else if i > k && IsLoop(v[i].code) then
      match RecordedLoop(v, i)
      case None => None
      case Some(r) =>
        if r > k then Some(v[i])
        else PatchOperand(if r == k then v[i].(jumpTo := NextLink(v, k)) else v[i], 1)
    else Some(v[i])
  }

  const MAX_OPERANDS := 3

  predicate Growable(v: Insns, k: nat)
    requires k < |v|
  {
    && |v[k].operands| < MAX_OPERANDS
    && forall i | 0 <= i < |v| && i != k :: PatchForGrowth(v, k, i).Some?
  }

  function Grown(v: Insns, k: nat, operand: nat): (w: Insns)
    requires k < |v| && Growable(v, k)
    ensures |w| == |v|
    ensures forall i | 0 <= i < |w| :: w[i] == GrownInsn(v, k, operand, i)
  {
    seq(|v|, i requires 0 <= i < |v| => GrownInsn(v, k, operand, i))
  }

  function GrownInsn(v: Insns, k: nat, operand: nat, i: nat): Insn
    requires k < |v| && i < |v| && Growable(v, k)
  {
    if i == k then v[k].(operands := v[k].operands + [operand]) else PatchForGrowth(v, k, i).value
  }

  lemma GrownSize(v: Insns, k: nat, operand: nat, i: nat)
    requires k < |v| && Growable(v, k) && i < |v|
    ensures Size(Grown(v, k, operand)[i]) == Size(v[i]) + (if i == k then 1 else 0)
    ensures Grown(v, k, operand)[i].code == v[i].code
  {
    if i != k {
      assert PatchForGrowth(v, k, i).Some?;
    }
  }

  lemma {:induction false} GrownOff(v: Insns, k: nat, operand: nat, j: nat)
    requires k < |v| && Growable(v, k) && j <= |v|
    ensures Off(Grown(v, k, operand), j) == Off(v, j) + (if j <= k then 0 else 1)
  {
    hide Grown, Growable;
    if j > 0 {
      GrownOff(v, k, operand, j - 1);
      GrownSize(v, k, operand, j - 1);
    }
  }

  lemma GrowthIffSpans(v: Insns, pool: seq<Constant>, p: seq<Ins>, k: nat, i: nat)
    requires Linkable(v, pool, p) && Off(v, |v|) + 1 < WORD_LIMIT && k < |v| && i < |v| && i != k
    requires !WrongLanding(v, p, k, i)
    ensures PatchForGrowth(v, k, i).Some?
    ensures var w := PatchForGrowth(v, k, i).value;
            && w.code == v[i].code && |w.operands| == |v[i].operands|
            && (if Spans(v, p, k, i)
                then |w.operands| == 1 && w.operands[0] == v[i].operands[0] + 1
                else w.operands == v[i].operands)
  {
    hide Means, Off;
    assert Means(v, pool, i, p[i]) && Linked(v, i, p[i]);
    if Target(p[i]).None? {
      MeansNoJump(v, pool, i, p[i]);
    } else {
      MeansTarget(v, pool, i, p[i]);
      OffMonotone(v, i, |v|);
      OffMonotone(v, Target(p[i]).value, |v|);
    }
  }

  lemma GrownAt(v: Insns, pool: seq<Constant>, p: seq<Ins>, k: nat, operand: nat, i: nat)
    requires Linkable(v, pool, p) && Off(v, |v|) + 1 < WORD_LIMIT && k < |v| && i < |v| && i != k
    requires Growable(v, k) && !WrongLanding(v, p, k, i)
    ensures i < |p| && Means(v, pool, i, p[i])
    ensures var w := Grown(v, k, operand)[i];
            && w.code == v[i].code
            && (if Spans(v, p, k, i)
                then |w.operands| == 1 == |v[i].operands| && w.operands[0] == v[i].operands[0] + 1
                else w.operands == v[i].operands)
    ensures Target(p[i]).Some? ==> LandsOn(v, i, p[i], Target(p[i]).value)
  {
    hide Means, Linked, PatchForGrowth, Off, Growable;
    GrowthIffSpans(v, pool, p, k, i);
    if Target(p[i]).Some? {
      MeansTarget(v, pool, i, p[i]);
    }
  }

  lemma GrownMeans(v: Insns, pool: seq<Constant>, p: seq<Ins>, k: nat, operand: nat, i: nat)
    requires Linkable(v, pool, p) && Off(v, |v|) + 1 < WORD_LIMIT && k < |v| && i < |v| && i != k
    requires Growable(v, k) && !WrongLanding(v, p, k, i)
    ensures Means(Grown(v, k, operand), pool, i, p[i])
  {
    hide Means, Linked, Grown, Growable, PatchForGrowth, Off, Linkable, AllMean, Recorded, RecordedLoop;
    var w := Grown(v, k, operand);
    GrownAt(v, pool, p, k, operand, i);
    if Target(p[i]).None? {
      MeansPlain(v, pool, i, p[i], w, pool, i);
    } else {
      var t := Target(p[i]).value;
      GrownOff(v, k, operand, i);
      GrownOff(v, k, operand, t);
      if IsJump(v[i].code) {
        JumpMeans(w, pool, i, t);
      } else {
        LoopMeans(w, pool, i, t);
      }
    }
  }

  lemma GrownLinked(v: Insns, pool: seq<Constant>, p: seq<Ins>, k: nat, operand: nat, i: nat)
    requires Linkable(v, pool, p) && k < |v| && i < |v| && i != k && Growable(v, k)
    requires !Records(v, k, i)
    ensures Linked(Grown(v, k, operand), i, p[i])
  {
    hide Means, Off;
    var w := Grown(v, k, operand);
    assert PatchForGrowth(v, k, i).Some? && w[i] == PatchForGrowth(v, k, i).value;
    assert Linked(v, i, p[i]) && Means(v, pool, i, p[i]);
    if Target(p[i]).Some? {
      MeansTarget(v, pool, i, p[i]);
      var t := Target(p[i]).value;
      if IsJump(v[i].code) {
        assert Recorded(w, i).Some?;
        assert LinkedJump(w, i, t);
      } else {
        assert RecordedLoop(w, i) == Some(t);
      }
    } else {
      MeansNoJump(v, pool, i, p[i]);
    }
  }

  // Adding an operand to an instruction that no jump records re-patches the list so
  // that every jump still lands where it did, with usable links.
  lemma GrowKeeps(v: Insns, pool: seq<Constant>, p: seq<Ins>, k: nat, operand: nat)
    requires Linkable(v, pool, p) && Off(v, |v|) + 1 < WORD_LIMIT && k < |v|
    requires |v[k].operands| < MAX_OPERANDS && forall i | 0 <= i < |v| :: !Records(v, k, i)
    ensures Growable(v, k) && Off(Grown(v, k, operand), |v|) == Off(v, |v|) + 1
    ensures forall i | 0 <= i < |v| && i != k ::
              Means(Grown(v, k, operand), pool, i, p[i]) && Linked(Grown(v, k, operand), i, p[i])
  {
    hide Means, Linked, PatchForGrowth, Off, Grown;
    forall i | 0 <= i < |v| && i != k ensures PatchForGrowth(v, k, i).Some? {
      assert !Records(v, k, i);
      GrowthIffSpans(v, pool, p, k, i);
    }
    GrownOff(v, k, operand, |v|);
    forall i | 0 <= i < |v| && i != k
      ensures Means(Grown(v, k, operand), pool, i, p[i]) && Linked(Grown(v, k, operand), i, p[i])
    {
      assert !Records(v, k, i);
      GrownMeans(v, pool, p, k, operand, i);
      GrownLinked(v, pool, p, k, operand, i);
    }
  }

  // Exactly the jumps that record the instruction as their target go astray.
  lemma GrowLandsIff(v: Insns, pool: seq<Constant>, p: seq<Ins>, k: nat, operand: nat)
    requires Linkable(v, pool, p) && Off(v, |v|) + 1 < WORD_LIMIT && k < |v| && Growable(v, k)
    ensures (forall i | 0 <= i < |v| && i != k :: Means(Grown(v, k, operand), pool, i, p[i]))
       <==> (forall i | 0 <= i < |v| :: !WrongLanding(v, p, k, i))
  {
    hide Means, Linked, PatchForGrowth, Off, Grown;
    if forall i | 0 <= i < |v| :: !WrongLanding(v, p, k, i) {
      forall i | 0 <= i < |v| && i != k ensures Means(Grown(v, k, operand), pool, i, p[i]) {
        GrownMeans(v, pool, p, k, operand, i);
      }
    } else {
      var i :| 0 <= i < |v| && WrongLanding(v, p, k, i);
      GrowthGoesAstray(v, pool, p, k, operand, i);
    }
  }

  lemma GrowthGoesAstray(v: Insns, pool: seq<Constant>, p: seq<Ins>, k: nat, operand: nat, i: nat)
    requires Linkable(v, pool, p) && Off(v, |v|) + 1 < WORD_LIMIT && k < |v| && i < |v| && Growable(v, k)
    requires WrongLanding(v, p, k, i)
    ensures !Means(Grown(v, k, operand), pool, i, p[i])
  {
    hide Means, Off, Decode;
    var w := Grown(v, k, operand);
    assert Means(v, pool, i, p[i]) && PatchForGrowth(v, k, i).Some?;
    MeansTarget(v, pool, i, p[i]);
    GrownOff(v, k, operand, i);
    GrownOff(v, k, operand, k);
    OffMonotone(v, k, |v|);
    if Means(w, pool, i, p[i]) {
      MeansTarget(w, pool, i, p[i]);
      assert false;
    }
  }
}
