// Walking a chunk with the instruction sizes the disassembler knows.
module Disassembler {
  import opened Opcodes
  import opened Machine
  import opened Code

  const OPCODES := 85

  // The two disassemblers: the one that prints and the one that builds a string.
  datatype Form = Printing | Building

  // The words to step over, or 0 where the walk stops, of any instruction but a closure.
  function PlainStep(form: Form, op: nat): (n: nat)
    ensures n <= 4
  {
    if op >= OPCODES then 0
    else if form.Printing? then PrintStep(op)
    else if op == OP_UNPACK_SET_LOCAL then 3
    else if op in {OP_BREAK, OP_POP_DEBUG} then 0
    else PrintStep(op)
  }

  // The same of the instruction at word i.  A closure is followed by two words for each
  // variable its function captures: funcs says how many that are for each constant, and a
  // constant that is no function stops the walk.
  function StepOf(form: Form, words: seq<nat>, i: nat, funcs: map<nat, nat>): nat
    requires i < |words|
  {
    if words[i] != OP_CLOSURE then PlainStep(form, words[i])
    else if i + 1 < |words| && words[i + 1] in funcs then 2 + 2 * funcs[words[i + 1]]
    else 0
  }

  // The offsets a walk takes to be the starts of instructions, and whether it comes to
  // the end of the words.
  datatype Walked = Walked(starts: seq<nat>, complete: bool)

  function WalkFrom(form: Form, words: seq<nat>, i: nat, funcs: map<nat, nat>): Walked
    decreases |words| - i
  {
    if i >= |words| then Walked([], true)
    else if StepOf(form, words, i, funcs) == 0 then Walked([i], false)
    else
      var rest := WalkFrom(form, words, i + StepOf(form, words, i, funcs), funcs);
      Walked([i] + rest.starts, rest.complete)
  }

  method Walk(form: Form, words: seq<nat>, funcs: map<nat, nat>) returns (w: Walked)
    ensures w == WalkFrom(form, words, 0, funcs)
  {
    var starts: seq<nat>, i: nat := [], 0;
    while i < |words|
      invariant WalkFrom(form, words, 0, funcs) ==
        var rest := WalkFrom(form, words, i, funcs); Walked(starts + rest.starts, rest.complete)
      decreases |words| - i
    {
      var step := StepOf(form, words, i, funcs);
      Regrouped(starts, i, WalkFrom(form, words, i + step, funcs).starts);
      starts := starts + [i];
      if step == 0 {
        return Walked(starts, false);
      }
      i := i + step;
    }
    assert starts + [] == starts;
    return Walked(starts, true);
  }

  lemma Regrouped(a: seq<nat>, i: nat, b: seq<nat>)
    ensures a + ([i] + b) == (a + [i]) + b
  {
  }

  // ---------- the starts that were written ----------

  function Offsets(v: Insns, from: nat): (r: seq<nat>)
    requires from <= |v|
    ensures |r| == |v| - from && forall k | 0 <= k < |r| :: r[k] == Off(v, from + k)
    decreases |v| - from
  {
    if from == |v| then [] else [Off(v, from)] + Offsets(v, from + 1)
  }

  // The captured words of a closure count as its operands.
  predicate Sized(i: Insn, funcs: map<nat, nat>) {
    if i.code == OP_CLOSURE then
      |i.operands| > 0 && i.operands[0] in funcs && |i.operands| == 1 + 2 * funcs[i.operands[0]]
    else WellSized(i)
  }

  // A list of instructions the machine knows.
  ghost predicate Walkable(v: Insns, funcs: map<nat, nat>) {
    forall i | 0 <= i < |v| :: Sized(v[i], funcs) && v[i].code < OPCODES
  }

  // ---------- the words a closure captures ----------

  // The compiler emits captured words as instructions of one word each.
  function Spread(i: Insn): Insns {
    if i.code == OP_CLOSURE && |i.operands| > 0
    then [i.(operands := i.operands[..1])] + Singles(i.operands[1..])
    else [i]
  }

  function Singles(words: seq<nat>): Insns {
    seq(|words|, k requires 0 <= k < |words| => Insn(words[k], [], false, false, NoLink, NoLink))
  }

  function SpreadAll(v: Insns): Insns {
    if v == [] then [] else SpreadAll(v[..|v| - 1]) + Spread(v[|v| - 1])
  }

  lemma FlattenEmpty()
    ensures Flatten([]) == []
  {
  }

  lemma {:induction false} FlattenMore(v: Insns, w: Insns)
    ensures Flatten(v + w) == Flatten(v) + Flatten(w)
    decreases |w|
  {
    hide Flatten;
    if w == [] {
      FlattenEmpty();
      assert v + w == v;
    } else {
      var n := |w| - 1;
      FlattenMore(v, w[..n]);
      FlattenLast(w);
      FlattenLast(v + w);
      assert (v + w)[..|v + w| - 1] == v + w[..n];
    }
  }

  lemma {:induction false} SinglesFlatten(words: seq<nat>)
    ensures Flatten(Singles(words)) == words
    decreases |words|
  {
    if words != [] {
      var n := |words| - 1;
      SinglesFlatten(words[..n]);
      assert Singles(words)[..n] == Singles(words[..n]);
      assert words == words[..n] + [words[n]];
    }
  }

  lemma SpreadWords(i: Insn)
    ensures Flatten(Spread(i)) == Words(i)
  {
    if i.code == OP_CLOSURE && |i.operands| > 0 {
      var first := i.(operands := i.operands[..1]);
      FlattenMore([first], Singles(i.operands[1..]));
      SinglesFlatten(i.operands[1..]);
      assert Flatten([first]) == Flatten([first][..0]) + Words(first);
      assert i.operands == i.operands[..1] + i.operands[1..];
    } else {
      assert Flatten([i]) == Flatten([i][..0]) + Words(i);
    }
  }

  // So the words are the same whether they are counted as operands or not.
  lemma {:induction false} SpreadFlattens(v: Insns)
    ensures Flatten(SpreadAll(v)) == Flatten(v)
    decreases |v|
  {
    if v != [] {
      var n := |v| - 1;
      SpreadFlattens(v[..n]);
      SpreadWords(v[n]);
      FlattenMore(SpreadAll(v[..n]), Spread(v[n]));
    }
  }

  // ---------- walking what was written ----------

  // What the string-building disassembler gets wrong.
  predicate Missized(i: Insn) {
    i.code in {OP_UNPACK_SET_LOCAL, OP_BREAK, OP_POP_DEBUG}
  }

  lemma StartWord(v: Insns, i: nat)
    requires i < |v|
    ensures Off(v, i) < Off(v, i + 1) == Off(v, i) + Size(v[i]) <= |Flatten(v)|
    ensures Flatten(v)[Off(v, i)] == v[i].code && Flatten(v)[Off(v, i) + 1..Off(v, i + 1)] == v[i].operands
  {
    hide Off, Flatten;
    FlattenAt(v, i);
    var a, b := Off(v, i), Off(v, i + 1);
    assert Flatten(v)[a] == Flatten(v)[a..b][0];
    assert Flatten(v)[a + 1..b] == Flatten(v)[a..b][1..];
  }

  lemma OffsetsFirst(v: Insns, from: nat)
    requires from < |v|
    ensures Offsets(v, from) == [Off(v, from)] + Offsets(v, from + 1)
  {
  }

  // The step at the start of an instruction is its size.
  lemma StepSize(form: Form, v: Insns, i: nat, funcs: map<nat, nat>)
    requires Walkable(v, funcs) && i < |v| && (form.Building? ==> !Missized(v[i]))
    ensures Off(v, i) < |Flatten(v)| && StepOf(form, Flatten(v), Off(v, i), funcs) == Size(v[i])
  {
    hide Flatten, PrintStep, Written, Off;
    CountsAgree(v[i].code);
    StartWord(v, i);
    assert Sized(v[i], funcs);
    if v[i].code == OP_CLOSURE {
      var a, b := Off(v, i) + 1, Off(v, i + 1);
      assert Flatten(v)[a..b][0] == Flatten(v)[a];
    }
  }

  lemma {:induction false} WalkFinds(form: Form, v: Insns, from: nat, funcs: map<nat, nat>)
    requires Walkable(v, funcs) && from <= |v|
    requires form.Building? ==> forall i | from <= i < |v| :: !Missized(v[i])
    ensures WalkFrom(form, Flatten(v), Off(v, from), funcs) == Walked(Offsets(v, from), true)
    decreases |v| - from
  {
    hide Flatten, StepOf, Off;
    FlattenLength(v);
    if from < |v| {
      StartWord(v, from);
      StepSize(form, v, from, funcs);
      WalkFinds(form, v, from + 1, funcs);
      OffsetsFirst(v, from);
    }
  }

  // The printing disassembler visits exactly the instruction starts, to the end.
  lemma PrintingWalkFinds(v: Insns, funcs: map<nat, nat>)
    requires Walkable(v, funcs)
    ensures WalkFrom(Printing, Flatten(v), 0, funcs) == Walked(Offsets(v, 0), true)
  {
    WalkFinds(Printing, v, 0, funcs);
  }

  // At an instruction it sizes wrongly or does not know, the string-building one stops or
  // goes on inside the instruction.
  lemma StrayStep(v: Insns, i: nat, funcs: map<nat, nat>)
    requires Walkable(v, funcs) && i < |v| && Missized(v[i])
    ensures Off(v, i) < |Flatten(v)|
    ensures var n := StepOf(Building, Flatten(v), Off(v, i), funcs); n < Size(v[i])
  {
    hide Flatten, Off;
    StartWord(v, i);
    assert Sized(v[i], funcs);
  }

  lemma {:induction false} WalkStrays(v: Insns, from: nat, bad: nat, funcs: map<nat, nat>)
    requires Walkable(v, funcs) && from <= bad < |v| && Missized(v[bad])
    requires forall i | from <= i < bad :: !Missized(v[i])
    ensures WalkFrom(Building, Flatten(v), Off(v, from), funcs) != Walked(Offsets(v, from), true)
    decreases bad - from
  {
    hide Flatten, Off, StepOf;
    FlattenLength(v);
    StartWord(v, from);
    OffsetsFirst(v, from);
    var words, a := Flatten(v), Off(v, from);
    var w := WalkFrom(Building, words, a, funcs);
    if from < bad {
      StepSize(Building, v, from, funcs);
      WalkStrays(v, from + 1, bad, funcs);
      var rest := WalkFrom(Building, words, Off(v, from + 1), funcs);
      assert w == Walked([a] + rest.starts, rest.complete);
      assert w.starts[1..] == rest.starts && ([a] + Offsets(v, from + 1))[1..] == Offsets(v, from + 1);
    } else {
      StrayStep(v, bad, funcs);
      var n := StepOf(Building, words, a, funcs);
      if n > 0 {
        var rest := WalkFrom(Building, words, a + n, funcs);
        assert rest.starts[0] == a + n && w.starts == [a] + rest.starts;
        assert w.starts[1] == a + n;
        if bad + 1 < |v| {
          assert Offsets(v, bad)[1] == Off(v, bad + 1);
        }
      }
    }
  }

  // The string-building disassembler does so exactly when no instruction is one of the
  // three it sizes wrongly or does not know.
  lemma BuildingWalkFindsIff(v: Insns, funcs: map<nat, nat>)
    requires Walkable(v, funcs)
    ensures WalkFrom(Building, Flatten(v), 0, funcs) == Walked(Offsets(v, 0), true)
       <==> forall i | 0 <= i < |v| :: !Missized(v[i])
  {
    if forall i | 0 <= i < |v| :: !Missized(v[i]) {
      WalkFinds(Building, v, 0, funcs);
    } else {
      var bad :| 0 <= bad < |v| && Missized(v[bad]);
      var first := FirstMissized(v, bad);
      WalkStrays(v, 0, first, funcs);
    }
  }

  lemma {:induction false} FirstMissized(v: Insns, bad: nat) returns (first: nat)
    requires bad < |v| && Missized(v[bad])
    ensures first <= bad && Missized(v[first]) && forall i | 0 <= i < first :: !Missized(v[i])
    decreases bad
  {
    if i :| 0 <= i < bad && Missized(v[i]) {
      first := FirstMissized(v, i);
    } else {
      first := bad;
    }
  }

  // ---------- the words determine the instructions ----------

  datatype Plain = Plain(code: nat, operands: seq<nat>)

  function PlainInsns(v: Insns): (r: seq<Plain>)
    ensures |r| == |v| && forall k | 0 <= k < |r| :: r[k] == Plain(v[k].code, v[k].operands)
  {
    seq(|v|, k requires 0 <= k < |v| => Plain(v[k].code, v[k].operands))
  }

  // The instructions read off the words at the starts that a walk found.
  function ReadOff(words: seq<nat>, starts: seq<nat>): seq<Plain> {
    if starts == [] then []
    else
      var a := starts[0];
      var b := if |starts| > 1 then starts[1] else |words|;
      (if a < b <= |words| then [Plain(words[a], words[a + 1..b])] else []) + ReadOff(words, starts[1..])
  }

  lemma ReadOffFirst(words: seq<nat>, a: nat, b: nat, starts: seq<nat>)
    requires a < b <= |words| && b == if starts != [] then starts[0] else |words|
    ensures ReadOff(words, [a] + starts) == [Plain(words[a], words[a + 1..b])] + ReadOff(words, starts)
  {
    assert ([a] + starts)[1..] == starts;
  }

  lemma PlainFirst(v: Insns, from: nat)
    requires from < |v|
    ensures PlainInsns(v)[from..] == [Plain(v[from].code, v[from].operands)] + PlainInsns(v)[from + 1..]
  {
  }

  lemma {:induction false} ReadOffFinds(v: Insns, from: nat)
    requires from <= |v|
    ensures ReadOff(Flatten(v), Offsets(v, from)) == PlainInsns(v)[from..]
    decreases |v| - from
  {
    hide Flatten, Off, ReadOff, PlainInsns;
    FlattenLength(v);
    if from < |v| {
      StartWord(v, from);
      OffsetsFirst(v, from);
      ReadOffFinds(v, from + 1);
      PlainFirst(v, from);
      ReadOffFirst(Flatten(v), Off(v, from), Off(v, from + 1), Offsets(v, from + 1));
    } else {
      ReadOffNone(Flatten(v));
    }
  }

  lemma ReadOffNone(words: seq<nat>)
    ensures ReadOff(words, []) == []
  {
  }

  // Walking the flattened chunk recovers the instructions.
  lemma WalkRecovers(v: Insns, funcs: map<nat, nat>)
    requires Walkable(v, funcs)
    ensures ReadOff(Flatten(v), WalkFrom(Printing, Flatten(v), 0, funcs).starts) == PlainInsns(v)
  {
    PrintingWalkFinds(v, funcs);
    ReadOffFinds(v, 0);
    assert PlainInsns(v)[0..] == PlainInsns(v);
  }

  // So no two lists of instructions flatten to the same words.
  lemma FlattenInjective(v: Insns, w: Insns, funcs: map<nat, nat>)
    requires Walkable(v, funcs) && Walkable(w, funcs) && Flatten(v) == Flatten(w)
    ensures PlainInsns(v) == PlainInsns(w)
  {
    WalkRecovers(v, funcs);
    WalkRecovers(w, funcs);
  }
}
