// Offsets in the instruction list, and flattening the list into a chunk of words.
module Chunks {
  import opened Opcodes
  import opened Machine
  import opened Code
  import opened Simplify
  import opened Optimizer
  import opened OptimizerRuns
  import opened Iseqs
  import opened IseqOptimizer
  import opened Tables

  // The instruction that starts at a word offset, or null where none does.
  method InsnAtOffset(iseq: Iseq, wordOffset: int) returns (r: Node?)
    requires iseq.Valid()
    ensures |iseq.view| == |iseq.nodes|
    ensures forall k | 0 <= k < |iseq.view| && Off(iseq.view, k) == wordOffset :: r == iseq.nodes[k]
    ensures r != null ==> r in iseq.nodes && Off(iseq.view, IndexOf(iseq.nodes, r)) == wordOffset
  {
    hide Showing, Chained, Distinct;
    ViewSize(iseq.nodes, iseq.view);
    var cur := iseq.insns;
    var i := 0;
    ghost var at := 0;
    while cur != null && i < wordOffset
      invariant at <= |iseq.nodes| && cur == NodeAt(iseq.nodes, at) && i == Off(iseq.view, at)
      invariant forall k | 0 <= k < at :: Off(iseq.view, k) < wordOffset
      decreases |iseq.nodes| - at
    {
      AtNode(iseq, at);
      i := i + |cur.operands| + 1;
      cur := cur.next;
      at := at + 1;
    }
    forall k | 0 <= k < |iseq.view| && Off(iseq.view, k) == wordOffset ensures k == at && i == wordOffset {
      if at < k {
        OffMonotone(iseq.view, at, k);
      }
    }
    if i == wordOffset {
      if at < |iseq.nodes| {
        AtNode(iseq, at);
      }
      return cur;
    }
    return null;
  }

  // The words from one instruction to another behind it, or -1 if it is not behind it.
  method InsnOffset(iseq: Iseq, start: Node, end: Node, ghost a: nat, ghost b: nat) returns (offset: int)
    requires iseq.Valid() && a < |iseq.nodes| && b < |iseq.nodes| && iseq.nodes[a] == start && iseq.nodes[b] == end
    ensures |iseq.view| == |iseq.nodes|
    ensures offset == if a <= b then Off(iseq.view, b) - Off(iseq.view, a) else -1
  {
    hide Showing, Chained, Distinct;
    ViewSize(iseq.nodes, iseq.view);
    AtNode(iseq, b);
    offset := 0;
    var cur: Node? := start;
    ghost var at := a;
    while cur != null && cur != end
      invariant a <= at <= |iseq.nodes| && cur == NodeAt(iseq.nodes, at)
      invariant offset == Off(iseq.view, at) - Off(iseq.view, a)
      invariant a <= b ==> at <= b
      decreases |iseq.nodes| - at
    {
      AtNode(iseq, at);
      offset := offset + |cur.operands| + 1;
      cur := cur.next;
      at := at + 1;
    }
    if at < |iseq.nodes| {
      AtNode(iseq, at);
    }
    if cur != end {
      return -1;
    }
  }

  class Chunk {
    var code: array<nat>
    var count: nat

    ghost predicate Valid()
      reads this, code
    {
      count <= code.Length && (code.Length == 0 || PowerOfTwo(code.Length))
    }

    ghost function Contents(): seq<nat>
      reads this, code
      requires Valid()
    {
      code[..count]
    }

    constructor ()
      ensures Valid() && Contents() == [] && fresh(code)
    {
      code := new nat[0];
      count := 0;
    }

    // Appends a word; a full chunk doubles, and starts with eight words.
    method WriteWord(word: nat)
      requires Valid()
      modifies this, code
      ensures Valid() && Contents() == old(Contents()) + [word]
      ensures code == old(code) || fresh(code)
      ensures code.Length == if old(count) < old(code.Length) then old(code.Length)
        else if old(code.Length) < 8 then 8 else 2 * old(code.Length)
    {
      if count == code.Length {
        var capacity := GrowCapacity(code.Length);
        var grown := new nat[capacity](_ => 0);
        for i := 0 to count
          invariant count == old(count) && code == old(code) && count <= grown.Length
          invariant grown[..i] == code[..i] && unchanged(code)
        {
          grown[i] := code[i];
        }
        code := grown;
      }
      code[count] := word;
      count := count + 1;
    }
  }

  lemma FlattenNext(v: Insns, i: nat)
    requires i < |v|
    ensures Flatten(v[..i + 1]) == Flatten(v[..i]) + Words(v[i])
  {
    assert v[..i + 1][..i] == v[..i];
  }

  lemma WordsAfter(base: seq<nat>, before: seq<nat>, i: Insn)
    ensures base + before + [i.code] + i.operands == base + (before + Words(i))
  {
  }

  // Writes the words of one instruction.
  method WriteInsn(chunk: Chunk, n: Node)
    requires chunk.Valid()
    modifies chunk, chunk.code
    ensures chunk.Valid() && (chunk.code == old(chunk.code) || fresh(chunk.code))
    ensures chunk.Contents() == old(chunk.Contents()) + [n.code] + n.operands
  {
    chunk.WriteWord(n.code);
    ghost var base := chunk.Contents();
    for i := 0 to |n.operands|
      invariant chunk.Valid() && (chunk.code == old(chunk.code) || fresh(chunk.code))
      invariant chunk.Contents() == base + n.operands[..i]
    {
      chunk.WriteWord(n.operands[i]);
      assert n.operands[..i + 1] == n.operands[..i] + [n.operands[i]];
    }
    assert n.operands[..|n.operands|] == n.operands;
  }

  // Writes the words of every instruction in turn.
  method WriteInsns(iseq: Iseq, chunk: Chunk)
    requires iseq.Valid() && chunk.Valid()
    modifies chunk, chunk.code
    ensures chunk.Valid() && (chunk.code == old(chunk.code) || fresh(chunk.code))
    ensures chunk.Contents() == old(chunk.Contents()) + Flatten(iseq.view)
  {
    hide Showing, Chained, Distinct, Flatten, Words;
    ViewSize(iseq.nodes, iseq.view);
    var n := iseq.insns;
    ghost var at := 0;
    ghost var base := chunk.Contents();
    FlattenNone(iseq.view);
    while n != null
      invariant at <= |iseq.nodes| && n == NodeAt(iseq.nodes, at)
      invariant chunk.Valid() && (chunk.code == old(chunk.code) || fresh(chunk.code))
      invariant chunk.Contents() == base + Flatten(iseq.view[..at])
      decreases |iseq.nodes| - at
    {
      AtNode(iseq, at);
      FlattenNext(iseq.view, at);
      WordsAfter(base, Flatten(iseq.view[..at]), iseq.view[at]);
      WriteInsn(chunk, n);
      n := n.next;
      at := at + 1;
    }
    assert iseq.view[..at] == iseq.view;
  }

  lemma FlattenNone(v: Insns)
    ensures v[..0] == [] && Flatten(v[..0]) == []
  {
  }

  // Optimizes the list, unless asked not to, and flattens what that leaves.
  method CopyIseqToChunk(iseq: Iseq, chunk: Chunk, noOptimize: bool, noRemoveUnusedExpressions: bool)
    returns (finished: bool, ghost trace: seq<Action>)
    requires iseq.Valid() && chunk.Valid()
    modifies iseq, iseq.nodes, chunk, chunk.code
    ensures finished ==> iseq.Valid() && chunk.Valid() && Leads(old(Now(iseq)), trace, Now(iseq))
    ensures finished ==> chunk.Contents() == old(chunk.Contents()) + Flatten(iseq.view)
    ensures noOptimize ==> finished && trace == []
    ensures !noOptimize ==> (finished <==> Optimized(old(Now(iseq)), 0, [], noRemoveUnusedExpressions).Finished?)
    ensures !noOptimize && finished ==>
      Optimized(old(Now(iseq)), 0, [], noRemoveUnusedExpressions) == Finished(Now(iseq), trace)
  {
    hide Showing, Chained, Distinct, Flatten, Leads, Optimized;
    finished, trace := true, [];
    NoSteps(Now(iseq));
    if !noOptimize {
      finished, trace := OptimizeIseq(iseq, noRemoveUnusedExpressions);
    }
    if finished {
      WriteInsns(iseq, chunk);
    }
  }
}
