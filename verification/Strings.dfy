// Splitting a string at a pattern and joining strings with one.
module Strings {

  // ---------- searching ----------

  predicate MatchAt(s: string, p: string, i: nat) {
    i + |p| <= |s| && s[i..i + |p|] == p
  }

  // The first match at or after a position, or -1.
  function Find(s: string, p: string, from: nat): (r: int)
    ensures r == -1 || (from <= r && MatchAt(s, p, r))
    ensures forall i: nat | from <= i && (r == -1 || i < r) :: !MatchAt(s, p, i)
    decreases |s| - from
  {
    if from + |p| > |s| then -1
    else if MatchAt(s, p, from) then from
    else Find(s, p, from + 1)
  }

  method StrStr(s: string, p: string, from: nat) returns (r: int)
    ensures r == Find(s, p, from)
  {
    var i := from;
    while i + |p| <= |s|
      invariant from <= i && Find(s, p, from) == Find(s, p, i)
      decreases |s| - i
    {
      if s[i..i + |p|] == p {
        return i;
      }
      i := i + 1;
    }
    return -1;
  }

  // ---------- split ----------

  // The pieces of s from a position on: up to each match in turn, and what remains if
  // anything does.
  function Parts(s: string, p: string, from: nat): seq<string>
    requires p != "" && from <= |s|
    decreases |s| - from
  {
    if from == |s| then []
    else
      var i := Find(s, p, from);
      if i == -1 then [s[from..]] else [s[from..i]] + Parts(s, p, i + |p|)
  }

  lemma PartsStep(s: string, p: string, from: nat)
    requires p != "" && from <= |s|
    ensures var i := Find(s, p, from);
      && (i != -1 ==> i + |p| <= |s| && from < |s|)
      && Parts(s, p, from) ==
           if from == |s| then [] else if i == -1 then [s[from..]] else [s[from..i]] + Parts(s, p, i + |p|)
  {
  }

  lemma Regroup<T>(a: seq<T>, b: seq<T>, c: seq<T>)
    ensures a + (b + c) == (a + b) + c
  {
  }

  // The matches that splitting uses: each the first after the end of the one before.
  function Matches(s: string, p: string, from: nat): seq<nat>
    requires p != "" && from <= |s|
    decreases |s| - from
  {
    var i := Find(s, p, from);
    if i == -1 then [] else [i] + Matches(s, p, i + |p|)
  }

  // The last of them ends where the string ends.
  predicate EndsFlush(s: string, p: string)
    requires p != ""
  {
    var m := Matches(s, p, 0);
    m != [] && m[|m| - 1] + |p| == |s|
  }

  // Where the loop is and what it has pushed.
  datatype Cursor = Cursor(hay: nat, parts: seq<string>)

  // The loop goes round again.
  predicate Searching(s: string, p: string, c: Cursor) {
    c.hay < |s| && Find(s, p, c.hay) != -1
  }

  // The loop after so many rounds, if it gets that far, whatever the pattern.
  function Rounds(s: string, p: string, n: nat): Cursor {
    if n == 0 then Cursor(0, [])
    else
      var c := Rounds(s, p, n - 1);
      if !Searching(s, p, c) then c
      else
        var i := Find(s, p, c.hay);
        Cursor(i + |p|, c.parts + [s[c.hay..i]])
  }

  // Unless the pattern is empty and the string is not, the loop comes to an end.
  method Split(s: string, p: string) returns (parts: seq<string>, ghost rounds: nat)
    requires p != "" || s == ""
    ensures p != "" ==> parts == Parts(s, p, 0)
    ensures s == "" ==> parts == []
    ensures var c := Rounds(s, p, rounds);
      && !Searching(s, p, c) && c.hay <= |s|
      && parts == if c.hay == |s| then c.parts else c.parts + [s[c.hay..]]
  {
    hide Parts, Find, MatchAt;
    parts, rounds := [], 0;
    var hay := 0;
    var searching := true;
    while hay < |s| && searching
      invariant hay <= |s| && Rounds(s, p, rounds) == Cursor(hay, parts)
      invariant p != "" ==> Parts(s, p, 0) == parts + Parts(s, p, hay)
      invariant !searching ==> hay < |s| && Find(s, p, hay) == -1
      invariant s == "" ==> parts == []
      decreases |s| - hay, searching
    {
      var res := StrStr(s, p, hay);
      PartsStep(s, p, hay);
      if res == -1 {
        searching := false;
      } else {
        Regroup(parts, [s[hay..res]], Parts(s, p, res + |p|));
        parts := parts + [s[hay..res]];
        hay := res + |p|;
        rounds := rounds + 1;
      }
    }
    if p != "" {
      PartsStep(s, p, hay);
    }
    if hay != |s| {
      parts := parts + [s[hay..]];
    }
  }

  // ---------- join ----------

  function Join(parts: seq<string>, sep: string): string {
    if parts == [] then ""
    else if |parts| == 1 then parts[0]
    else parts[0] + sep + Join(parts[1..], sep)
  }

  lemma {:induction false} JoinMore(parts: seq<string>, sep: string, part: string)
    requires parts != []
    ensures Join(parts + [part], sep) == Join(parts, sep) + sep + part
  {
    var all := parts + [part];
    if |parts| > 1 {
      JoinMore(parts[1..], sep, part);
      assert all[1..] == parts[1..] + [part];
      assert Join(all, sep) == parts[0] + sep + (Join(parts[1..], sep) + sep + part);
    } else {
      assert all[1..] == [part] && Join(all[1..], sep) == part;
    }
  }

  method JoinAll(parts: seq<string>, sep: string) returns (buf: string)
    ensures buf == Join(parts, sep)
  {
    buf := "";
    for i := 0 to |parts|
      invariant buf == Join(parts[..i], sep) + if 0 < i < |parts| then sep else ""
    {
      assert parts[..i + 1] == parts[..i] + [parts[i]];
      if i > 0 {
        JoinMore(parts[..i], sep, parts[i]);
      }
      buf := buf + parts[i];
      if i + 1 < |parts| {
        buf := buf + sep;
      }
    }
    assert parts[..|parts|] == parts;
  }

  // ---------- the round trip ----------

  lemma JoinFirst(first: string, rest: seq<string>, sep: string)
    ensures Join([first] + rest, sep) == if rest == [] then first else first + sep + Join(rest, sep)
  {
    assert ([first] + rest)[1..] == rest;
  }

  lemma SliceMatch(s: string, p: string, from: nat, i: nat)
    requires MatchAt(s, p, i) && from <= i
    ensures s[from..] == s[from..i] + p + s[i + |p|..]
  {
  }

  function Trailing(s: string, p: string, from: nat): string
    requires p != "" && from <= |s|
  {
    var m := Matches(s, p, from);
    if m != [] && m[|m| - 1] + |p| == |s| then p else ""
  }

  lemma MatchesStep(s: string, p: string, from: nat)
    requires p != "" && from <= |s|
    ensures var i := Find(s, p, from);
      && (i == -1 ==> Matches(s, p, from) == [])
      && (i != -1 ==> i + |p| <= |s| && Matches(s, p, from) == [i] + Matches(s, p, i + |p|))
  {
  }

  lemma NoMatchAtEnd(s: string, p: string)
    requires p != ""
    ensures Matches(s, p, |s|) == []
  {
  }

  lemma TrailingStep(s: string, p: string, from: nat)
    requires p != "" && from <= |s|
    ensures var i := Find(s, p, from);
      Trailing(s, p, from) == if i == -1 then "" else if i + |p| == |s| then p else Trailing(s, p, i + |p|)
  {
    hide Matches, Find, MatchAt;
    var i := Find(s, p, from);
    MatchesStep(s, p, from);
    if i != -1 {
      var m := Matches(s, p, i + |p|);
      if i + |p| == |s| {
        NoMatchAtEnd(s, p);
      }
    }
  }

  lemma {:induction false} JoinPartsFrom(s: string, p: string, from: nat)
    requires p != "" && from <= |s|
    ensures Join(Parts(s, p, from), p) + Trailing(s, p, from) == s[from..]
    decreases |s| - from
  {
    hide Trailing, Matches, Join, MatchAt, Parts, Find;
    var i := Find(s, p, from);
    TrailingStep(s, p, from);
    PartsStep(s, p, from);
    if from == |s| || i == -1 {
      JoinNone(s[from..], p);
    } else {
      var next := i + |p|;
      var rest := Parts(s, p, next);
      SliceMatch(s, p, from, i);
      JoinFirst(s[from..i], rest, p);
      JoinPartsFrom(s, p, next);
      if rest == [] {
        PartsStep(s, p, next);
        assert s[next..] == "";
      } else {
        PartsStep(s, p, next);
        Regroup(s[from..i] + p, Join(rest, p), Trailing(s, p, next));
      }
    }
  }

  lemma JoinNone(only: string, sep: string)
    ensures Join([], sep) == "" && Join([only], sep) == only
  {
  }

  // Splitting at a pattern and joining with it gives the string back, except that one
  // pattern at the very end is lost; so it does exactly when the last match does not end
  // where the string ends.
  lemma SplitThenJoin(s: string, p: string)
    requires p != ""
    ensures s == Join(Parts(s, p, 0), p) + if EndsFlush(s, p) then p else ""
    ensures Join(Parts(s, p, 0), p) == s <==> !EndsFlush(s, p)
  {
    JoinPartsFrom(s, p, 0);
    assert s[0..] == s;
    assert Trailing(s, p, 0) == if EndsFlush(s, p) then p else "";
  }

  // A trailing pattern is lost.
  lemma TrailingLost()
    ensures EndsFlush("a,", ",") && Join(Parts("a,", ",", 0), ",") != "a,"
  {
    var s, p := "a,", ",";
    assert s[0..1][0] == 'a' && p[0] == ',' && s[1..2] == p;
    assert MatchAt(s, p, 1) && !MatchAt(s, p, 0);
    assert Find(s, p, 0) == 1 && Find(s, p, 2) == -1;
    assert Matches(s, p, 2) == [] && Matches(s, p, 0) == [1] + [];
    SplitThenJoin(s, p);
  }

  lemma EmptyFound(s: string, from: nat)
    requires from <= |s|
    ensures Find(s, "", from) == from
  {
    assert s[from..from] == "";
  }

  // With an empty pattern the loop never comes to an end: after any number of rounds it is
  // where it started, has pushed as many empty pieces, and goes round again.
  lemma {:induction false} EmptyPatternStalls(s: string, n: nat)
    requires s != ""
    ensures var c := Rounds(s, "", n);
      c.hay == 0 && |c.parts| == n && (forall i | 0 <= i < n :: c.parts[i] == "") && Searching(s, "", c)
  {
    EmptyFound(s, 0);
    if n > 0 {
      EmptyPatternStalls(s, n - 1);
    }
  }

  // No piece holds the pattern.
  lemma {:induction false} PartsWithout(s: string, p: string, from: nat)
    requires p != "" && from <= |s|
    ensures forall part, i: nat | part in Parts(s, p, from) :: !MatchAt(part, p, i)
    decreases |s| - from
  {
    if from < |s| {
      var i := Find(s, p, from);
      var first := if i == -1 then s[from..] else s[from..i];
      if i != -1 {
        PartsWithout(s, p, i + |p|);
      }
      forall k: nat ensures !MatchAt(first, p, k) {
        if MatchAt(first, p, k) {
          assert s[from + k..from + k + |p|] == first[k..k + |p|];
          assert MatchAt(s, p, from + k);
        }
      }
    }
  }

  predicate Shares(part: string, p: string) {
    exists c :: c in part && c in p
  }

  lemma NoMatch(s: string, p: string, part: string, i: nat)
    requires p != "" && !Shares(part, p) && i < |s| && s[i] in part
    ensures !MatchAt(s, p, i)
  {
    assert p[0] in p && s[i] != p[0];
    if i + |p| <= |s| {
      assert s[i..i + |p|][0] == s[i];
    }
  }

  lemma {:induction false} FindFirst(part: string, p: string, rest: string, from: nat)
    requires p != "" && !Shares(part, p) && from <= |part|
    ensures Find(part + p + rest, p, from) == |part|
    decreases |part| - from
  {
    var s := part + p + rest;
    if from < |part| {
      NoMatch(s, p, part, from);
      FindFirst(part, p, rest, from + 1);
    } else {
      assert s[|part|..|part| + |p|] == p;
    }
  }

  lemma {:induction false} FindNone(part: string, p: string, from: nat)
    requires p != "" && !Shares(part, p)
    ensures Find(part, p, from) == -1
    decreases |part| - from
  {
    if from + |p| <= |part| {
      NoMatch(part, p, part, from);
      FindNone(part, p, from + 1);
    }
  }

  lemma {:induction false} FindShift(a: string, s: string, p: string, from: nat)
    ensures Find(a + s, p, |a| + from) == if Find(s, p, from) == -1 then -1 else |a| + Find(s, p, from)
    decreases |s| - from
  {
    if from + |p| <= |s| {
      assert (a + s)[|a| + from..|a| + from + |p|] == s[from..from + |p|];
      FindShift(a, s, p, from + 1);
    }
  }

  lemma {:induction false} PartsShift(a: string, s: string, p: string, from: nat)
    requires p != "" && from <= |s|
    ensures Parts(a + s, p, |a| + from) == Parts(s, p, from)
    decreases |s| - from
  {
    hide MatchAt, Parts, Find;
    FindShift(a, s, p, from);
    var i, t := Find(s, p, from), a + s;
    PartsStep(s, p, from);
    PartsStep(t, p, |a| + from);
    if i != -1 {
      PartsShift(a, s, p, i + |p|);
      ShiftSlice(a, s, from, i);
    } else {
      ShiftSlice(a, s, from, |s|);
    }
  }

  lemma ShiftSlice(a: string, s: string, from: nat, to: nat)
    requires from <= to <= |s|
    ensures (a + s)[|a| + from..|a| + to] == s[from..to]
    ensures (a + s)[|a| + from..] == s[from..]
  {
  }

  // Joining pieces that share no character with the separator, the last of them not
  // empty, and splitting again gives the pieces back.
  lemma {:induction false} JoinThenSplit(parts: seq<string>, p: string)
    requires p != "" && (forall part | part in parts :: !Shares(part, p))
    requires parts != [] ==> parts[|parts| - 1] != ""
    ensures Parts(Join(parts, p), p, 0) == parts
  {
    hide Shares, Find, MatchAt, Parts, Join;
    if parts == [] {
      JoinNone("", p);
      PartsStep("", p, 0);
    } else if |parts| == 1 {
      assert parts == [parts[0]];
      JoinOne(parts[0], p);
    } else {
      var first, rest := parts[0], Join(parts[1..], p);
      assert parts == [first] + parts[1..];
      assert forall part | part in parts[1..] :: part in parts;
      JoinFirst(first, parts[1..], p);
      JoinThenSplit(parts[1..], p);
      SplitFirst(first, p, rest);
    }
  }

  lemma JoinOne(only: string, p: string)
    requires p != "" && !Shares(only, p) && only != ""
    ensures Join([only], p) == only && Parts(only, p, 0) == [only]
  {
    FindNone(only, p, 0);
    assert only[0..] == only;
  }

  lemma SplitFirst(first: string, p: string, rest: string)
    requires p != "" && !Shares(first, p)
    ensures Parts(first + p + rest, p, 0) == [first] + Parts(rest, p, 0)
  {
    hide Shares, Find, MatchAt, Parts;
    var s, a := first + p + rest, first + p;
    FindFirst(first, p, rest, 0);
    PartsShift(a, rest, p, 0);
    PartsStep(s, p, 0);
    assert s[0..|first|] == first;
  }
}
