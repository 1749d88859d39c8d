/**
  Python's `str.replace(old, new)` for a non-empty `old`: the text is scanned
  from left to right and every occurrence that does not overlap an earlier
  replaced one is substituted. The scan is proved to agree with
  `r.join(s.split(p))`, and the split is characterised without the scan: it is
  the only list of pieces that joins back to the text, holds no occurrence in
  its last piece, and lets no occurrence start inside any other piece
  (`LeftmostCuts`, `SplitUnique`).
 */
module Replace {

  /** `p` occurs in `s` starting at index `i`. */
  predicate MatchAt(s: string, p: string, i: nat) {
    i + |p| <= |s| && s[i..i + |p|] == p
  }

  predicate Occurs(s: string, p: string) {
    exists i: nat | i <= |s| :: MatchAt(s, p, i)
  }

  /** `s.replace(p, r)`. */
  function ReplaceAll(s: string, p: string, r: string): string
    requires p != []
    decreases |s|
  {
    if |s| < |p| then s
    else if s[..|p|] == p then r + ReplaceAll(s[|p|..], p, r)
    else [s[0]] + ReplaceAll(s[1..], p, r)
  }

  /** `s.split(p)`: the pieces of `s` between the occurrences the scan finds. */
  function Split(s: string, p: string): (pieces: seq<string>)
    requires p != []
    ensures |pieces| >= 1
    decreases |s|
  {
    if |s| < |p| then [s]
    else if s[..|p|] == p then [""] + Split(s[|p|..], p)
    else
      var t := Split(s[1..], p);
      [[s[0]] + t[0]] + t[1..]
  }

  /** `sep.join(pieces)`. */
  function Join(pieces: seq<string>, sep: string): string
    requires |pieces| >= 1
  {
    if |pieces| == 1 then pieces[0] else pieces[0] + sep + Join(pieces[1..], sep)
  }

  lemma JoinConsHead(c: char, t: seq<string>, sep: string)
    requires |t| >= 1
    ensures Join([[c] + t[0]] + t[1..], sep) == [c] + Join(t, sep)
  {
    var u := [[c] + t[0]] + t[1..];
    assert u[1..] == t[1..];
  }

  /** The first piece is where the joined text starts. */
  lemma JoinStartsWithHead(pieces: seq<string>, sep: string)
    requires |pieces| >= 1
    ensures |pieces[0]| <= |Join(pieces, sep)|
    ensures Join(pieces, sep)[..|pieces[0]|] == pieces[0]
  {
  }

  /** Replacing every occurrence is joining the split pieces with the replacement. */
  lemma {:induction false} ReplaceAllIsJoinOfSplit(s: string, p: string, r: string)
    requires p != []
    ensures ReplaceAll(s, p, r) == Join(Split(s, p), r)
    decreases |s|
  {
    if |s| < |p| {
    } else if s[..|p|] == p {
      var t := Split(s[|p|..], p);
      ReplaceAllIsJoinOfSplit(s[|p|..], p, r);
      assert ([""] + t)[1..] == t;
    } else {
      var t := Split(s[1..], p);
      ReplaceAllIsJoinOfSplit(s[1..], p, r);
      JoinConsHead(s[0], t, r);
    }
  }

  /** Replacing a pattern by itself changes nothing. */
  lemma {:induction false} ReplaceAllSelf(s: string, p: string)
    requires p != []
    ensures ReplaceAll(s, p, p) == s
    decreases |s|
  {
    if |s| < |p| {
    } else if s[..|p|] == p {
      ReplaceAllSelf(s[|p|..], p);
      assert s == s[..|p|] + s[|p|..];
    } else {
      ReplaceAllSelf(s[1..], p);
      assert s == [s[0]] + s[1..];
    }
  }

  /** Joining the pieces with the pattern they were cut at restores the text. */
  lemma SplitJoinRoundTrip(s: string, p: string)
    requires p != []
    ensures Join(Split(s, p), p) == s
  {
    ReplaceAllIsJoinOfSplit(s, p, p);
    ReplaceAllSelf(s, p);
  }

  /** No piece of a split contains the pattern: the scan misses no occurrence. */
  lemma {:induction false} SplitPiecesFree(s: string, p: string)
    requires p != []
    ensures forall k :: 0 <= k < |Split(s, p)| ==> !Occurs(Split(s, p)[k], p)
    decreases |s|
  {
    var pieces := Split(s, p);
    if |s| < |p| {
    } else if s[..|p|] == p {
      SplitPiecesFree(s[|p|..], p);
      assert pieces[1..] == Split(s[|p|..], p);
    } else {
      var t := Split(s[1..], p);
      SplitPiecesFree(s[1..], p);
      assert pieces[1..] == t[1..];
      SplitJoinRoundTrip(s[1..], p);
      FirstPieceFree(s, p, t);
    }
  }


  /** The pieces are cut at the leftmost occurrences: no occurrence starts
      inside a piece before the separator that follows it, and the last piece
      holds none. */
  predicate LeftmostCuts(pieces: seq<string>, p: string)
    requires |pieces| >= 1
  {
    && (forall k, i :: 0 <= k < |pieces| - 1 && 0 <= i < |pieces[k]| ==> !MatchAt(pieces[k] + p, p, i))
    && !Occurs(pieces[|pieces| - 1], p)
  }

  lemma Associative(x: string, y: string, z: string)
    ensures x + y + z == x + (y + z)
  {
  }

  /** A match that ends inside `a` is not affected by what follows `a`. */
  lemma MatchAtPrefix(a: string, b: string, p: string, i: nat)
    requires i + |p| <= |a|
    ensures MatchAt(a + b, p, i) <==> MatchAt(a, p, i)
  {
    assert (a + b)[i..i + |p|] == a[i..i + |p|];
  }

  /** A leading character moves every match one place to the right. */
  lemma MatchAtShift(c: char, t: string, p: string, i: nat)
    ensures MatchAt([c] + t, p, i + 1) <==> MatchAt(t, p, i)
  {
    if i + |p| <= |t| {
      assert ([c] + t)[i + 1..i + 1 + |p|] == t[i..i + |p|];
    }
  }

  /** Cutting at leftmost occurrences holds for the pieces after the first. */
  lemma LeftmostTail(pieces: seq<string>, p: string)
    requires |pieces| > 1 && LeftmostCuts(pieces, p)
    ensures LeftmostCuts(pieces[1..], p)
  {
    forall k, i | 0 <= k < |pieces[1..]| - 1 && 0 <= i < |pieces[1..][k]|
      ensures !MatchAt(pieces[1..][k] + p, p, i)
    {
      assert pieces[1..][k] == pieces[k + 1];
    }
  }

  /** ... and still holds when the first piece loses its first character. */
  lemma LeftmostDropChar(pieces: seq<string>, p: string)
    requires |pieces| > 1 && pieces[0] != [] && LeftmostCuts(pieces, p)
    ensures LeftmostCuts([pieces[0][1..]] + pieces[1..], p)
  {
    var x := pieces[0];
    var tail := [x[1..]] + pieces[1..];
    assert x + p == [x[0]] + (x[1..] + p);
    forall k, i | 0 <= k < |tail| - 1 && 0 <= i < |tail[k]|
      ensures !MatchAt(tail[k] + p, p, i)
    {
      if k == 0 {
        MatchAtShift(x[0], x[1..] + p, p, i);
      } else {
        assert tail[k] == pieces[k];
      }
    }
    assert tail[|tail| - 1] == pieces[|pieces| - 1];
  }

  /** Joining after dropping the first character of the first piece drops the
      first character of the joined text. */
  lemma JoinDropChar(pieces: seq<string>, sep: string)
    requires |pieces| > 1 && pieces[0] != []
    ensures Join([pieces[0][1..]] + pieces[1..], sep) == Join(pieces, sep)[1..]
  {
    var x := pieces[0];
    var tail := [x[1..]] + pieces[1..];
    assert tail[1..] == pieces[1..];
    var rest := Join(pieces[1..], sep);
    assert Join(tail, sep) == x[1..] + sep + rest;
    assert Join(pieces, sep) == x + sep + rest;
    assert x + sep + rest == [x[0]] + (x[1..] + sep + rest);
  }

  /** When the text does not start with the pattern, its first character
      joins the first piece of the rest without creating an occurrence. */
  lemma FirstPieceFree(s: string, p: string, t: seq<string>)
    requires p != [] && |s| >= |p| && s[..|p|] != p
    requires |t| >= 1 && Join(t, p) == s[1..] && !Occurs(t[0], p)
    ensures !Occurs([s[0]] + t[0], p)
  {
    var x := [s[0]] + t[0];
    JoinStartsWithHead(t, p);
    assert s == [s[0]] + s[1..];
    assert s[..|x|] == x;
    assert s == x + s[|x|..];
    forall i: nat | i <= |x|
      ensures !MatchAt(x, p, i)
    {
      if i == 0 {
        if |p| <= |x| {
          MatchAtPrefix(x, s[|x|..], p, 0);
        }
      } else {
        MatchAtShift(s[0], t[0], p, i - 1);
      }
    }
  }

  /** `Split` cuts at the leftmost occurrences. */
  lemma {:induction false} SplitLeftmost(s: string, p: string)
    requires p != []
    ensures LeftmostCuts(Split(s, p), p)
    decreases |s|
  {
    var pieces := Split(s, p);
    SplitPiecesFree(s, p);
    if |s| < |p| {
    } else if s[..|p|] == p {
      var t := Split(s[|p|..], p);
      SplitLeftmost(s[|p|..], p);
      assert pieces == [""] + t;
      forall k, i | 0 <= k < |pieces| - 1 && 0 <= i < |pieces[k]|
        ensures !MatchAt(pieces[k] + p, p, i)
      {
        assert pieces[k] == t[k - 1];
      }
    } else {
      var t := Split(s[1..], p);
      SplitLeftmost(s[1..], p);
      var x := [s[0]] + t[0];
      assert pieces == [x] + t[1..];
      if |t| > 1 {
        SplitJoinRoundTrip(s[1..], p);
        FirstPieceLeftmost(s, p, t);
      }
      forall k, i | 0 <= k < |pieces| - 1 && 0 <= i < |pieces[k]|
        ensures !MatchAt(pieces[k] + p, p, i)
      {
        if k > 0 {
          assert pieces[k] == t[k];
        }
      }
    }
  }

  /** When the text does not start with the pattern, its first character
      joins the first piece of the rest without starting an occurrence. */
  lemma FirstPieceLeftmost(s: string, p: string, t: seq<string>)
    requires p != [] && |s| >= |p| && s[..|p|] != p
    requires |t| > 1 && Join(t, p) == s[1..] && LeftmostCuts(t, p)
    ensures forall i: nat :: i < |[s[0]] + t[0]| ==> !MatchAt([s[0]] + t[0] + p, p, i)
  {
    var x := [s[0]] + t[0];
    var rest := Join(t[1..], p);
    var y := t[0] + p;
    assert s[1..] == y + rest;
    Associative([s[0]], t[0], p);
    Associative([s[0]], y, rest);
    assert x + p == [s[0]] + y;
    calc {
      x + p + rest;
      [s[0]] + y + rest;
      [s[0]] + (y + rest);
      [s[0]] + s[1..];
      s;
    }
    assert !MatchAt(s, p, 0);
    MatchAtPrefix(x + p, rest, p, 0);
    forall i: nat | 0 < i < |x|
      ensures !MatchAt(x + p, p, i)
    {
      MatchAtShift(s[0], t[0] + p, p, i - 1);
    }
  }

  /** Text without the pattern is a single piece. */
  lemma {:induction false} SplitNoMatch(s: string, p: string)
    requires p != [] && !Occurs(s, p)
    ensures Split(s, p) == [s]
    decreases |s|
  {
    if |s| >= |p| {
      assert !MatchAt(s, p, 0);
      assert s == [s[0]] + s[1..];
      forall i: nat | MatchAt(s[1..], p, i)
        ensures false
      {
        MatchAtShift(s[0], s[1..], p, i);
      }
      SplitNoMatch(s[1..], p);
    }
  }

  /** The split is the only list of pieces that joins back to the text and
      cuts at the leftmost occurrences. */
  lemma {:induction false} SplitUnique(s: string, p: string, pieces: seq<string>)
    requires p != [] && |pieces| >= 1
    requires Join(pieces, p) == s && LeftmostCuts(pieces, p)
    ensures Split(s, p) == pieces
    decreases |s|
  {
    if |pieces| == 1 {
      SplitNoMatch(s, p);
    } else {
      var rest := Join(pieces[1..], p);
      assert s == pieces[0] + p + rest;
      LeftmostTail(pieces, p);
      if pieces[0] == [] {
        assert s == p + rest;
        assert s[..|p|] == p && s[|p|..] == rest;
        SplitUnique(rest, p, pieces[1..]);
        assert pieces == [""] + pieces[1..];
      } else {
        var x := pieces[0];
        assert !MatchAt(x + p, p, 0);
        MatchAtPrefix(x + p, rest, p, 0);
        assert !MatchAt(s, p, 0);
        var tail := [x[1..]] + pieces[1..];
        LeftmostDropChar(pieces, p);
        JoinDropChar(pieces, p);
        SplitUnique(s[1..], p, tail);
        assert tail[1..] == pieces[1..];
        assert [s[0]] + x[1..] == x;
        assert pieces == [x] + pieces[1..];
      }
    }
  }

  /** Text in which the pattern does not occur is left unchanged. */
  lemma {:induction false} ReplaceAllNoMatch(s: string, p: string, r: string)
    requires p != []
    requires !Occurs(s, p)
    ensures ReplaceAll(s, p, r) == s
    decreases |s|
  {
    if |s| < |p| {
    } else {
      assert !MatchAt(s, p, 0);
      forall i: nat | MatchAt(s[1..], p, i)
        ensures false
      {
        assert s[1..][i..i + |p|] == s[i + 1..i + 1 + |p|];
        assert MatchAt(s, p, i + 1);
      }
      ReplaceAllNoMatch(s[1..], p, r);
      assert s == [s[0]] + s[1..];
    }
  }

  /** A prefix in which no occurrence starts is copied through unchanged. */
  lemma {:induction false} ReplaceAllSkip(a: string, b: string, p: string, r: string)
    requires p != []
    requires forall i: nat :: i < |a| ==> !MatchAt(a + b, p, i)
    ensures ReplaceAll(a + b, p, r) == a + ReplaceAll(b, p, r)
    decreases |a|
  {
    var s := a + b;
    if a == [] {
      assert s == b;
    } else if |s| < |p| {
      assert ReplaceAll(b, p, r) == b;
    } else {
      assert !MatchAt(s, p, 0);
      assert s[1..] == a[1..] + b;
      forall i: nat | i < |a[1..]|
        ensures !MatchAt(a[1..] + b, p, i)
      {
        assert !MatchAt(s, p, i + 1);
      }
      ReplaceAllSkip(a[1..], b, p, r);
      assert s[..|p|] != p;
      assert ReplaceAll(s, p, r) == [s[0]] + ReplaceAll(s[1..], p, r);
      assert s[0] == a[0];
      assert a == [a[0]] + a[1..];
    }
  }

  /** An occurrence at the front is replaced and the scan resumes after it. */
  lemma ReplaceAllHit(p: string, b: string, r: string)
    requires p != []
    ensures ReplaceAll(p + b, p, r) == r + ReplaceAll(b, p, r)
  {
    assert (p + b)[..|p|] == p;
    assert (p + b)[|p|..] == b;
  }
}
