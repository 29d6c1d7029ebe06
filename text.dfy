/** The `str` operations that build.rs and the schema override rely on: `split_once`,
    `replace` and `lines`, on strings as sequences of characters. */
module Text {
  import opened Wrappers

  /** The pattern p occurs in s starting at i. */
  predicate OccursAt(s: string, p: string, i: nat)
  {
    i + |p| <= |s| && s[i..i + |p|] == p
  }

  /** The first occurrence of p in s at or after i. */
  function FindFrom(s: string, p: string, i: nat): (r: Option<nat>)
    ensures r.Some? ==> i <= r.value && OccursAt(s, p, r.value)
    ensures forall j: nat :: i <= j && (r.None? || j < r.value) ==> !OccursAt(s, p, j)
    decreases |s| - i
  {
    if i + |p| > |s| then None
    else if s[i..i + |p|] == p then Some(i)
    else FindFrom(s, p, i + 1)
  }

  /** `str::split_once`: the text before and after the first occurrence of p. */
  function SplitOnce(s: string, p: string): (r: Option<(string, string)>)
    ensures r.Some? ==> s == r.value.0 + p + r.value.1
    ensures r.Some? ==> forall j: nat :: j < |r.value.0| ==> !OccursAt(s, p, j)
    ensures r.None? ==> forall j: nat :: !OccursAt(s, p, j)
  {
    match FindFrom(s, p, 0)
    case None => None
    case Some(i) =>
      assert s == s[..i] + p + s[i + |p|..];
      Some((s[..i], s[i + |p|..]))
  }

  /** `split_once` splits at the first occurrence: text made of x, p and y, with p nowhere
      before x ends, splits into exactly x and y. */
  lemma SplitOnceAt(s: string, p: string, x: string, y: string)
    requires s == x + p + y
    requires forall j: nat :: j < |x| ==> !OccursAt(s, p, j)
    ensures SplitOnce(s, p) == Some((x, y))
  {
    assert s[|x|..|x| + |p|] == p;
    assert OccursAt(s, p, |x|);
    var r := SplitOnce(s, p);
    var a, b := r.value.0, r.value.1;
    assert s[|a|..|a| + |p|] == p;
    assert OccursAt(s, p, |a|);
    assert |a| == |x|;
    assert a == s[..|x|] == x;
    assert b == s[|x| + |p|..] == y;
  }

  // ---------------------------------------------------------------------------------------
  // str::replace

  /** `str::replace(p, r)`: one left-to-right pass that replaces each non-overlapping
      occurrence of p; an empty p matches before every character and at the end. */
  function Replace(s: string, p: string, r: string): string
  {
    if p == [] then
      if s == [] then r else r + [s[0]] + Replace(s[1..], p, r)
    else if |s| < |p| then s
    else if s[..|p|] == p then r + Replace(s[|p|..], p, r)
    else [s[0]] + Replace(s[1..], p, r)
  }

  /** `str::split(p)` for a non-empty p: the pieces between successive occurrences. */
  function Split(s: string, p: string): (pieces: seq<string>)
    requires p != []
    ensures |pieces| >= 1
    decreases |s|
  {
    match FindFrom(s, p, 0)
    case None => [s]
    case Some(i) => [s[..i]] + Split(s[i + |p|..], p)
  }

  /** `join(r)`: the pieces with r between each two. */
  function Join(pieces: seq<string>, r: string): string
  {
    if pieces == [] then [] else if |pieces| == 1 then pieces[0] else pieces[0] + r + Join(pieces[1..], r)
  }

  /** Replacing is splitting at the occurrences and joining the pieces with the
      replacement. */
  lemma {:induction false} ReplaceIsSplitJoin(s: string, p: string, r: string)
    requires p != []
    ensures Replace(s, p, r) == Join(Split(s, p), r)
    decreases |s|
  {
    var f := FindFrom(s, p, 0);
    if f.None? {
      ReplaceAbsent(s, p, r);
    } else {
      var i := f.value;
      var after := s[i + |p|..];
      ReplaceIsSplitJoin(after, p, r);
      SplitJoinStep(s, p, r, i);
    }
  }

  /** One step of ReplaceIsSplitJoin: the text up to the first occurrence, the replacement,
      then the rest. */
  lemma SplitJoinStep(s: string, p: string, r: string, i: nat)
    requires p != [] && FindFrom(s, p, 0) == Some(i)
    requires Replace(s[i + |p|..], p, r) == Join(Split(s[i + |p|..], p), r)
    ensures Replace(s, p, r) == Join(Split(s, p), r)
  {
    var before, after := s[..i], s[i + |p|..];
    ReplaceFrom(s, p, r, i);
    ReplaceAtMatch(s[i..], p, r);
    assert s[i..][|p|..] == after;
    var rest := Split(after, p);
    JoinCons(before, rest, r);
    calc {
      Replace(s, p, r);
      before + Replace(s[i..], p, r);
      before + (r + Join(rest, r));
      { ConcatAssoc(before, r, Join(rest, r)); }
      Join([before] + rest, r);
    }
  }

  lemma ConcatAssoc(a: string, b: string, c: string)
    ensures a + (b + c) == a + b + c
  {
  }

  lemma ReplaceAtMatch(t: string, p: string, r: string)
    requires p != [] && OccursAt(t, p, 0)
    ensures Replace(t, p, r) == r + Replace(t[|p|..], p, r)
  {
    assert t[..|p|] == p;
  }

  lemma JoinCons(piece: string, rest: seq<string>, r: string)
    requires rest != []
    ensures Join([piece] + rest, r) == piece + r + Join(rest, r)
  {
    assert ([piece] + rest)[1..] == rest;
  }

  /** Replace copies the text up to a point before which p does not start. */
  lemma {:induction false} ReplaceFrom(s: string, p: string, r: string, k: nat)
    requires p != [] && k <= |s|
    requires forall j: nat :: j < k ==> !OccursAt(s, p, j)
    ensures Replace(s, p, r) == s[..k] + Replace(s[k..], p, r)
    decreases k
  {
    if k > 0 {
      assert !OccursAt(s, p, 0);
      if |s| < |p| {
        assert s == s[..k] + s[k..];
      } else {
        ReplaceSkip(s, p, r);
        NoneBeforeShift(s, p, k);
        ReplaceFrom(s[1..], p, r, k - 1);
        PrefixCons(s, k);
        ConcatAssoc([s[0]], s[1..][..k - 1], Replace(s[k..], p, r));
      }
    }
  }

  lemma ReplaceSkip(s: string, p: string, r: string)
    requires p != [] && |p| <= |s| && !OccursAt(s, p, 0)
    ensures Replace(s, p, r) == [s[0]] + Replace(s[1..], p, r)
  {
    assert s[..|p|] != p;
  }

  lemma NoneBeforeShift(s: string, p: string, k: nat)
    requires 0 < k <= |s| && forall j: nat :: j < k ==> !OccursAt(s, p, j)
    ensures forall j: nat :: j < k - 1 ==> !OccursAt(s[1..], p, j)
  {
    forall j: nat | j < k - 1
      ensures !OccursAt(s[1..], p, j)
    {
      OccursShift(s, p, j);
    }
  }

  lemma PrefixCons(s: string, k: nat)
    requires 0 < k <= |s|
    ensures s[1..][k - 1..] == s[k..]
    ensures s[..k] == [s[0]] + s[1..][..k - 1]
  {
  }

  lemma OccursShift(s: string, p: string, j: nat)
    requires s != []
    ensures OccursAt(s[1..], p, j) <==> OccursAt(s, p, j + 1)
  {
    if j + |p| <= |s[1..]| {
      assert s[1..][j..j + |p|] == s[j + 1..j + 1 + |p|];
    }
  }

  /** Without an occurrence of p, Replace leaves the text as it is. */
  lemma ReplaceAbsent(s: string, p: string, r: string)
    requires p != [] && forall j: nat :: !OccursAt(s, p, j)
    ensures Replace(s, p, r) == s
  {
    ReplaceFrom(s, p, r, |s|);
    assert s[..|s|] == s;
  }

  // ---------------------------------------------------------------------------------------
  // str::lines

  /** A line as `lines` yields it: a "\r" before the "\n" is dropped, and only there. */
  function LineOf(piece: string, ended: bool): (l: string)
    ensures l == piece || (ended && piece == l + ['\r'])
    ensures !ended ==> l == piece
    ensures ended && piece != [] && piece[|piece| - 1] == '\r' ==> piece == l + ['\r']
  {
    if ended && |piece| > 0 && piece[|piece| - 1] == '\r' then piece[..|piece| - 1] else piece
  }

  /** `str::lines`: split after each "\n" ("\r\n" also ends a line); a final line needs
      no line ending, and no empty line follows a final "\n". */
  function Lines(s: string): (ls: seq<string>)
    ensures s == [] <==> ls == []
    decreases |s|
  {
    if s == [] then []
    else match FindFrom(s, "\n", 0)
      case None => [LineOf(s, false)]
      case Some(i) => [LineOf(s[..i], true)] + Lines(s[i + 1..])
  }

  lemma NewlineAt(s: string, j: nat)
    ensures OccursAt(s, "\n", j) <==> j < |s| && s[j] == '\n'
  {
    if j < |s| {
      assert s[j..j + 1] == [s[j]];
    }
  }

  /** ls are the lines of pieces cut at "\n": every piece but the last was followed by a
      "\n", and a line is its piece as `LineOf` reads it. */
  predicate LinesOfPieces(ls: seq<string>, pieces: seq<string>)
  {
    |ls| <= |pieces| && forall k :: 0 <= k < |ls| ==> ls[k] == LineOf(pieces[k], k < |pieces| - 1)
  }

  /** The lines are the pieces between the "\n"s, each with the "\r" before its "\n"
      dropped; the empty piece after a final "\n" is no line. */
  lemma {:induction false} LinesSplit(s: string)
    requires s != []
    ensures LinesMatchSplit(s)
    decreases |s|
  {
    match FindFrom(s, "\n", 0)
    case None =>
      LinesUnbroken(s);
    case Some(i) =>
      if i + 1 == |s| {
        LinesFinalBreak(s, i);
      } else {
        LinesSplit(s[i + 1..]);
        LinesBreak(s, i);
      }
  }

  /** The facts `LinesSplit` states about a non-empty text. */
  predicate LinesMatchSplit(s: string)
    requires s != []
  {
    && |Lines(s)| == |Split(s, "\n")| - (if s[|s| - 1] == '\n' then 1 else 0)
    && (s[|s| - 1] == '\n' ==> Split(s, "\n")[|Split(s, "\n")| - 1] == [])
    && LinesOfPieces(Lines(s), Split(s, "\n"))
  }

  lemma {:induction false} LinesUnbroken(s: string)
    requires s != [] && FindFrom(s, "\n", 0) == None
    ensures LinesMatchSplit(s)
  {
    NewlineAt(s, |s| - 1);
  }

  lemma {:induction false} LinesFinalBreak(s: string, i: nat)
    requires FindFrom(s, "\n", 0) == Some(i) && i + 1 == |s|
    ensures LinesMatchSplit(s)
  {
    NewlineAt(s, i);
    assert s[i + 1..] == [];
    assert FindFrom([], "\n", 0) == None;
    assert Split(s, "\n") == [s[..i], []];
    assert Lines(s) == [LineOf(s[..i], true)];
  }

  lemma {:induction false} LinesBreak(s: string, i: nat)
    requires FindFrom(s, "\n", 0) == Some(i) && i + 1 < |s|
    requires LinesMatchSplit(s[i + 1..])
    ensures LinesMatchSplit(s)
  {
    var rest := s[i + 1..];
    var ps, ls := Split(rest, "\n"), Lines(rest);
    assert rest[|rest| - 1] == s[|s| - 1];
    assert Split(s, "\n") == [s[..i]] + ps;
    assert Lines(s) == [LineOf(s[..i], true)] + ls;
    LinesCons(s[..i], ps, ls);
  }

  /** A piece ended by "\n" in front of pieces and their lines. */
  lemma LinesCons(head: string, pieces: seq<string>, ls: seq<string>)
    requires pieces != [] && LinesOfPieces(ls, pieces)
    ensures ([head] + pieces)[|pieces|] == pieces[|pieces| - 1]
    ensures LinesOfPieces([LineOf(head, true)] + ls, [head] + pieces)
  {
    var ls', ps := [LineOf(head, true)] + ls, [head] + pieces;
    forall k | 0 <= k < |ls'|
      ensures ls'[k] == LineOf(ps[k], k < |ps| - 1)
    {
      if k > 0 {
        assert ls'[k] == ls[k - 1];
        assert ps[k] == pieces[k - 1];
      }
    }
  }

  /** Without "\r", splitting at "\n" gives the lines, and one empty piece more after a
      final "\n". */
  lemma {:induction false} LinesSplitPlain(s: string)
    requires s != [] && forall j :: 0 <= j < |s| ==> s[j] != '\r'
    ensures Split(s, "\n") == Lines(s) + (if s[|s| - 1] == '\n' then [[]] else [])
    decreases |s|
  {
    match FindFrom(s, "\n", 0)
    case None =>
      NewlineAt(s, |s| - 1);
    case Some(i) =>
      var rest := s[i + 1..];
      var tail: seq<string> := if s[|s| - 1] == '\n' then [[]] else [];
      assert Split(s, "\n") == [s[..i]] + Split(rest, "\n");
      assert Lines(s) == [LineOf(s[..i], true)] + Lines(rest);
      PlainLine(s, i);
      if rest == [] {
        NewlineAt(s, i);
        assert FindFrom(rest, "\n", 0) == None;
      } else {
        PlainRest(s, i, rest);
        LinesSplitPlain(rest);
        assert rest[|rest| - 1] == s[|s| - 1];
      }
      PlainCons(s[..i], Split(rest, "\n"), Lines(rest), tail);
  }

  lemma PlainLine(s: string, i: nat)
    requires i <= |s| && forall j :: 0 <= j < |s| ==> s[j] != '\r'
    ensures LineOf(s[..i], true) == s[..i]
  {
    if i > 0 {
      assert s[..i][i - 1] == s[i - 1];
    }
  }

  lemma PlainRest(s: string, i: nat, rest: string)
    requires i < |s| && rest == s[i + 1..] && forall j :: 0 <= j < |s| ==> s[j] != '\r'
    ensures forall j :: 0 <= j < |rest| ==> rest[j] != '\r'
  {
    forall j | 0 <= j < |rest| ensures rest[j] != '\r' {
      assert rest[j] == s[i + 1 + j];
    }
  }

  lemma PlainCons(head: string, pieces: seq<string>, ls: seq<string>, tail: seq<string>)
    requires pieces == ls + tail
    ensures [head] + pieces == [head] + ls + tail
  {
  }
}
