/** build.rs: the single-valued table pipeline is generated from src/process_multimap.rs
    by rewriting each line that carries a "// or" alternative, then by global textual
    replacements. Reading and writing the files is not modelled. */
module BuildScript {
  import opened Wrappers
  import opened Text

  /** The marker that introduces the single-valued alternative of a line. */
  const Marker := "// or"

  /** The per-line rewrite: a line with the marker becomes the text after its first
      occurrence; any other line is kept. */
  function RewriteLine(l: string): (r: string)
    ensures (forall j: nat :: !OccursAt(l, Marker, j)) ==> r == l
    ensures (exists j: nat :: OccursAt(l, Marker, j)) ==>
      exists k: nat :: k + |Marker| + |r| == |l| && l == l[..k] + Marker + r
        && forall j: nat :: j < k ==> !OccursAt(l, Marker, j)
  {
    match SplitOnce(l, Marker)
    case Some((before, after)) =>
      assert l[..|before|] == before;
      after
    case None => l
  }

  /** The text the line loop accumulates: each rewritten line followed by "\n". */
  function Rewritten(ls: seq<string>): string
  {
    if ls == [] then [] else RewriteLine(ls[0]) + "\n" + Rewritten(ls[1..])
  }

  /** The line loop: `for l in src.lines()`, then `push_str` and `push('\n')`. */
  method RewriteLines(src: string) returns (buf: string)
    ensures buf == Rewritten(Lines(src))
  {
    var ls := Lines(src);
    buf := [];
    var i := 0;
    while i < |ls|
      invariant 0 <= i <= |ls|
      invariant Rewritten(ls) == buf + Rewritten(ls[i..])
    {
      var l := ls[i];
      var split := SplitOnce(l, Marker);
      if split.Some? {
        l := split.value.1;
      }
      RewrittenStep(ls, i, buf);
      buf := buf + l;
      buf := buf + ['\n'];
      i := i + 1;
    }
    assert ls[i..] == [];
  }

  lemma RewrittenStep(ls: seq<string>, i: nat, buf: string)
    requires i < |ls|
    ensures buf + Rewritten(ls[i..]) == buf + RewriteLine(ls[i]) + ['\n'] + Rewritten(ls[i + 1..])
  {
    assert ls[i..][1..] == ls[i + 1..];
  }

  /** The chain of global replacements, applied after the line loop. */
  function Replacements(buf: string): string
  {
    var s1 := Replace(buf, "_multimap", "");
    var s2 := Replace(s1, "Multimap", "");
    var s3 := Replace(s2, "table.remove_all(&k)?.is_empty()", "table.remove(&k)?.is_none()");
    Replace(s3, "v.is_empty()", "v.is_none()")
  }

  /** `main` of build.rs without the file system: the generated source. */
  method Generate(src: string) returns (out: string)
    ensures out == Replacements(Rewritten(Lines(src)))
  {
    var buf := RewriteLines(src);
    out := Replacements(buf);
  }

  // ---------------------------------------------------------------------------------------
  // The line loop keeps the lines: one "\n" per line of the source

  predicate NoNewline(l: string)
  {
    forall j :: 0 <= j < |l| ==> l[j] != '\n'
  }

  /** No line that `lines` yields contains a "\n". */
  lemma {:induction false} LinesNoNewline(s: string)
    ensures forall k :: 0 <= k < |Lines(s)| ==> NoNewline(Lines(s)[k])
    decreases |s|
  {
    if s != [] {
      match FindFrom(s, "\n", 0)
      case None =>
        forall j | 0 <= j < |s| ensures s[j] != '\n' { NewlineAt(s, j); }
      case Some(i) =>
        forall j | 0 <= j < i ensures s[j] != '\n' { NewlineAt(s, j); }
        LinesNoNewline(s[i + 1..]);
    }
  }

  /** Cutting a line adds no "\n" to it. */
  lemma RewriteLineNoNewline(l: string)
    requires NoNewline(l)
    ensures NoNewline(RewriteLine(l))
  {
    match SplitOnce(l, Marker)
    case None =>
    case Some((before, after)) =>
      NoNewlineSuffix(before + Marker, after);
  }

  lemma NoNewlineSuffix(a: string, b: string)
    requires NoNewline(a + b)
    ensures NoNewline(b)
  {
    forall j | 0 <= j < |b| ensures b[j] != '\n' {
      assert b[j] == (a + b)[|a| + j];
    }
  }

  /** The first "\n" of `a + "\n" + rest` when a has none. */
  lemma FirstNewline(a: string, rest: string)
    requires NoNewline(a)
    ensures FindFrom(a + "\n" + rest, "\n", 0) == Some(|a|)
  {
    var s := a + "\n" + rest;
    NewlineAt(s, |a|);
    var f := FindFrom(s, "\n", 0);
    if f.None? || f.value != |a| {
      if f.Some? && f.value < |a| {
        NewlineAt(s, f.value);
      }
      assert false;
    }
  }

  function RewrittenLines(ls: seq<string>): (rs: seq<string>)
    ensures |rs| == |ls| && forall k :: 0 <= k < |ls| ==> rs[k] == RewriteLine(ls[k])
  {
    if ls == [] then [] else [RewriteLine(ls[0])] + RewrittenLines(ls[1..])
  }

  /** Splitting the accumulated text at "\n" gives back the rewritten lines, one per
      line, and the empty text after the final "\n". */
  lemma {:induction false} SplitRewritten(ls: seq<string>)
    requires forall k :: 0 <= k < |ls| ==> NoNewline(ls[k])
    ensures Split(Rewritten(ls), "\n") == RewrittenLines(ls) + [""]
  {
    if ls == [] {
      assert FindFrom([], "\n", 0) == None;
    } else {
      var a, rest := RewriteLine(ls[0]), Rewritten(ls[1..]);
      RewriteLineNoNewline(ls[0]);
      SplitRewritten(ls[1..]);
      FirstNewline(a, rest);
      var s := a + "\n" + rest;
      assert s[..|a|] == a && s[|a| + 1..] == rest;
      assert Split(s, "\n") == [a] + Split(rest, "\n");
    }
  }

  /** The generated text before the replacements has exactly the source's lines, each
      rewritten on its own. */
  lemma LinesKept(src: string)
    ensures Split(Rewritten(Lines(src)), "\n") == RewrittenLines(Lines(src)) + [""]
  {
    LinesNoNewline(src);
    SplitRewritten(Lines(src));
  }

  // ---------------------------------------------------------------------------------------
  // Concrete rewrites

  /** A line is cut right after the first marker. */
  lemma CutAtFirst(x: string, y: string)
    requires forall j: nat :: j < |x| ==> !OccursAt(x + Marker + y, Marker, j)
    ensures RewriteLine(x + Marker + y) == y
  {
    var l := x + Marker + y;
    assert l[|x|..|x| + |Marker|] == Marker;
    assert OccursAt(l, Marker, |x|);
    var split := SplitOnce(l, Marker);
    var before := split.value.0;
    assert l[|before|..|before| + |Marker|] == Marker;
    assert OccursAt(l, Marker, |before|);
    assert |before| == |x|;
    assert l[|x| + |Marker|..] == y;
  }

  /** The comment before the value-type orderability check of src/process_multimap.rs
      turns into an attribute that compiles that check out of the generated pipeline. */
  lemma ValueGateDropped()
    ensures RewriteLine("        // or #[cfg(false)]") == " #[cfg(false)]"
  {
    var x, y := "        ", " #[cfg(false)]";
    var l := x + Marker + y;
    assert l == "        // or #[cfg(false)]";
    forall j: nat | j < |x| ensures !OccursAt(l, Marker, j) {
      assert l[j..j + |Marker|][0] == l[j];
    }
    CutAtFirst(x, y);
  }

  /** One removal: the first occurrence of p is dropped and the pass goes on after it; when
      no other occurrence follows, the text around it is simply joined. */
  lemma RemoveOnce(x: string, y: string, p: string)
    requires p != []
    requires forall j: nat :: j < |x| ==> !OccursAt(x + p + y, p, j)
    ensures Replace(x + p + y, p, "") == x + Replace(y, p, "")
    ensures (forall j: nat :: !OccursAt(y, p, j)) ==> Replace(x + p + y, p, "") == x + y
  {
    RemoveFirst(x, y, p);
    if forall j: nat :: !OccursAt(y, p, j) {
      ReplaceAbsent(y, p, "");
    }
  }

  lemma RemoveFirst(x: string, y: string, p: string)
    requires p != []
    requires forall j: nat :: j < |x| ==> !OccursAt(x + p + y, p, j)
    ensures Replace(x + p + y, p, "") == x + Replace(y, p, "")
  {
    var s := x + p + y;
    var t := s[|x|..];
    assert s[..|x|] == x && t == p + y;
    assert t[..|p|] == p && t[|p|..] == y;
    ReplaceFrom(s, p, "", |x|);
    ReplaceAtMatch(t, p, "");
    assert "" + Replace(y, p, "") == Replace(y, p, "");
  }

  /** One left-to-right pass does not remove every occurrence: removing one can join
      its neighbours into a new one. */
  lemma SinglePass()
    ensures Replace("_mul_multimaptimap", "_multimap", "") == "_multimap"
  {
    var x, y, p := "_mul", "timap", "_multimap";
    var s := x + p + y;
    assert s == "_mul_multimaptimap" by {
      var t := "_mul_multimaptimap";
      assert |s| == |t| == 18;
      forall i | 0 <= i < 18 ensures s[i] == t[i] {
      }
    }
    assert forall j: nat :: j < |x| ==> !OccursAt(s, p, j) by {
      forall j: nat | j < 4 ensures !OccursAt(s, p, j) {
        assert s[j..j + 9][0] == s[j];
        assert s[j..j + 9][4] == s[j + 4];
      }
    }
    assert Replace(s, p, "") == x + y by {
      assert forall j: nat :: !OccursAt(y, p, j);
      RemoveOnce(x, y, p);
    }
    assert x + y == p;
  }
}
