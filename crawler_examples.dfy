/**
 * The behaviour of segmentation and act parsing on small bulletin texts: a body of two acts that
 * starts with a heading, the same body without the line break before its first heading, and
 * three blocks for `parse_act`. Each text is given as its pieces (headings, the text between
 * them, the parts of a first line), and the general lemmas behind the examples are stated over
 * any such pieces.
 */
module CrawlerExamples {
  import opened Wrappers
  import opened Strings
  import opened Dates
  import opened Crawler

  /* ---------------------------------------------------------------------------------------- */
  /* Segmentation                                                                             */
  /* ---------------------------------------------------------------------------------------- */

  /** Positions where no marker starts do not change where the next one is found. */
  lemma NextMarkerSkip(s: string, from: nat, to: nat)
    requires from <= to <= |s|
    requires forall j :: from <= j < to ==> MarkerEnd(s, j).None?
    ensures NextMarker(s, from) == NextMarker(s, to)
  {
    var a, b := NextMarker(s, from), NextMarker(s, to);
    if a.Some? {
      assert b.Some? by { assert to <= a.value.0; }
      assert a.value.0 == b.value.0;
    }
  }

  /** A line break not followed by a digit starts no marker. */
  lemma NoDigitAfterBreak(s: string, i: nat)
    requires i + 1 < |s| && !IsDigit(s[i + 1])
    ensures MarkerEnd(s, i).None?
  {
    RunEndAt(s, i + 1, IsDigit, i + 1);
  }

  /** Every line break of `g` is followed, inside `g`, by something other than a digit. */
  predicate NoMarkerInside(g: string)
  {
    forall k :: 0 <= k < |g| && g[k] == '\n' ==> k + 1 < |g| && !IsDigit(g[k + 1])
  }

  /** No marker starts inside a stretch of the text with no line break before a digit. */
  lemma GapNoMarker(s: string, i: nat, j: nat)
    requires i <= j <= |s| && NoMarkerInside(s[i..j])
    ensures forall t :: i <= t < j ==> MarkerEnd(s, t).None?
  {
    var g := s[i..j];
    forall t | i <= t < j ensures MarkerEnd(s, t).None? {
      assert s[t] == g[t - i];
      if g[t - i] == '\n' {
        assert s[t + 1] == g[t - i + 1];
        NoDigitAfterBreak(s, t);
      }
    }
  }

  /** After a stretch with no marker, the next marker is a complete one that follows it. */
  lemma NextMarkerAt(s: string, from: nat, i: nat, e: nat)
    requires from <= i < e <= |s| && NoMarkerInside(s[from..i])
    requires IsMarker(s[i..e]) && (e == |s| || !IsUpper(s[e]))
    ensures NextMarker(s, from) == Some((i, e))
  {
    GapNoMarker(s, from, i);
    MarkerEndComplete(s, i, e);
    NextMarkerSkip(s, from, i);
  }

  /** A tail with no marker has no next marker. */
  lemma NextMarkerNone(s: string, from: nat)
    requires from <= |s| && NoMarkerInside(s[from..])
    ensures NextMarker(s, from).None?
  {
    assert s[from..|s|] == s[from..];
    GapNoMarker(s, from, |s|);
    NextMarkerSkip(s, from, |s|);
    assert NextMarker(s, |s|).None?;
  }

  /** One step of `re.split` past a stretch `g` and the marker `m` after it. */
  lemma SplitStepMarker(s: string, from: nat, i: nat, e: nat, g: string, m: string)
    requires from <= i < e <= |s| && s[from..i] == g && s[i..e] == m
    requires NoMarkerInside(g) && IsMarker(m) && (e == |s| || !IsUpper(s[e]))
    ensures SplitOnMarkers(s, from) == [g, m] + SplitOnMarkers(s, e)
  {
    NextMarkerAt(s, from, i, e);
    SplitOnMarkersStep(s, from);
  }

  /** The last step of `re.split`: a tail with no marker is one fragment. */
  lemma SplitStepLast(s: string, from: nat, g: string)
    requires from <= |s| && s[from..] == g && NoMarkerInside(g)
    ensures SplitOnMarkers(s, from) == [g]
  {
    NextMarkerNone(s, from);
    SplitOnMarkersStep(s, from);
  }

  lemma FiveElements<T>(p: seq<T>, q: seq<T>, r: seq<T>, x0: T, x1: T, x2: T, x3: T, x4: T)
    requires p == [x0, x1] + q && q == [x2, x3] + r && r == [x4]
    ensures p == [x0, x1, x2, x3, x4]
  {
  }

  lemma SameFive<T>(x0: T, x1: T, x2: T, x3: T, x4: T, y0: T, y1: T, y2: T, y3: T, y4: T)
    requires x0 == y0 && x1 == y1 && x2 == y2 && x3 == y3 && x4 == y4
    ensures [x0, x1, x2, x3, x4] == [y0, y1, y2, y3, y4]
  {
  }

  lemma FourStrides<T>(xs: seq<T>)
    requires |xs| == 4
    ensures Evens(xs) == [xs[0], xs[2]] && Odds(xs) == [xs[1], xs[3]]
  {
  }

  lemma FourPieces(s: string, m1: string, g1: string, m2: string, g2: string)
    requires s == m1 + g1 + m2 + g2
    ensures var a, b, c := |m1|, |m1| + |g1|, |m1| + |g1| + |m2|;
      s[..a] == m1 && s[a..b] == g1 && s[b..c] == m2 && s[c..] == g2
  {
  }

  lemma ThreePieces(s: string, a: string, m: string, g: string)
    requires s == a + m + g
    ensures s[..|a|] == a && s[|a|..|a| + |m|] == m && s[|a| + |m|..] == g
  {
  }

  /** A text made of two complete markers, each followed by a stretch with no marker, in fragments. */
  lemma TwoMarkerFragmentsAt(s: string, a: nat, b: nat, c: nat)
    requires 0 < a < b < c < |s| && IsMarker(s[0..a]) && IsMarker(s[b..c])
    requires !IsUpper(s[a]) && !IsUpper(s[c]) && NoMarkerInside(s[a..b]) && NoMarkerInside(s[c..])
    ensures SplitOnMarkers(s, 0) == [s[0..0], s[0..a], s[a..b], s[b..c], s[c..]]
  {
    SplitStepMarker(s, 0, 0, a, s[0..0], s[0..a]);
    SplitStepMarker(s, a, b, c, s[a..b], s[b..c]);
    SplitStepLast(s, c, s[c..]);
    FiveElements(SplitOnMarkers(s, 0), SplitOnMarkers(s, a), SplitOnMarkers(s, c), s[0..0], s[0..a], s[a..b], s[b..c], s[c..]);
  }

  lemma TwoMarkerFragments(s: string, m1: string, g1: string, m2: string, g2: string)
    requires s == m1 + g1 + m2 + g2 && IsMarker(m1) && IsMarker(m2)
    requires g1 != [] && g2 != [] && !IsUpper(g1[0]) && !IsUpper(g2[0])
    requires NoMarkerInside(g1) && NoMarkerInside(g2)
    ensures SplitOnMarkers(s, 0) == ["", m1, g1, m2, g2]
  {
    var a, b, c := |m1|, |m1| + |g1|, |m1| + |g1| + |m2|;
    FourPieces(s, m1, g1, m2, g2);
    assert s[0..a] == m1 && s[0..0] == "" && s[a] == g1[0] && s[c] == g2[0];
    SameFive(s[0..0], s[0..a], s[a..b], s[b..c], s[c..], "", m1, g1, m2, g2);
    TwoMarkerFragmentsAt(s, a, b, c);
  }

  lemma DropLead(parts: seq<string>)
    requires |parts| >= 1 && parts[0] == "" && forall k :: 1 <= k < |parts| ==> parts[k] != ""
    ensures DropEmpty(parts) == parts[1..]
  {
    DropEmptyNone(parts[1..]);
  }

  lemma PairFour(m1: string, g1: string, m2: string, g2: string)
    ensures var fragments := [m1, g1, m2, g2];
      |Evens(fragments)| == |Odds(fragments)| && Pairs(Evens(fragments), Odds(fragments)) == [m1 + g1, m2 + g2]
  {
    FourStrides([m1, g1, m2, g2]);
    assert Pairs([m1, m2], [g1, g2]) == [m1 + g1, m2 + g2];
  }

  /** An empty lead and four non-empty fragments pair into two acts. */
  lemma PairTwoActs(s: string, m1: string, g1: string, m2: string, g2: string)
    requires SplitOnMarkers(s, 0) == ["", m1, g1, m2, g2]
    requires m1 != [] && g1 != [] && m2 != [] && g2 != []
    ensures SplitTextByActs(s) == Success([m1 + g1, m2 + g2])
  {
    var parts := SplitOnMarkers(s, 0);
    DropLead(parts);
    assert DropEmpty(parts) == [m1, g1, m2, g2];
    PairFour(m1, g1, m2, g2);
  }

  /**
   * A text that starts with a marker and holds one more, each followed by text that extends no
   * capital run and starts no marker, is cut into two acts: each marker with the text after it.
   */
  lemma TwoActs(s: string, m1: string, g1: string, m2: string, g2: string)
    requires s == m1 + g1 + m2 + g2 && IsMarker(m1) && IsMarker(m2)
    requires g1 != [] && g2 != [] && !IsUpper(g1[0]) && !IsUpper(g2[0])
    requires NoMarkerInside(g1) && NoMarkerInside(g2)
    ensures SplitTextByActs(s) == Success([m1 + g1, m2 + g2])
  {
    TwoMarkerFragments(s, m1, g1, m2, g2);
    PairTwoActs(s, m1, g1, m2, g2);
  }

  /**
   * A text whose first act lacks the line break before its heading leaves three non-empty
   * fragments, so the assertion that they pair up fails.
   */
  lemma UnledActs(s: string, a: string, m: string, g: string)
    requires s == a + m + g && a != [] && g != [] && IsMarker(m) && !IsUpper(g[0])
    requires NoMarkerInside(a) && NoMarkerInside(g)
    ensures SplitTextByActs(s) == Failure(UnpairedFragments(3))
  {
    var i, e := |a|, |a| + |m|;
    ThreePieces(s, a, m, g);
    assert s[0..i] == a && s[e] == g[0] && m != [];
    SplitStepMarker(s, 0, i, e, a, m);
    SplitStepLast(s, e, g);
    ThreeFragments(s, a, m, g);
  }

  lemma ThreeFragments(s: string, a: string, m: string, g: string)
    requires SplitOnMarkers(s, 0) == [a, m] + [g] && a != [] && m != [] && g != []
    ensures SplitTextByActs(s) == Failure(UnpairedFragments(3))
  {
    var parts := SplitOnMarkers(s, 0);
    assert parts == [a, m, g];
    DropEmptyNone(parts);
  }

  lemma OneDigitMarker(m: string)
    requires m == "\n1 - FOO" || m == "\n2 - BAR"
    ensures IsMarker(m)
  {
    assert AllDigits(m[1..2]) && m[2..5] == " - " && AllUpper(m[5..]);
  }

  lemma BodyGaps(g: string)
    requires g == "\nalpha" || g == "\nbeta"
    ensures g != [] && !IsUpper(g[0]) && NoMarkerInside(g)
  {
  }

  lemma BodyActs(m1: string, g1: string, m2: string, g2: string)
    requires m1 == "\n1 - FOO" && g1 == "\nalpha" && m2 == "\n2 - BAR" && g2 == "\nbeta"
    ensures m1 + g1 == "\n1 - FOO\nalpha" && m2 + g2 == "\n2 - BAR\nbeta"
  {
  }

  /** A body that starts with a line break is cut into one act per marker. */
  lemma SegmentExample(s: string, m1: string, g1: string, m2: string, g2: string)
    requires m1 == "\n1 - FOO" && g1 == "\nalpha" && m2 == "\n2 - BAR" && g2 == "\nbeta"
    requires s == m1 + g1 + m2 + g2
    ensures SplitTextByActs(s) == Success(["\n1 - FOO\nalpha", "\n2 - BAR\nbeta"])
  {
    OneDigitMarker(m1);
    OneDigitMarker(m2);
    BodyGaps(g1);
    BodyGaps(g2);
    BodyActs(m1, g1, m2, g2);
    TwoActs(s, m1, g1, m2, g2);
  }

  lemma UnledLead(a: string)
    requires a == "1 - FOO\nalpha"
    ensures a != [] && NoMarkerInside(a)
  {
  }

  /**
   * Without a line break before the first heading, the first act is not cut off: three non-empty
   * fragments remain and the assertion fails.
   */
  lemma SegmentUnledExample(s: string, a: string, m: string, g: string)
    requires a == "1 - FOO\nalpha" && m == "\n2 - BAR" && g == "\nbeta"
    requires s == a + m + g
    ensures SplitTextByActs(s) == Failure(UnpairedFragments(3))
  {
    UnledLead(a);
    OneDigitMarker(m);
    BodyGaps(g);
    UnledActs(s, a, m, g);
  }

  /* ---------------------------------------------------------------------------------------- */
  /* Act parsing                                                                              */
  /* ---------------------------------------------------------------------------------------- */

  lemma DotOnly()
    ensures RemoveChar(['.'], '.') == []
  {
  }

  lemma DotAfter(a: string)
    requires '.' !in a
    ensures RemoveChar(a + ['.'], '.') == a
  {
    RemoveCharAppend(a, ['.'], '.');
    RemoveCharNone(a, '.');
    DotOnly();
    assert a + [] == a;
  }

  /** Removing the dot of a name with one dot joins the two halves. */
  lemma RemoveOneDot(a: string, b: string)
    requires '.' !in a && '.' !in b
    ensures RemoveChar(a + ['.'] + b, '.') == a + b
  {
    RemoveCharAppend(a + ['.'], b, '.');
    DotAfter(a);
    RemoveCharNone(b, '.');
  }

  /** The company name of the example block: stripped, then its dot removed. */
  lemma ExampleName(n: string)
    requires n == " FOO.BAR"
    ensures RemoveChar(Strip(n), '.') == "FOOBAR"
  {
    var a, b := n[1..4], n[5..];
    assert n[1..] == a + ['.'] + b;
    assert a == "FOO" && b == "BAR";
    StripOneLeading(n);
    RemoveOneDot(a, b);
  }

  /** A two-digit number is padded to its two digits. */
  lemma PadTwo(n: nat, s: string)
    requires n < 100 && |s| == 2
    requires s[0] == ('0' as int + n / 10) as char && s[1] == ('0' as int + n % 10) as char
    ensures Pad(n, 2) == s
  {
    assert Pad(n / 10, 1) == [s[0]];
  }

  /** The date of the example block, written the way `%Y-%m-%d` writes it. */
  lemma ExampleDate(y: nat, m: nat, d: nat)
    requires y == 2023 && m == 11 && d == 27
    ensures Date(y, m, d).Valid() && FormatDate(Date(y, m, d), '-') == "2023-11-27"
  {
    PadTwo(y / 100, "20");
    PadTwo(y % 100, "23");
    assert Pad(y, 4) == "2023";
    PadTwo(m, "11");
    PadTwo(d, "27");
  }

  /**
   * A block whose stripped text is a first line `actId-rest` and a description parses into
   * exactly those fields.
   */
  lemma ParseActFields(act: string, regionName: string, date: Date, actId: string, rest: string, description: string)
    requires date.Valid() && '-' !in actId && '\n' !in actId + "-" + rest
    requires Strip(act) == actId + "-" + rest + "\n" + description
    ensures ParseAct(act, regionName, date)
      == Success(Act(actId, RemoveChar(Strip(rest), '.'), regionName, FormatDate(date, '-'), description))
  {
    var s, line := Strip(act), actId + "-" + rest;
    assert s[..|line|] == line && s[|line|] == '\n';
    assert FirstLine(s) == line;
    ParseActFirstLine(act, regionName, date, actId, rest);
    ParseActDescription(act, regionName, date);
    var r := ParseAct(act, regionName, date).value;
    assert line + "\n" + r.description == line + "\n" + description;
    assert r.description == (line + "\n" + r.description)[|line| + 1..];
  }

  lemma ExampleIdName(id: string, name: string)
    requires id == "1 " && name == " FOO.BAR"
    ensures '-' !in id && '\n' !in id + "-" + name
  {
  }

  lemma ExampleEdges(s: string, id: string, name: string, description: string)
    requires id == "1 " && name == " FOO.BAR" && description == "desc1\ndesc2"
    requires s == id + "-" + name + "\n" + description
    ensures NoEdgeSpace(s)
  {
    assert s[0] == '1' && s[|s| - 1] == '2';
  }

  /**
   * A block with a heading, a dotted name and two lines of description, given as the text before
   * the `-`, the text after it and the description: the id keeps the space before the `-`, the
   * name loses its dot, the description keeps its line break.
   */
  lemma ParseActExample(s: string, id: string, name: string, description: string)
    requires id == "1 " && name == " FOO.BAR" && description == "desc1\ndesc2"
    requires s == id + "-" + name + "\n" + description
    ensures ParseAct(s, "Madrid", Date(2023, 11, 27))
      == Success(Act("1 ", "FOOBAR", "Madrid", "2023-11-27", "desc1\ndesc2"))
  {
    ExampleEdges(s, id, name, description);
    ExampleIdName(id, name);
    StripNoEdge(s);
    ExampleDate(2023, 11, 27);
    ParseActFields(s, "Madrid", Date(2023, 11, 27), id, name, description);
    ExampleName(name);
  }

  lemma HyphenatedIdName(id: string, name: string)
    requires id == "no" && name == "separator-line"
    ensures '-' !in id && '\n' !in id + "-" + name && NoEdgeSpace(name) && '.' !in name
  {
  }

  lemma HyphenatedEdges(s: string, id: string, name: string, description: string)
    requires id == "no" && name == "separator-line" && description == "desc"
    requires s == id + "-" + name + "\n" + description
    ensures NoEdgeSpace(s)
  {
    assert s[0] == 'n' && s[|s| - 1] == 'c';
  }

  /**
   * A first line with a `-` inside a word (`no-separator-line`) still splits at its first `-`:
   * the id is `no` and the name the rest of the line.
   */
  lemma ParseHyphenatedExample(s: string, id: string, name: string, description: string, regionName: string, date: Date)
    requires id == "no" && name == "separator-line" && description == "desc" && date.Valid()
    requires s == id + "-" + name + "\n" + description
    ensures ParseAct(s, regionName, date)
      == Success(Act("no", "separator-line", regionName, FormatDate(date, '-'), "desc"))
  {
    HyphenatedEdges(s, id, name, description);
    HyphenatedIdName(id, name);
    StripNoEdge(s);
    ParseActFields(s, regionName, date, id, name, description);
    StripNoEdge(name);
    RemoveCharNone(name, '.');
  }

  lemma FirstLineOf(s: string, line: string, rest: string)
    requires s == line + "\n" + rest && '\n' !in line
    ensures FirstLine(s) == line
  {
    assert s[..|line|] == line && s[|line|] == '\n';
  }

  lemma NoSeparatorLine(line: string)
    requires line == "no separator line"
    ensures '\n' !in line && '-' !in line
  {
  }

  lemma NoSeparatorEdges(s: string, line: string, description: string)
    requires line == "no separator line" && description == "desc"
    requires s == line + "\n" + description
    ensures NoEdgeSpace(s)
  {
    assert s[0] == 'n' && s[|s| - 1] == 'c';
  }

  /** A first line without any `-` cannot be split into an id and a name. */
  lemma ParseNoSeparatorExample(s: string, line: string, description: string, regionName: string, date: Date)
    requires line == "no separator line" && description == "desc" && date.Valid()
    requires s == line + "\n" + description
    ensures ParseAct(s, regionName, date) == Failure(MissingSeparator("no separator line"))
  {
    NoSeparatorEdges(s, line, description);
    StripNoEdge(s);
    NoSeparatorLine(line);
    FirstLineOf(s, line, description);
  }
}
