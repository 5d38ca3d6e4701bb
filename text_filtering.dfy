/**
 * Removing boilerplate from the text of a bulletin, either line by line (every line in which a
 * pattern matches) or occurrence by occurrence (every occurrence of a literal pattern). Both
 * count what they remove and report whether the count differs from the expected one; the
 * source logs that difference as a warning, the model returns it.
 */
module TextFiltering {
  import opened Strings

  /** The filtered text, the number of matches counted, and whether it differs from the expected number. */
  datatype Filtered = Filtered(text: string, matches: nat, mismatch: bool)

  /** The lines in which `pattern` finds no match, in their original order. */
  function KeepLines(lines: seq<string>, pattern: string -> bool): (kept: seq<string>)
    ensures |kept| <= |lines|
    ensures forall k :: 0 <= k < |kept| ==> !pattern(kept[k]) && kept[k] in lines
  {
    if lines == [] then []
    else (if pattern(lines[0]) then [] else [lines[0]]) + KeepLines(lines[1..], pattern)
  }

  /** Every non-matching line is kept as often as it occurs, and no matching line is kept. */
  lemma {:induction false} KeepLinesCounts(lines: seq<string>, pattern: string -> bool)
    ensures forall l :: multiset(KeepLines(lines, pattern))[l] == if pattern(l) then 0 else multiset(lines)[l]
  {
    if lines != [] {
      KeepLinesCounts(lines[1..], pattern);
      var head := if pattern(lines[0]) then [] else [lines[0]];
      assert multiset(lines) == multiset([lines[0]]) + multiset(lines[1..]) by {
        assert lines == [lines[0]] + lines[1..];
      }
      var kept, tail := KeepLines(lines, pattern), KeepLines(lines[1..], pattern);
      assert kept == head + tail;
      assert multiset(kept) == multiset(head) + multiset(tail);
      forall l ensures multiset(kept)[l] == if pattern(l) then 0 else multiset(lines)[l] {
        assert multiset(tail)[l] == if pattern(l) then 0 else multiset(lines[1..])[l];
      }
    }
  }

  /** `a` is `b` with some entries left out, the others in the same order. */
  predicate IsSubsequence<T(==)>(a: seq<T>, b: seq<T>)
    decreases |b|
  {
    a == [] || (b != [] && ((a[0] == b[0] && IsSubsequence(a[1..], b[1..])) || IsSubsequence(a, b[1..])))
  }

  /** The kept lines appear in the input in the same order. */
  lemma {:induction false} KeepLinesInOrder(lines: seq<string>, pattern: string -> bool)
    ensures IsSubsequence(KeepLines(lines, pattern), lines)
  {
    if lines != [] {
      KeepLinesInOrder(lines[1..], pattern);
      var kept := KeepLines(lines, pattern);
      if !pattern(lines[0]) {
        assert kept[0] == lines[0] && kept[1..] == KeepLines(lines[1..], pattern);
      } else {
        assert kept == KeepLines(lines[1..], pattern);
      }
    }
  }

  /** Nothing is removed exactly when no line matches. */
  lemma {:induction false} KeepLinesAll(lines: seq<string>, pattern: string -> bool)
    ensures KeepLines(lines, pattern) == lines <==> forall k :: 0 <= k < |lines| ==> !pattern(lines[k])
  {
    if lines != [] {
      KeepLinesAll(lines[1..], pattern);
      if pattern(lines[0]) {
        assert |KeepLines(lines, pattern)| < |lines|;
      }
    }
  }

  /**
   * `drop_lines_with_pattern`: splits the text on "\n", keeps the lines in which `pattern`
   * finds no match, counts the removed lines and joins the kept ones with "\n". The filtered
   * text is returned whether or not the count is the expected one.
   */
  function DropLinesWithPattern(inputString: string, pattern: string -> bool, expected: int): (r: Filtered)
    ensures r.mismatch <==> r.matches != expected
    ensures r.matches <= |Split(inputString, '\n')|
  {
    var lines := Split(inputString, '\n');
    var filtered := KeepLines(lines, pattern);
    var count := |lines| - |filtered|;
    Filtered(Join(filtered, '\n'), count, count != expected)
  }

  /** The lines of the result are the non-matching lines of the input, in their order, so none of them matches. */
  lemma DropLinesLines(inputString: string, pattern: string -> bool, expected: int)
    ensures var r := DropLinesWithPattern(inputString, pattern, expected);
      var kept := KeepLines(Split(inputString, '\n'), pattern);
      (kept != [] ==> Split(r.text, '\n') == kept) && (kept == [] ==> r.text == "")
  {
    var lines := Split(inputString, '\n');
    var kept := KeepLines(lines, pattern);
    if kept != [] {
      forall k | 0 <= k < |kept| ensures '\n' !in kept[k] {
        var j :| 0 <= j < |lines| && lines[j] == kept[k];
      }
      SplitJoin(kept, '\n');
    }
  }

  /** The number of lines in which `pattern` finds a match. */
  function CountMatching(lines: seq<string>, pattern: string -> bool): nat
  {
    if lines == [] then 0 else (if pattern(lines[0]) then 1 else 0) + CountMatching(lines[1..], pattern)
  }

  lemma {:induction false} KeepLinesCount(lines: seq<string>, pattern: string -> bool)
    ensures |KeepLines(lines, pattern)| + CountMatching(lines, pattern) == |lines|
  {
    if lines != [] {
      KeepLinesCount(lines[1..], pattern);
    }
  }

  /**
   * The count is the number of input lines in which the pattern matches; unless every line was
   * dropped, it is also the number of input lines minus the number of lines of the result. The
   * text does not depend on the expected count.
   */
  lemma DropLinesCount(inputString: string, pattern: string -> bool, expected: int)
    ensures var lines := Split(inputString, '\n');
      var r := DropLinesWithPattern(inputString, pattern, expected);
      r.matches == CountMatching(lines, pattern)
      && (r.matches < |lines| ==> |Split(r.text, '\n')| + r.matches == |lines|)
      && forall other: int :: DropLinesWithPattern(inputString, pattern, other).text == r.text
  {
    var lines := Split(inputString, '\n');
    KeepLinesCount(lines, pattern);
    DropLinesLines(inputString, pattern, expected);
  }

  /** The count is 0 exactly when no line matches, and then the input comes back unchanged. */
  lemma DropLinesNoMatch(inputString: string, pattern: string -> bool, expected: int)
    ensures var r := DropLinesWithPattern(inputString, pattern, expected);
      (r.matches == 0 <==> forall l :: l in Split(inputString, '\n') ==> !pattern(l))
      && (r.matches == 0 ==> r.text == inputString)
  {
    var lines := Split(inputString, '\n');
    KeepLinesAll(lines, pattern);
    if |KeepLines(lines, pattern)| == |lines| {
      KeepLinesSameLength(lines, pattern);
      JoinSplit(inputString, '\n');
    }
  }

  /** Keeping as many lines as there are means keeping them all. */
  lemma {:induction false} KeepLinesSameLength(lines: seq<string>, pattern: string -> bool)
    requires |KeepLines(lines, pattern)| == |lines|
    ensures KeepLines(lines, pattern) == lines
  {
    if lines != [] {
      KeepLinesSameLength(lines[1..], pattern);
    }
  }

  /**
   * Dropping the lines of the same pattern twice changes nothing the second time, and the second
   * pass counts no line, unless the first pass removed every line and the pattern matches the
   * empty line that an empty text splits into.
   */
  lemma DropLinesIdempotent(inputString: string, pattern: string -> bool, expected: int)
    ensures var once := DropLinesWithPattern(inputString, pattern, expected);
      var twice := DropLinesWithPattern(once.text, pattern, expected);
      twice.text == once.text
      && twice.matches == if once.text == "" && pattern("") then 1 else 0
  {
    var once := DropLinesWithPattern(inputString, pattern, expected);
    var kept := KeepLines(Split(inputString, '\n'), pattern);
    DropLinesLines(inputString, pattern, expected);
    if kept != [] {
      KeepLinesAll(kept, pattern);
      if once.text == "" {
        assert kept == [""];
      }
    } else {
      assert Split("", '\n') == [""];
    }
  }

  /**
   * Deletes the leftmost non-overlapping occurrences of the non-empty literal `pattern`, scanning
   * from the left, and counts them: what `re.sub(pattern, "", s)` and
   * `len(re.findall(pattern, s))` do for a pattern without metacharacters.
   */
  function RemoveOccurrences(s: string, pattern: string): (r: (string, nat))
    requires pattern != []
    ensures |r.0| == |s| - r.1 * |pattern|
    decreases |s|
  {
    if |s| < |pattern| then (s, 0)
    else if s[..|pattern|] == pattern then
      var (rest, n) := RemoveOccurrences(s[|pattern|..], pattern);
      (rest, n + 1)
    else
      var (rest, n) := RemoveOccurrences(s[1..], pattern);
      ([s[0]] + rest, n)
  }

  lemma OccursShift(s: string, pattern: string, i: nat)
    requires s != []
    ensures OccursAt(s, pattern, i + 1) <==> OccursAt(s[1..], pattern, i)
  {
    if i + 1 + |pattern| <= |s| {
      assert s[1..][i..i + |pattern|] == s[i + 1..i + 1 + |pattern|];
    }
  }

  /** When no occurrence is counted, nothing is removed. */
  lemma {:induction false} RemoveOccurrencesUnchanged(s: string, pattern: string)
    requires pattern != []
    ensures RemoveOccurrences(s, pattern).1 == 0 ==> RemoveOccurrences(s, pattern).0 == s
    decreases |s|
  {
    if |s| >= |pattern| && s[..|pattern|] != pattern {
      RemoveOccurrencesUnchanged(s[1..], pattern);
      assert s == [s[0]] + s[1..];
    }
  }

  /** No occurrence is counted exactly when the pattern does not occur. */
  lemma {:induction false} RemoveOccurrencesNone(s: string, pattern: string)
    requires pattern != []
    ensures RemoveOccurrences(s, pattern).1 == 0 <==> forall i: nat :: !OccursAt(s, pattern, i)
    decreases |s|
  {
    if |s| < |pattern| {
    } else if s[..|pattern|] == pattern {
      assert OccursAt(s, pattern, 0);
    } else {
      RemoveOccurrencesNone(s[1..], pattern);
      if RemoveOccurrences(s, pattern).1 == 0 {
        forall i: nat ensures !OccursAt(s, pattern, i) {
          if i > 0 {
            OccursShift(s, pattern, i - 1);
          }
        }
      } else {
        var i: nat :| OccursAt(s[1..], pattern, i);
        OccursShift(s, pattern, i);
      }
    }
  }

  /**
   * An independent description of deleting a literal pattern from left to right: `s` reads
   * gaps[0] + pattern + gaps[1] + ... + pattern + gaps[n], where no position inside a gap starts
   * an occurrence of the pattern, so every occurrence cut out is the leftmost one that does not
   * overlap the occurrence cut before it.
   */
  predicate Deletion(s: string, pattern: string, gaps: seq<string>)
    requires pattern != []
    decreases |s|
  {
    |gaps| >= 1 && |gaps[0]| <= |s| && s[..|gaps[0]|] == gaps[0]
    && (forall j :: 0 <= j < |gaps[0]| ==> !OccursAt(s, pattern, j))
    && if |gaps| == 1 then |gaps[0]| == |s|
       else OccursAt(s, pattern, |gaps[0]|) && Deletion(s[|gaps[0]| + |pattern|..], pattern, gaps[1..])
  }

  /** Dropping the first character keeps a gap's match with the front of the text. */
  lemma GapShift(s: string, g0: string)
    requires s != [] && g0 != [] && g0[0] == s[0] && |g0| <= |s|
    ensures s[..|g0|] == g0 <==> s[1..][..|g0| - 1] == g0[1..]
  {
    assert s[..|g0|] == [s[0]] + s[1..][..|g0| - 1];
    assert g0 == [g0[0]] + g0[1..];
  }

  /** No occurrence starts in the first n positions exactly when none starts at 0 nor in the first n - 1 after it. */
  lemma NoOccurrenceShift(s: string, pattern: string, n: nat)
    requires s != [] && n >= 1
    ensures (forall j :: 0 <= j < n ==> !OccursAt(s, pattern, j)) <==>
      !OccursAt(s, pattern, 0) && forall j :: 0 <= j < n - 1 ==> !OccursAt(s[1..], pattern, j)
  {
    if forall j :: 0 <= j < n ==> !OccursAt(s, pattern, j) {
      forall j | 0 <= j < n - 1 ensures !OccursAt(s[1..], pattern, j) {
        OccursShift(s, pattern, j);
      }
    }
    if !OccursAt(s, pattern, 0) && forall j :: 0 <= j < n - 1 ==> !OccursAt(s[1..], pattern, j) {
      forall j | 0 < j < n ensures !OccursAt(s, pattern, j) {
        OccursShift(s, pattern, j - 1);
      }
    }
  }

  /** A decomposition whose first gap is not empty is one of the text after its first character. */
  lemma DeletionStep(s: string, pattern: string, gaps: seq<string>)
    requires pattern != [] && s != [] && |gaps| >= 1 && gaps[0] != [] && gaps[0][0] == s[0]
    ensures Deletion(s, pattern, gaps) <==>
      !OccursAt(s, pattern, 0) && Deletion(s[1..], pattern, [gaps[0][1..]] + gaps[1..])
  {
    var g0, h := gaps[0], [gaps[0][1..]] + gaps[1..];
    assert h[0] == g0[1..] && h[1..] == gaps[1..] && |h| == |gaps|;
    NoOccurrenceShift(s, pattern, |g0|);
    if |g0| <= |s| {
      GapShift(s, g0);
      if |gaps| > 1 {
        OccursShift(s, pattern, |g0| - 1);
        if |g0| + |pattern| <= |s| {
          assert s[|g0| + |pattern|..] == s[1..][|g0| - 1 + |pattern|..];
        }
      }
    }
  }

  /** Every text has such a decomposition. */
  lemma {:induction false} DeletionExists(s: string, pattern: string) returns (gaps: seq<string>)
    requires pattern != []
    ensures Deletion(s, pattern, gaps)
    decreases |s|
  {
    if |s| < |pattern| {
      gaps := [s];
    } else if s[..|pattern|] == pattern {
      var rest := DeletionExists(s[|pattern|..], pattern);
      gaps := [[]] + rest;
      assert gaps[1..] == rest;
    } else {
      var rest := DeletionExists(s[1..], pattern);
      gaps := [[s[0]] + rest[0]] + rest[1..];
      assert [gaps[0][1..]] + gaps[1..] == rest;
      DeletionStep(s, pattern, gaps);
    }
  }

  /** Removal past a first character that starts no occurrence keeps that character in front. */
  lemma RemoveSkips(s: string, pattern: string)
    requires pattern != [] && |s| >= |pattern| && !OccursAt(s, pattern, 0)
    ensures RemoveOccurrences(s, pattern)
      == ([s[0]] + RemoveOccurrences(s[1..], pattern).0, RemoveOccurrences(s[1..], pattern).1)
  {
    assert s[..|pattern|] != pattern by {
      assert s[0..|pattern|] == s[..|pattern|];
    }
  }

  /** An occurrence at the front is cut and counted. */
  lemma RemoveCuts(s: string, pattern: string)
    requires pattern != [] && OccursAt(s, pattern, 0)
    ensures RemoveOccurrences(s, pattern)
      == (RemoveOccurrences(s[|pattern|..], pattern).0, RemoveOccurrences(s[|pattern|..], pattern).1 + 1)
  {
    assert s[0..|pattern|] == s[..|pattern|];
  }

  /** Putting back the first character of the first gap gives the gaps' concatenation. */
  lemma ConcatFirst(gaps: seq<string>, c: char)
    requires |gaps| >= 1 && gaps[0] != [] && gaps[0][0] == c
    ensures [c] + Concat([gaps[0][1..]] + gaps[1..]) == Concat(gaps)
  {
    var h := [gaps[0][1..]] + gaps[1..];
    var tail, rest := gaps[0][1..], Concat(gaps[1..]);
    assert h[1..] == gaps[1..];
    assert Concat(h) == tail + rest;
    assert Concat(gaps) == gaps[0] + rest;
    assert [c] + tail == gaps[0];
    AppendAssoc([c], tail, rest);
  }

  lemma AppendAssoc<T>(a: seq<T>, b: seq<T>, c: seq<T>)
    ensures a + (b + c) == (a + b) + c
  {
  }

  /** The step of `DeletionRemoves` past a first character that starts no occurrence. */
  lemma RemoveKeepsFirst(s: string, pattern: string, gaps: seq<string>)
    requires pattern != [] && |s| >= |pattern| && !OccursAt(s, pattern, 0)
    requires |gaps| >= 1 && gaps[0] != [] && gaps[0][0] == s[0]
    requires RemoveOccurrences(s[1..], pattern) == (Concat([gaps[0][1..]] + gaps[1..]), |gaps| - 1)
    ensures RemoveOccurrences(s, pattern) == (Concat(gaps), |gaps| - 1)
  {
    RemoveSkips(s, pattern);
    ConcatFirst(gaps, s[0]);
  }

  /** The step of `DeletionRemoves` over an occurrence at the front. */
  lemma RemoveCutsFirst(s: string, pattern: string, gaps: seq<string>)
    requires pattern != [] && OccursAt(s, pattern, 0) && |gaps| >= 2 && gaps[0] == []
    requires RemoveOccurrences(s[|pattern|..], pattern) == (Concat(gaps[1..]), |gaps| - 2)
    ensures RemoveOccurrences(s, pattern) == (Concat(gaps), |gaps| - 1)
  {
    RemoveCuts(s, pattern);
    assert Concat(gaps) == gaps[0] + Concat(gaps[1..]) == Concat(gaps[1..]);
  }

  /** A text shorter than the pattern has the single gap that is the whole text. */
  lemma DeletionShort(s: string, pattern: string, gaps: seq<string>)
    requires pattern != [] && |s| < |pattern| && Deletion(s, pattern, gaps)
    ensures gaps == [s]
  {
    assert |gaps| == 1;
    assert gaps[0] == s[..|gaps[0]|] == s;
  }

  lemma ConcatOne(s: string)
    ensures Concat([s]) == s
  {
    assert [s][1..] == [];
  }

  /**
   * Deletion removes exactly the occurrences a decomposition cuts out: the text left is the
   * gaps one after the other, and the count is one less than the number of gaps.
   */
  lemma {:induction false} DeletionRemoves(s: string, pattern: string, gaps: seq<string>)
    requires pattern != [] && Deletion(s, pattern, gaps)
    ensures RemoveOccurrences(s, pattern) == (Concat(gaps), |gaps| - 1)
    decreases |s|, 1
  {
    if |s| < |pattern| {
      DeletionShort(s, pattern, gaps);
      ConcatOne(s);
    } else if gaps[0] != [] {
      DeletionRemovesSkip(s, pattern, gaps);
    } else {
      DeletionRemovesCut(s, pattern, gaps);
    }
  }

  /** `DeletionRemoves` when the first gap is not empty and the text is as long as the pattern. */
  lemma {:induction false} DeletionRemovesSkip(s: string, pattern: string, gaps: seq<string>)
    requires pattern != [] && Deletion(s, pattern, gaps) && gaps[0] != [] && |s| >= |pattern|
    ensures RemoveOccurrences(s, pattern) == (Concat(gaps), |gaps| - 1)
    decreases |s|, 0
  {
    var h := [gaps[0][1..]] + gaps[1..];
    DeletionStep(s, pattern, gaps);
    DeletionRemoves(s[1..], pattern, h);
    RemoveKeepsFirst(s, pattern, gaps);
  }

  /** `DeletionRemoves` when the text starts with an occurrence. */
  lemma {:induction false} DeletionRemovesCut(s: string, pattern: string, gaps: seq<string>)
    requires pattern != [] && Deletion(s, pattern, gaps) && gaps[0] == [] && |gaps| >= 2
    ensures RemoveOccurrences(s, pattern) == (Concat(gaps), |gaps| - 1)
    decreases |s|, 0
  {
    var t := s[|pattern|..];
    assert OccursAt(s, pattern, 0) && Deletion(t, pattern, gaps[1..]);
    DeletionRemoves(t, pattern, gaps[1..]);
    RemoveCutsFirst(s, pattern, gaps);
  }

  /**
   * `drop_pattern` for a literal pattern: the text without the pattern's occurrences and their
   * number, counted in the input. An empty pattern matches |s| + 1 times and removes nothing,
   * as Python's `re` does.
   */
  function DropPattern(inputString: string, pattern: string, expected: int): (r: Filtered)
    ensures r.mismatch <==> r.matches != expected
    ensures |r.text| == |inputString| - r.matches * |pattern|
    ensures r.matches == 0 ==> r.text == inputString
    ensures r.matches == 0 <==> pattern != [] && forall i: nat :: !OccursAt(inputString, pattern, i)
  {
    if pattern == [] then
      Filtered(inputString, |inputString| + 1, |inputString| + 1 != expected)
    else
      RemoveOccurrencesNone(inputString, pattern);
      RemoveOccurrencesUnchanged(inputString, pattern);
      var (text, n) := RemoveOccurrences(inputString, pattern);
      Filtered(text, n, n != expected)
  }

  /**
   * With a non-empty pattern, `drop_pattern` deletes from left to right: for the decomposition
   * of the input into gaps around the occurrences it cuts out (there is one, `DeletionExists`),
   * the text is the gaps one after the other and the count is the number of occurrences cut.
   */
  lemma DropPatternDeletes(inputString: string, pattern: string, expected: int, gaps: seq<string>)
    requires pattern != [] && Deletion(inputString, pattern, gaps)
    ensures DropPattern(inputString, pattern, expected).text == Concat(gaps)
    ensures DropPattern(inputString, pattern, expected).matches == |gaps| - 1
  {
    DeletionRemoves(inputString, pattern, gaps);
  }

  /** The line patterns of the examples below: `re.search("ABC", line)` finds a match. */
  predicate ContainsAbc(line: string) { Find(line, "ABC", 0).Some? }

  lemma SplitExample()
    ensures Split("x\nABC\ny\nABC\nz", '\n') == ["x", "ABC", "y", "ABC", "z"]
  {
    var lines := ["x", "ABC", "y", "ABC", "z"];
    assert Join(lines, '\n') == "x\nABC\ny\nABC\nz";
    SplitJoin(lines, '\n');
  }

  lemma KeepLinesExample()
    ensures KeepLines(["x", "ABC", "y", "ABC", "z"], ContainsAbc) == ["x", "y", "z"]
  {
    assert OccursAt("ABC", "ABC", 0);
  }

  /** Two lines hold the pattern, two are expected: they go, and no warning is due. */
  lemma DropLinesExample()
    ensures DropLinesWithPattern("x\nABC\ny\nABC\nz", ContainsAbc, 2) == Filtered("x\ny\nz", 2, false)
  {
    SplitExample();
    KeepLinesExample();
    JoinExample();
  }

  lemma JoinExample()
    ensures Join(["x", "y", "z"], '\n') == "x\ny\nz"
  {
  }

  /** Two occurrences where one is expected: both go, and the difference is reported. */
  lemma DropPatternExample()
    ensures DropPattern("title title", "title", 1) == Filtered(" ", 2, true)
  {
    var s := "title title";
    assert s[..5] == "title" && s[5..] == " title";
    assert " title"[..5] != "title" && " title"[1..] == "title";
    assert "title"[..5] == "title" && "title"[5..] == "";
    assert RemoveOccurrences("", "title") == ("", 0);
    assert RemoveOccurrences("title", "title") == ("", 1);
    assert |" title"| >= 5 && " title"[0] == ' ' && [' '] + "" == " ";
    assert RemoveOccurrences(" title", "title") == (" ", 1);
    assert RemoveOccurrences(s, "title") == (" ", 2);
  }
}
