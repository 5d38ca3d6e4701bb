/**
 * The crawler's pipeline for the text of one bulletin PDF: the removal of headers and footnotes,
 * the region name on the first line, the segmentation of the rest into acts at their heading
 * markers, and the parsing of each act into a record. The text and the page count come from the
 * PDF reader and are parameters here.
 */
module Crawler {
  import opened Wrappers
  import opened Strings
  import opened Dates
  import opened TextFiltering

  /* ---------------------------------------------------------------------------------------- */
  /* Headers and footnotes                                                                    */
  /* ---------------------------------------------------------------------------------------- */

  /** The boilerplate patterns, named after the source's variables. */
  datatype RuleName = FinalFootnote | Header | Subheader | Footnote1 | Footnote2 | SectionHeader

  /**
   * The five line patterns of the bulletin's boilerplate, each as a predicate on one line:
   * whether `re.search` finds the pattern in that line. Their regular expressions are not
   * modelled.
   */
  datatype LinePatterns = LinePatterns(
    finalFootnote: string -> bool,
    header: string -> bool,
    subheader: string -> bool,
    footnote1: string -> bool,
    footnote2: string -> bool)

  /** A line pattern with the number of lines it is expected to remove. */
  datatype LineRule = LineRule(name: RuleName, pattern: string -> bool, expected: int)

  /** A count that differs from the expected one: what the source logs as a warning. */
  datatype Diagnostic = Diagnostic(rule: RuleName, expected: int, actual: nat)

  /** A text with the diagnostics gathered while cleaning it. */
  datatype Cleaning = Cleaning(text: string, diagnostics: seq<Diagnostic>)

  /** The title of the section, removed wherever it occurs; it spans three lines. */
  const SectionTitle: string := "SECCIÓN PRIMERA\n Empresarios\n Actos inscritos\n"

  /** The line rules in the order they are applied: the final footnote once, the others once per page. */
  function LineRules(p: LinePatterns, numOfPages: int): (rules: seq<LineRule>)
    ensures |rules| == 5
    ensures rules[0].name == FinalFootnote && rules[0].expected == 1
    ensures forall k :: 1 <= k < 5 ==> rules[k].expected == numOfPages
    ensures rules[1].name == Header && rules[2].name == Subheader
      && rules[3].name == Footnote1 && rules[4].name == Footnote2
  {
    [ LineRule(FinalFootnote, p.finalFootnote, 1),
      LineRule(Header, p.header, numOfPages),
      LineRule(Subheader, p.subheader, numOfPages),
      LineRule(Footnote1, p.footnote1, numOfPages),
      LineRule(Footnote2, p.footnote2, numOfPages) ]
  }

  /** The diagnostic a filter's result calls for: one exactly when its count is not the expected one. */
  function Report(name: RuleName, expected: int, f: Filtered): (d: seq<Diagnostic>)
    requires f.mismatch <==> f.matches != expected
    ensures |d| <= 1
    ensures d == [] <==> f.matches == expected
    ensures forall x :: x in d ==> x == Diagnostic(name, expected, f.matches) && x.actual != x.expected
    ensures forall x :: x in d <==> f.matches != expected && x == Diagnostic(name, expected, f.matches)
  {
    if f.mismatch then [Diagnostic(name, expected, f.matches)] else []
  }

  /** One iteration of the loop: the rule removes its lines from the text so far, and its diagnostic, if any, is added. */
  function Step(before: Cleaning, rule: LineRule): (after: Cleaning)
    ensures |after.diagnostics| <= |before.diagnostics| + 1
  {
    var f := DropLinesWithPattern(before.text, rule.pattern, rule.expected);
    Cleaning(f.text, before.diagnostics + Report(rule.name, rule.expected, f))
  }

  /**
   * The rules applied in turn to `c`, the first to its text and each later one to the output
   * of the one before, with each rule's diagnostic appended in the same order.
   */
  function ApplyLineRules(rules: seq<LineRule>, c: Cleaning): (after: Cleaning)
    ensures |after.diagnostics| <= |c.diagnostics| + |rules|
    ensures c.diagnostics <= after.diagnostics
    ensures forall d :: d in after.diagnostics[|c.diagnostics|..] ==> d.actual != d.expected
    decreases |rules|
  {
    if rules == [] then c else ApplyLineRules(rules[1..], Step(c, rules[0]))
  }

  /**
   * What `drop_headers_and_footnotes` computes: the five line rules, the removal of the section
   * title, and the stripping of the whitespace at both ends.
   */
  function CleanText(pdfText: string, numOfPages: int, p: LinePatterns): (c: Cleaning)
    ensures NoEdgeSpace(c.text)
    ensures |c.diagnostics| <= 6
    ensures forall d :: d in c.diagnostics ==> d.actual != d.expected
  {
    var lines := ApplyLineRules(LineRules(p, numOfPages), Cleaning(pdfText, []));
    var f := DropPattern(lines.text, SectionTitle, 1);
    Cleaning(Strip(f.text), lines.diagnostics + Report(SectionHeader, 1, f))
  }

  /**
   * The order of the line rules: final footnote, header, subheader and the two footnotes, each
   * applied to the previous one's output, starting from the text with no diagnostics.
   */
  lemma {:induction false} LineRulesOrder(pdfText: string, numOfPages: int, p: LinePatterns)
    ensures ApplyLineRules(LineRules(p, numOfPages), Cleaning(pdfText, []))
      == Step(Step(Step(Step(Step(Cleaning(pdfText, []),
           LineRule(FinalFootnote, p.finalFootnote, 1)),
           LineRule(Header, p.header, numOfPages)),
           LineRule(Subheader, p.subheader, numOfPages)),
           LineRule(Footnote1, p.footnote1, numOfPages)),
           LineRule(Footnote2, p.footnote2, numOfPages))
  {
    var rules := LineRules(p, numOfPages);
    var c1 := Step(Cleaning(pdfText, []), rules[0]);
    var c2 := Step(c1, rules[1]);
    var c3 := Step(c2, rules[2]);
    var c4 := Step(c3, rules[3]);
    assert rules[1..][1..] == rules[2..];
    assert rules[2..][1..] == rules[3..];
    assert rules[3..][1..] == rules[4..];
    assert rules[4..][1..] == [];
    assert ApplyLineRules(rules[4..], c4) == Step(c4, rules[4]);
    assert ApplyLineRules(rules[3..], c3) == ApplyLineRules(rules[4..], c4);
    assert ApplyLineRules(rules[2..], c2) == ApplyLineRules(rules[3..], c3);
    assert ApplyLineRules(rules[1..], c1) == ApplyLineRules(rules[2..], c2);
  }

  /**
   * The diagnostics of the whole cleaning, in order: one report per rule, each about the count
   * of that rule on the text the rules before it left.
   */
  lemma CleanTextReports(pdfText: string, numOfPages: int, p: LinePatterns)
    ensures
      var f1 := DropLinesWithPattern(pdfText, p.finalFootnote, 1);
      var f2 := DropLinesWithPattern(f1.text, p.header, numOfPages);
      var f3 := DropLinesWithPattern(f2.text, p.subheader, numOfPages);
      var f4 := DropLinesWithPattern(f3.text, p.footnote1, numOfPages);
      var f5 := DropLinesWithPattern(f4.text, p.footnote2, numOfPages);
      var f6 := DropPattern(f5.text, SectionTitle, 1);
      var c := CleanText(pdfText, numOfPages, p);
      c.text == Strip(f6.text)
      && c.diagnostics == Report(FinalFootnote, 1, f1) + Report(Header, numOfPages, f2)
        + Report(Subheader, numOfPages, f3) + Report(Footnote1, numOfPages, f4)
        + Report(Footnote2, numOfPages, f5) + Report(SectionHeader, 1, f6)
  {
    var f1 := DropLinesWithPattern(pdfText, p.finalFootnote, 1);
    var f2 := DropLinesWithPattern(f1.text, p.header, numOfPages);
    var f3 := DropLinesWithPattern(f2.text, p.subheader, numOfPages);
    var f4 := DropLinesWithPattern(f3.text, p.footnote1, numOfPages);
    var f5 := DropLinesWithPattern(f4.text, p.footnote2, numOfPages);
    var r1, r2, r3 := Report(FinalFootnote, 1, f1), Report(Header, numOfPages, f2), Report(Subheader, numOfPages, f3);
    var r4, r5 := Report(Footnote1, numOfPages, f4), Report(Footnote2, numOfPages, f5);
    var c1 := Step(Cleaning(pdfText, []), LineRule(FinalFootnote, p.finalFootnote, 1));
    var c2 := Step(c1, LineRule(Header, p.header, numOfPages));
    var c3 := Step(c2, LineRule(Subheader, p.subheader, numOfPages));
    var c4 := Step(c3, LineRule(Footnote1, p.footnote1, numOfPages));
    var c5 := Step(c4, LineRule(Footnote2, p.footnote2, numOfPages));
    assert c1 == Cleaning(f1.text, r1) by {
      StepReport(Cleaning(pdfText, []), LineRule(FinalFootnote, p.finalFootnote, 1), f1);
      assert [] + r1 == r1;
    }
    assert c2 == Cleaning(f2.text, r1 + r2) by {
      StepReport(c1, LineRule(Header, p.header, numOfPages), f2);
    }
    assert c3 == Cleaning(f3.text, r1 + r2 + r3) by {
      StepReport(c2, LineRule(Subheader, p.subheader, numOfPages), f3);
    }
    assert c4 == Cleaning(f4.text, r1 + r2 + r3 + r4) by {
      StepReport(c3, LineRule(Footnote1, p.footnote1, numOfPages), f4);
    }
    assert c5 == Cleaning(f5.text, r1 + r2 + r3 + r4 + r5) by {
      StepReport(c4, LineRule(Footnote2, p.footnote2, numOfPages), f5);
    }
    LineRulesOrder(pdfText, numOfPages, p);
  }

  /** One step removes the rule's lines and adds its report. */
  lemma StepReport(before: Cleaning, rule: LineRule, f: Filtered)
    requires f == DropLinesWithPattern(before.text, rule.pattern, rule.expected)
    ensures Step(before, rule) == Cleaning(f.text, before.diagnostics + Report(rule.name, rule.expected, f))
  {
  }

  /** Six reports, one per rule in order, hold exactly the diagnostics of the rules whose count is off. */
  lemma ReportsMembers(f1: Filtered, f2: Filtered, f3: Filtered, f4: Filtered, f5: Filtered, f6: Filtered,
                       numOfPages: int)
    requires f1.mismatch <==> f1.matches != 1
    requires f2.mismatch <==> f2.matches != numOfPages
    requires f3.mismatch <==> f3.matches != numOfPages
    requires f4.mismatch <==> f4.matches != numOfPages
    requires f5.mismatch <==> f5.matches != numOfPages
    requires f6.mismatch <==> f6.matches != 1
    ensures
      var ds := Report(FinalFootnote, 1, f1) + Report(Header, numOfPages, f2) + Report(Subheader, numOfPages, f3)
        + Report(Footnote1, numOfPages, f4) + Report(Footnote2, numOfPages, f5) + Report(SectionHeader, 1, f6);
      forall d :: d in ds <==>
        || (f1.matches != 1 && d == Diagnostic(FinalFootnote, 1, f1.matches))
        || (f2.matches != numOfPages && d == Diagnostic(Header, numOfPages, f2.matches))
        || (f3.matches != numOfPages && d == Diagnostic(Subheader, numOfPages, f3.matches))
        || (f4.matches != numOfPages && d == Diagnostic(Footnote1, numOfPages, f4.matches))
        || (f5.matches != numOfPages && d == Diagnostic(Footnote2, numOfPages, f5.matches))
        || (f6.matches != 1 && d == Diagnostic(SectionHeader, 1, f6.matches))
  {
  }

  /**
   * Every rule is diagnosed exactly when its own count is off: a diagnostic is present exactly
   * when it names a rule whose count, on the text the rules before it left, is not the expected
   * one, and carries that count.
   */
  lemma CleanTextDiagnosed(pdfText: string, numOfPages: int, p: LinePatterns)
    ensures
      var f1 := DropLinesWithPattern(pdfText, p.finalFootnote, 1);
      var f2 := DropLinesWithPattern(f1.text, p.header, numOfPages);
      var f3 := DropLinesWithPattern(f2.text, p.subheader, numOfPages);
      var f4 := DropLinesWithPattern(f3.text, p.footnote1, numOfPages);
      var f5 := DropLinesWithPattern(f4.text, p.footnote2, numOfPages);
      var f6 := DropPattern(f5.text, SectionTitle, 1);
      var ds := CleanText(pdfText, numOfPages, p).diagnostics;
      forall d :: d in ds <==>
        || (f1.matches != 1 && d == Diagnostic(FinalFootnote, 1, f1.matches))
        || (f2.matches != numOfPages && d == Diagnostic(Header, numOfPages, f2.matches))
        || (f3.matches != numOfPages && d == Diagnostic(Subheader, numOfPages, f3.matches))
        || (f4.matches != numOfPages && d == Diagnostic(Footnote1, numOfPages, f4.matches))
        || (f5.matches != numOfPages && d == Diagnostic(Footnote2, numOfPages, f5.matches))
        || (f6.matches != 1 && d == Diagnostic(SectionHeader, 1, f6.matches))
  {
    var f1 := DropLinesWithPattern(pdfText, p.finalFootnote, 1);
    var f2 := DropLinesWithPattern(f1.text, p.header, numOfPages);
    var f3 := DropLinesWithPattern(f2.text, p.subheader, numOfPages);
    var f4 := DropLinesWithPattern(f3.text, p.footnote1, numOfPages);
    var f5 := DropLinesWithPattern(f4.text, p.footnote2, numOfPages);
    var f6 := DropPattern(f5.text, SectionTitle, 1);
    CleanTextReports(pdfText, numOfPages, p);
    ReportsMembers(f1, f2, f3, f4, f5, f6, numOfPages);
  }

  /** No line of `text` matches the pattern of any of `rules`, or `text` is empty. */
  predicate Cleared(text: string, rules: seq<LineRule>)
  {
    text == "" || forall l, k :: l in Split(text, '\n') && 0 <= k < |rules| ==> !rules[k].pattern(l)
  }

  /** A step keeps only lines of its input that fail its own pattern. */
  lemma StepClears(c: Cleaning, rule: LineRule, done: seq<LineRule>)
    requires Cleared(c.text, done)
    ensures Cleared(Step(c, rule).text, done + [rule])
  {
    var lines := Split(c.text, '\n');
    var kept := KeepLines(lines, rule.pattern);
    var after := Step(c, rule).text;
    DropLinesLines(c.text, rule.pattern, rule.expected);
    if kept != [] && c.text == "" {
      assert lines == [""] by { JoinSplit(c.text, '\n'); }
      assert kept == [""];
      JoinSplit(after, '\n');
    } else if kept != [] {
      forall l, k | l in Split(after, '\n') && 0 <= k < |done + [rule]|
        ensures !(done + [rule])[k].pattern(l)
      {
        var j :| 0 <= j < |kept| && kept[j] == l;
        if k < |done| {
          assert (done + [rule])[k] == done[k];
        }
      }
    }
  }

  /**
   * After the rules have run, no remaining line matches the pattern of any of them: a rule
   * applied later cannot bring back a line an earlier one dropped.
   */
  lemma {:induction false} ApplyLineRulesClears(rules: seq<LineRule>, c: Cleaning, done: seq<LineRule>)
    requires Cleared(c.text, done)
    ensures Cleared(ApplyLineRules(rules, c).text, done + rules)
    decreases |rules|
  {
    if rules == [] {
      assert done + rules == done;
    } else {
      StepClears(c, rules[0], done);
      ApplyLineRulesClears(rules[1..], Step(c, rules[0]), done + [rules[0]]);
      assert done + [rules[0]] + rules[1..] == done + rules;
    }
  }

  /** No line left by the five line rules of the bulletin matches any of their patterns. */
  lemma LineRulesClear(pdfText: string, numOfPages: int, p: LinePatterns)
    ensures var t := ApplyLineRules(LineRules(p, numOfPages), Cleaning(pdfText, [])).text;
      t == "" || forall l :: l in Split(t, '\n') ==>
        !p.finalFootnote(l) && !p.header(l) && !p.subheader(l) && !p.footnote1(l) && !p.footnote2(l)
  {
    var rules := LineRules(p, numOfPages);
    ApplyLineRulesClears(rules, Cleaning(pdfText, []), []);
    assert [] + rules == rules;
    var t := ApplyLineRules(rules, Cleaning(pdfText, [])).text;
    if t != "" {
      forall l | l in Split(t, '\n')
        ensures !p.finalFootnote(l) && !p.header(l) && !p.subheader(l) && !p.footnote1(l) && !p.footnote2(l)
      {
        assert !rules[0].pattern(l) && !rules[1].pattern(l) && !rules[2].pattern(l);
        assert !rules[3].pattern(l) && !rules[4].pattern(l);
      }
    }
  }

  /**
   * `drop_headers_and_footnotes`: applies the line rules in a loop, reassigning the text at each
   * step, then removes the section title and strips the result, which therefore neither starts
   * nor ends with whitespace.
   */
  method DropHeadersAndFootnotes(pdfText: string, numOfPages: int, p: LinePatterns)
    returns (cleaned: string, diagnostics: seq<Diagnostic>)
    ensures Cleaning(cleaned, diagnostics) == CleanText(pdfText, numOfPages, p)
    ensures NoEdgeSpace(cleaned)
    ensures forall d :: d in diagnostics ==> d.actual != d.expected
  {
    var rules := LineRules(p, numOfPages);
    var resultText := pdfText;
    diagnostics := [];
    for i := 0 to |rules|
      invariant ApplyLineRules(rules[i..], Cleaning(resultText, diagnostics))
        == ApplyLineRules(rules, Cleaning(pdfText, []))
    {
      var rule := rules[i];
      var f := DropLinesWithPattern(resultText, rule.pattern, rule.expected);
      assert rules[i..][1..] == rules[i + 1..];
      resultText := f.text;
      diagnostics := diagnostics + Report(rule.name, rule.expected, f);
    }
    var f := DropPattern(resultText, SectionTitle, 1);
    cleaned := Strip(f.text);
    diagnostics := diagnostics + Report(SectionHeader, 1, f);
  }

  /* ---------------------------------------------------------------------------------------- */
  /* Segmentation into acts                                                                   */
  /* ---------------------------------------------------------------------------------------- */

  /**
   * The heading of an act as the marker pattern describes it: a line break, one or more ASCII
   * digits, `" - "`, and one or more capital letters A to Z.
   */
  predicate IsMarker(m: string)
  {
    exists j :: 2 <= j && j + 4 <= |m| && m[0] == '\n' && AllDigits(m[1..j]) && m[j..j + 3] == " - " && AllUpper(m[j + 3..])
  }

  /** The end of the run of characters satisfying `p` that starts at `k`. */
  function RunEnd(s: string, k: nat, p: char -> bool): (n: nat)
    requires k <= |s|
    ensures k <= n <= |s|
    ensures forall t :: k <= t < n ==> p(s[t])
    ensures n < |s| ==> !p(s[n])
    decreases |s| - k
  {
    if k == |s| || !p(s[k]) then k else RunEnd(s, k + 1, p)
  }

  /** A run end is determined by the facts RunEnd promises. */
  lemma RunEndAt(s: string, k: nat, p: char -> bool, n: nat)
    requires k <= n <= |s|
    requires forall t :: k <= t < n ==> p(s[t])
    requires n < |s| ==> !p(s[n])
    ensures RunEnd(s, k, p) == n
  {
  }

  /**
   * The greedy matcher of the marker at index `i` of `s`: where the match ends, or None. The
   * digits and the capitals are each taken as far as they go.
   */
  function MarkerEnd(s: string, i: nat): (r: Option<nat>)
    requires i <= |s|
    ensures r.Some? ==> i < r.value <= |s|
  {
    if i < |s| && s[i] == '\n' then
      var j := RunEnd(s, i + 1, IsDigit);
      if i + 1 < j && j + 3 <= |s| && s[j..j + 3] == " - " then
        var e := RunEnd(s, j + 3, IsUpper);
        if j + 3 < e then Some(e) else None
      else None
    else None
  }

  /** What the matcher finds is a marker that one more capital would not extend. */
  lemma MarkerEndSound(s: string, i: nat)
    requires i <= |s| && MarkerEnd(s, i).Some?
    ensures var e := MarkerEnd(s, i).value; IsMarker(s[i..e]) && (e == |s| || !IsUpper(s[e]))
  {
    var e := MarkerEnd(s, i).value;
    var m := s[i..e];
    var j := RunEnd(s, i + 1, IsDigit);
    var d := j - i;
    assert m[d..d + 3] == s[j..j + 3];
    var digits, capitals := m[1..d], m[d + 3..];
    assert AllDigits(digits) by {
      forall t | 0 <= t < |digits| ensures IsDigit(digits[t]) { assert digits[t] == s[i + 1 + t]; }
    }
    assert AllUpper(capitals) by {
      forall t | 0 <= t < |capitals| ensures IsUpper(capitals[t]) { assert capitals[t] == s[j + 3 + t]; }
    }
    assert 2 <= d && d + 4 <= |m| && m[0] == '\n';
  }

  lemma DigitsSlice(s: string, a: nat, b: nat)
    requires a <= b <= |s|
    ensures AllDigits(s[a..b]) <==> forall t :: a <= t < b ==> IsDigit(s[t])
  {
    if AllDigits(s[a..b]) {
      forall t | a <= t < b ensures IsDigit(s[t]) { assert s[t] == s[a..b][t - a]; }
    }
  }

  lemma UpperSlice(s: string, a: nat, b: nat)
    requires a <= b <= |s|
    ensures AllUpper(s[a..b]) <==> forall t :: a <= t < b ==> IsUpper(s[t])
  {
    if AllUpper(s[a..b]) {
      forall t | a <= t < b ensures IsUpper(s[t]) { assert s[t] == s[a..b][t - a]; }
    }
  }

  lemma SliceOfSlice(s: string, i: nat, e: nat, a: nat, b: nat)
    requires i <= e <= |s| && a <= b <= e - i
    ensures s[i..e][a..b] == s[i + a..i + b]
  {
    assert forall t :: 0 <= t < b - a ==> s[i..e][a..b][t] == s[i + a..i + b][t];
  }

  /** A marker at `i` that one more capital would not extend is what the matcher finds. */
  lemma MarkerEndComplete(s: string, i: nat, e: nat)
    requires i < e <= |s| && IsMarker(s[i..e]) && (e == |s| || !IsUpper(s[e]))
    ensures MarkerEnd(s, i) == Some(e)
  {
    var d := MarkerDigits(s[i..e]);
    MarkerDigitsAt(s, i, e, d);
    MarkerCapitalsAt(s, i, e, d);
  }

  /** The digits of a marker found at `i` are the run of digits after the line break at `i`. */
  lemma MarkerDigitsAt(s: string, i: nat, e: nat, d: nat)
    requires i < e <= |s| && 2 <= d && d + 4 <= e - i
    requires s[i..e][0] == '\n' && AllDigits(s[i..e][1..d]) && s[i..e][d..d + 3] == " - "
    ensures s[i] == '\n' && RunEnd(s, i + 1, IsDigit) == i + d && s[i + d..i + d + 3] == " - "
  {
    assert s[i] == s[i..e][0];
    SliceOfSlice(s, i, e, 1, d);
    DigitsSlice(s, i + 1, i + d);
    assert forall t :: i + 1 <= t < i + d ==> IsDigit(s[t]);
    SliceOfSlice(s, i, e, d, d + 3);
    assert s[i + d] == s[i + d..i + d + 3][0] == ' ';
    RunEndAt(s, i + 1, IsDigit, i + d);
  }

  /** The capitals of a marker that one more capital would not extend run up to its end. */
  lemma MarkerCapitalsAt(s: string, i: nat, e: nat, d: nat)
    requires i < e <= |s| && d + 4 <= e - i && AllUpper(s[i..e][d + 3..]) && (e == |s| || !IsUpper(s[e]))
    ensures RunEnd(s, i + d + 3, IsUpper) == e
  {
    SliceOfSlice(s, i, e, d + 3, e - i);
    assert s[i..e][d + 3..] == s[i..e][d + 3..e - i];
    UpperSlice(s, i + d + 3, e);
    RunEndAt(s, i + d + 3, IsUpper, e);
  }

  /**
   * The matcher finds the marker at `i` ending at `e` exactly when `s[i..e]` is a marker that
   * cannot be extended by one more capital.
   */
  lemma MarkerEndCorrect(s: string, i: nat, e: nat)
    requires i < e <= |s|
    ensures MarkerEnd(s, i) == Some(e) <==> IsMarker(s[i..e]) && (e == |s| || !IsUpper(s[e]))
  {
    if MarkerEnd(s, i) == Some(e) {
      MarkerEndSound(s, i);
    }
    if IsMarker(s[i..e]) && (e == |s| || !IsUpper(s[e])) {
      MarkerEndComplete(s, i, e);
    }
  }

  /** The matcher finds nothing at `i` exactly when no marker starts there. */
  lemma MarkerEndNone(s: string, i: nat)
    requires i <= |s|
    ensures MarkerEnd(s, i).None? <==> forall e :: i < e <= |s| ==> !IsMarker(s[i..e])
  {
    if MarkerEnd(s, i).Some? {
      MarkerEndSound(s, i);
    }
    forall e | i < e <= |s| && IsMarker(s[i..e]) ensures MarkerEnd(s, i).Some? {
      var d := MarkerDigits(s[i..e]);
      MarkerDigitsAt(s, i, e, d);
      assert s[i + d + 3] == s[i..e][d + 3..][0];
    }
  }

  /** The leftmost marker match at or after `from`: where `re.split` cuts next. */
  function NextMarker(s: string, from: nat): (r: Option<(nat, nat)>)
    requires from <= |s|
    ensures r.Some? ==> from <= r.value.0 < r.value.1 <= |s| && MarkerEnd(s, r.value.0) == Some(r.value.1)
    ensures r.Some? ==> forall j :: from <= j < r.value.0 ==> MarkerEnd(s, j).None?
    ensures r.None? ==> forall j :: from <= j <= |s| ==> MarkerEnd(s, j).None?
    decreases |s| - from
  {
    var m := MarkerEnd(s, from);
    if m.Some? then Some((from, m.value))
    else if from == |s| then None
    else NextMarker(s, from + 1)
  }

  /** The elements at even indices, `xs[0::2]`. */
  function Evens<T>(xs: seq<T>): (r: seq<T>)
    ensures |r| == (|xs| + 1) / 2
    ensures forall k :: 0 <= k < |r| ==> r[k] == xs[2 * k]
  {
    if |xs| <= 1 then xs else [xs[0]] + Evens(xs[2..])
  }

  /** The elements at odd indices, `xs[1::2]`. */
  function Odds<T>(xs: seq<T>): (r: seq<T>)
    ensures |r| == |xs| / 2
    ensures forall k :: 0 <= k < |r| ==> r[k] == xs[2 * k + 1]
  {
    if |xs| <= 1 then [] else [xs[1]] + Odds(xs[2..])
  }

  /** Dropping the first element swaps the two strides. */
  lemma {:induction false} StridesShift<T>(xs: seq<T>)
    requires xs != []
    ensures Evens(xs[1..]) == Odds(xs) && Odds(xs[1..]) == Evens(xs)[1..]
  {
  }

  /** Two leading elements contribute one to each stride. */
  lemma StridesCons2<T>(a: T, b: T, rest: seq<T>)
    ensures Evens([a, b] + rest) == [a] + Evens(rest) && Odds([a, b] + rest) == [b] + Odds(rest)
  {
    assert ([a, b] + rest)[2..] == rest;
  }

  lemma ConcatCons2(a: string, b: string, rest: seq<string>)
    ensures Concat([a, b] + rest) == a + b + Concat(rest)
  {
    assert ([a, b] + rest)[1..] == [b] + rest;
    assert ([b] + rest)[1..] == rest;
  }

  /**
   * `re.split` with the capturing marker, from index `from`: the text before each match, the
   * match itself, and the text after the last match. Markers are found left to right and do not
   * overlap.
   */
  function SplitOnMarkers(s: string, from: nat): (parts: seq<string>)
    requires from <= |s|
    ensures |parts| % 2 == 1
    ensures forall m :: m in Odds(parts) ==> IsMarker(m)
    decreases |s| - from
  {
    var next := NextMarker(s, from);
    if next.None? then [s[from..]]
    else
      var (i, e) := next.value;
      MarkerEndSound(s, i);
      var rest := SplitOnMarkers(s, e);
      StridesCons2(s[from..i], s[i..e], rest);
      [s[from..i], s[i..e]] + rest
  }

  /** One step of the split: the text up to the next marker and the marker, then the rest. */
  lemma SplitOnMarkersStep(s: string, from: nat)
    requires from <= |s|
    ensures NextMarker(s, from).None? ==> SplitOnMarkers(s, from) == [s[from..]]
    ensures NextMarker(s, from).Some? ==> var (i, e) := NextMarker(s, from).value;
      SplitOnMarkers(s, from) == [s[from..i], s[i..e]] + SplitOnMarkers(s, e)
  {
  }

  /**
   * An independent description of cutting a text at the matches of a matcher, which gives
   * for each index where a match starting there ends, if any: from `from` on, `s` reads
   * parts[0] + parts[1] + ... + parts[n], where the even parts hold no index at which a match
   * starts, the end of the text included, and every odd part is the match that starts right
   * after the part before it.
   */
  predicate CutBy(s: string, from: nat, parts: seq<string>, matcher: nat -> Option<nat>)
    requires from <= |s|
    decreases |s| - from
  {
    |parts| >= 1 && from + |parts[0]| <= |s| && parts[0] == s[from..from + |parts[0]|]
    && (forall j :: from <= j < from + |parts[0]| ==> matcher(j).None?)
    && if |parts| == 1 then from + |parts[0]| == |s| && matcher(|s|).None?
       else
         var i := from + |parts[0]|;
         |parts| >= 2 && 0 < |parts[1]| && i + |parts[1]| <= |s| && parts[1] == s[i..i + |parts[1]|]
         && matcher(i) == Some(i + |parts[1]|) && CutBy(s, i + |parts[1]|, parts[2..], matcher)
  }

  /** The marker matcher at any index: no match past the end of the text. */
  function MarkerAt(s: string, i: nat): (r: Option<nat>)
    ensures r.Some? ==> i < r.value <= |s|
  {
    if i <= |s| then MarkerEnd(s, i) else None
  }

  /** `s` from `from` is cut at the markers into `parts`. */
  predicate CutAtMarkers(s: string, from: nat, parts: seq<string>)
    requires from <= |s|
  {
    CutBy(s, from, parts, (j: nat) => MarkerAt(s, j))
  }

  /** The last part of a cut: the rest of the text, where the matcher finds nothing. */
  lemma CutLast(s: string, from: nat, matcher: nat -> Option<nat>)
    requires from <= |s| && forall j :: from <= j <= |s| ==> matcher(j).None?
    ensures CutBy(s, from, [s[from..]], matcher)
  {
  }

  /** A cut continues with the text before the first match and that match. */
  lemma CutCons(s: string, from: nat, i: nat, e: nat, rest: seq<string>, matcher: nat -> Option<nat>)
    requires from <= i < e <= |s| && matcher(i) == Some(e)
    requires forall j :: from <= j < i ==> matcher(j).None?
    requires CutBy(s, e, rest, matcher)
    ensures CutBy(s, from, [s[from..i], s[i..e]] + rest, matcher)
  {
    var parts := [s[from..i], s[i..e]] + rest;
    assert parts[0] == s[from..i] && parts[1] == s[i..e] && parts[2..] == rest;
  }

  /** Where no marker follows, the rest of the text is the last part of a cut at the markers. */
  lemma CutAtMarkersLast(s: string, from: nat)
    requires from <= |s| && NextMarker(s, from).None?
    ensures CutAtMarkers(s, from, [s[from..]])
  {
    CutLast(s, from, (j: nat) => MarkerAt(s, j));
  }

  /** A cut at the markers continues with the text before the next marker and that marker. */
  lemma CutAtMarkersCons(s: string, from: nat, i: nat, e: nat, rest: seq<string>)
    requires from <= |s| && NextMarker(s, from) == Some((i, e)) && CutAtMarkers(s, e, rest)
    ensures CutAtMarkers(s, from, [s[from..i], s[i..e]] + rest)
  {
    CutCons(s, from, i, e, rest, (j: nat) => MarkerAt(s, j));
  }

  /** The split is such a cut. */
  lemma {:induction false} SplitOnMarkersCuts(s: string, from: nat)
    requires from <= |s|
    ensures CutAtMarkers(s, from, SplitOnMarkers(s, from))
    decreases |s| - from
  {
    SplitOnMarkersStep(s, from);
    match NextMarker(s, from)
    case None =>
      CutAtMarkersLast(s, from);
    case Some((i, e)) =>
      SplitOnMarkersCuts(s, e);
      CutAtMarkersCons(s, from, i, e, SplitOnMarkers(s, e));
  }

  /** A match at `i` lies at or past any stretch from `from` to `k` in which no match starts. */
  lemma NoMatchBefore(from: nat, k: nat, i: nat, matcher: nat -> Option<nat>)
    requires forall j :: from <= j < k ==> matcher(j).None?
    requires from <= i && matcher(i).Some?
    ensures k <= i
  {
  }

  /** Where no match follows `from`, a cut is the rest of the text. */
  lemma CutWithoutMatch(s: string, from: nat, p: seq<string>, matcher: nat -> Option<nat>)
    requires from <= |s| && CutBy(s, from, p, matcher)
    requires forall j :: from <= j <= |s| ==> matcher(j).None?
    ensures p == [s[from..]]
  {
    assert |p| == 1 && from + |p[0]| == |s|;
    assert p == [p[0]] && p[0] == s[from..];
  }

  /**
   * Where the first match after `from` runs from `i` to `e`, a cut is the text before it, the
   * match, and a cut from `e`.
   */
  lemma CutAtFirstMatch(s: string, from: nat, p: seq<string>, matcher: nat -> Option<nat>, i: nat, e: nat)
    requires from <= |s| && CutBy(s, from, p, matcher)
    requires from <= i < e <= |s| && matcher(i) == Some(e)
    requires forall j :: from <= j < i ==> matcher(j).None?
    ensures |p| > 1 && p == [s[from..i], s[i..e]] + p[2..] && CutBy(s, e, p[2..], matcher)
  {
    var k := from + |p[0]|;
    NoMatchBefore(from, k, i, matcher);
    assert |p| > 1;
    NoMatchBefore(from, i, k, matcher);
    assert k == i && e == k + |p[1]|;
    assert p == [p[0], p[1]] + p[2..];
  }

  /** And it is the only one: any cut of `s` at the markers from `from` is the split. */
  lemma {:induction false} CutAtMarkersUnique(s: string, from: nat, parts: seq<string>)
    requires from <= |s| && CutAtMarkers(s, from, parts)
    ensures parts == SplitOnMarkers(s, from)
    decreases |s| - from
  {
    SplitOnMarkersStep(s, from);
    match NextMarker(s, from)
    case None =>
      CutWithoutMatch(s, from, parts, (j: nat) => MarkerAt(s, j));
    case Some((i, e)) =>
      CutAtFirstMatch(s, from, parts, (j: nat) => MarkerAt(s, j), i, e);
      CutAtMarkersUnique(s, e, parts[2..]);
  }

  /** Splitting and concatenating again gives back the text: `re.split` loses nothing. */
  lemma {:induction false} SplitOnMarkersConcat(s: string, from: nat)
    requires from <= |s|
    ensures Concat(SplitOnMarkers(s, from)) == s[from..]
    decreases |s| - from
  {
    var next := NextMarker(s, from);
    SplitOnMarkersStep(s, from);
    if next.None? {
      assert Concat([s[from..]]) == s[from..] + Concat([]);
    } else {
      var i, e := next.value.0, next.value.1;
      SplitOnMarkersConcat(s, e);
      ConcatPieces(s, from, i, e, SplitOnMarkers(s, e));
    }
  }

  lemma ConcatPieces(s: string, from: nat, i: nat, e: nat, rest: seq<string>)
    requires from <= i <= e <= |s| && Concat(rest) == s[e..]
    ensures Concat([s[from..i], s[i..e]] + rest) == s[from..]
  {
    ConcatCons2(s[from..i], s[i..e], rest);
    assert s[from..i] + s[i..e] == s[from..e];
    assert s[from..e] + s[e..] == s[from..];
  }

  /** The first fragment is empty exactly when the text is empty or starts with a marker. */
  lemma SplitOnMarkersLead(s: string)
    ensures SplitOnMarkers(s, 0)[0] == "" <==> s == "" || MarkerEnd(s, 0).Some?
  {
    var n := NextMarker(s, 0);
    if n.Some? {
      var (i, e) := n.value;
      assert SplitOnMarkers(s, 0)[0] == s[0..i];
    }
  }

  /** The number of empty strings in `xs`. */
  function CountEmpty(xs: seq<string>): nat
  {
    if xs == [] then 0 else (if xs[0] == "" then 1 else 0) + CountEmpty(xs[1..])
  }

  /** `[e for e in xs if e != ""]`. */
  function DropEmpty(xs: seq<string>): (ys: seq<string>)
    ensures |ys| == |xs| - CountEmpty(xs)
    ensures forall y :: y in ys ==> y != "" && y in xs
  {
    if xs == [] then []
    else (if xs[0] == "" then [] else [xs[0]]) + DropEmpty(xs[1..])
  }

  /** Empty strings add nothing to a concatenation. */
  lemma {:induction false} DropEmptyConcat(xs: seq<string>)
    ensures Concat(DropEmpty(xs)) == Concat(xs)
  {
    if xs != [] {
      DropEmptyConcat(xs[1..]);
      var head := if xs[0] == "" then [] else [xs[0]];
      ConcatAppend(head, DropEmpty(xs[1..]));
    }
  }

  /** Dropping empty strings distributes over concatenation, so the kept strings stay in input order. */
  lemma {:induction false} DropEmptyAppend(a: seq<string>, b: seq<string>)
    ensures DropEmpty(a + b) == DropEmpty(a) + DropEmpty(b)
    decreases |a|
  {
    if a != [] {
      assert (a + b)[1..] == a[1..] + b;
      DropEmptyAppend(a[1..], b);
      var head := if a[0] == "" then [] else [a[0]];
      AppendAssoc(head, DropEmpty(a[1..]), DropEmpty(b));
    } else {
      assert a + b == b;
    }
  }

  /** A sequence with no empty string loses nothing. */
  lemma {:induction false} DropEmptyNone(xs: seq<string>)
    requires forall k :: 0 <= k < |xs| ==> xs[k] != ""
    ensures DropEmpty(xs) == xs
  {
    if xs != [] {
      DropEmptyNone(xs[1..]);
    }
  }

  /** The empty strings of `xs` split between its two strides. */
  lemma {:induction false} CountEmptyStrides(xs: seq<string>)
    ensures CountEmpty(xs) == CountEmpty(Evens(xs)) + CountEmpty(Odds(xs))
    decreases |xs|
  {
    if |xs| >= 2 {
      var rest := xs[2..];
      assert xs == [xs[0], xs[1]] + rest;
      StridesCons2(xs[0], xs[1], rest);
      CountEmptyStrides(rest);
      assert xs[1..][1..] == rest;
      assert ([xs[0]] + Evens(rest))[1..] == Evens(rest);
      assert ([xs[1]] + Odds(rest))[1..] == Odds(rest);
    } else if |xs| == 1 {
      assert Odds(xs) == [];
      assert xs[1..] == [];
    }
  }

  /** `[even_els[i] + odd_els[i] for i in range(len(even_els))]`. */
  function Pairs(evens: seq<string>, odds: seq<string>): (acts: seq<string>)
    requires |evens| == |odds|
    ensures |acts| == |evens|
    ensures forall k :: 0 <= k < |acts| ==> acts[k] == evens[k] + odds[k]
  {
    seq(|evens|, k requires 0 <= k < |evens| => evens[k] + odds[k])
  }

  /** Pairing each element at an even index with the next one keeps the concatenation. */
  lemma {:induction false} PairsConcat(xs: seq<string>)
    requires |xs| % 2 == 0
    ensures Concat(Pairs(Evens(xs), Odds(xs))) == Concat(xs)
    decreases |xs|
  {
    if xs != [] {
      var rest := xs[2..];
      assert xs == [xs[0], xs[1]] + rest;
      StridesCons2(xs[0], xs[1], rest);
      PairsConcat(rest);
      var acts := Pairs(Evens(xs), Odds(xs));
      assert acts == [xs[0] + xs[1]] + Pairs(Evens(rest), Odds(rest));
      ConcatCons2(xs[0], xs[1], rest);
    }
  }

  /** Why a bulletin text cannot be turned into records. */
  datatype PdfError =
    | UnpairedFragments(count: nat)
    | MalformedAct(index: nat, firstLine: string)

  /**
   * `split_text_by_acts`: the text split at its markers, the empty fragments dropped, and each
   * fragment at an even index joined to the next one. An odd number of fragments fails the
   * source's assertion.
   */
  function SplitTextByActs(actsText: string): (r: Result<seq<string>, PdfError>)
    ensures r.Failure? <==> |DropEmpty(SplitOnMarkers(actsText, 0))| % 2 == 1
    ensures r.Failure? ==> r.error == UnpairedFragments(|DropEmpty(SplitOnMarkers(actsText, 0))|)
    ensures r.Success? ==> Concat(r.value) == actsText
    ensures r.Success? ==> forall act :: act in r.value ==> act != ""
  {
    var parts := SplitOnMarkers(actsText, 0);
    var fragments := DropEmpty(parts);
    var evenEls := Evens(fragments);
    var oddEls := Odds(fragments);
    if |evenEls| != |oddEls| then Failure(UnpairedFragments(|fragments|))
    else
      SplitOnMarkersConcat(actsText, 0);
      DropEmptyConcat(parts);
      PairFragments(fragments);
      Success(Pairs(evenEls, oddEls))
  }

  /** Pairing non-empty fragments keeps their concatenation and makes no empty act. */
  lemma PairFragments(fragments: seq<string>)
    requires |fragments| % 2 == 0 && forall y :: y in fragments ==> y != ""
    ensures var acts := Pairs(Evens(fragments), Odds(fragments));
      Concat(acts) == Concat(fragments) && forall act :: act in acts ==> act != ""
  {
    PairsConcat(fragments);
    var evenEls, oddEls := Evens(fragments), Odds(fragments);
    var acts := Pairs(evenEls, oddEls);
    forall k | 0 <= k < |acts| ensures acts[k] != "" {
      assert evenEls[k] in fragments;
    }
  }

  /** An empty text holds no acts. */
  lemma SplitTextByActsEmpty()
    ensures SplitTextByActs("") == Success([])
  {
    assert NextMarker("", 0).None?;
    assert SplitOnMarkers("", 0) == [""];
  }

  /**
   * The assertion fails exactly when an even number of the fragments around the markers are
   * empty: with the first one non-empty and no empty gap, or with the first one empty and one
   * empty gap, for instance.
   */
  lemma SplitTextByActsFails(actsText: string)
    ensures var gaps := Evens(SplitOnMarkers(actsText, 0));
      SplitTextByActs(actsText).Failure? <==> CountEmpty(gaps) % 2 == 0
  {
    var parts := SplitOnMarkers(actsText, 0);
    CountEmptyStrides(parts);
    CountEmptyMarkers(Odds(parts));
    var c := CountEmpty(Evens(parts));
    assert |DropEmpty(parts)| == |parts| - c;
    OddMinusParity(|parts|, c);
  }

  lemma OddMinusParity(n: nat, c: nat)
    requires n % 2 == 1 && c <= n
    ensures (n - c) % 2 == 1 <==> c % 2 == 0
  {
    var q := n / 2;
    assert n == 2 * q + 1;
  }

  lemma {:induction false} CountEmptyMarkers(markers: seq<string>)
    requires forall m :: m in markers ==> IsMarker(m)
    ensures CountEmpty(markers) == 0
  {
    if markers != [] {
      assert markers[0] in markers;
      assert markers[0] != "";
      CountEmptyMarkers(markers[1..]);
    }
  }

  /** With an empty lead and no empty gap, the only fragment dropped is the lead. */
  lemma WellFormedFragments(parts: seq<string>)
    requires |parts| % 2 == 1 && parts[0] == ""
    requires forall m :: m in Odds(parts) ==> IsMarker(m)
    requires forall k :: 1 <= k < |Evens(parts)| ==> Evens(parts)[k] != ""
    ensures DropEmpty(parts) == parts[1..]
  {
    var tail := parts[1..];
    var markers, gaps := Odds(parts), Evens(parts);
    forall k | 0 <= k < |tail| ensures tail[k] != "" {
      var j := k / 2;
      if k == 2 * j {
        assert tail[k] == markers[j];
        assert markers[j] in markers;
      } else {
        assert k == 2 * j + 1;
        assert tail[k] == gaps[j + 1];
      }
    }
    DropEmptyNone(tail);
  }

  /**
   * When the text starts with a marker and no gap between or after markers is empty, there is
   * one act per marker, in the order of the text, and act `k` is marker `k` followed by the
   * text up to the next marker.
   */
  lemma SplitTextByActsWellFormed(actsText: string)
    requires var parts := SplitOnMarkers(actsText, 0);
      parts[0] == "" && forall k :: 1 <= k < |Evens(parts)| ==> Evens(parts)[k] != ""
    ensures var parts := SplitOnMarkers(actsText, 0);
      var r := SplitTextByActs(actsText);
      r.Success? && |r.value| == |Odds(parts)|
      && forall k :: 0 <= k < |r.value| ==>
           r.value[k] == Odds(parts)[k] + Evens(parts)[k + 1] && IsMarker(Odds(parts)[k])
  {
    var parts := SplitOnMarkers(actsText, 0);
    WellFormedFragments(parts);
    StridesShift(parts);
    var markers, gaps := Odds(parts), Evens(parts)[1..];
    assert Evens(DropEmpty(parts)) == markers && Odds(DropEmpty(parts)) == gaps;
    assert |markers| == |gaps|;
    var acts := Pairs(markers, gaps);
    assert SplitTextByActs(actsText) == Success(acts);
    forall k | 0 <= k < |acts|
      ensures acts[k] == markers[k] + Evens(parts)[k + 1] && IsMarker(markers[k])
    {
      assert markers[k] in markers;
    }
  }

  /* ---------------------------------------------------------------------------------------- */
  /* Parsing an act                                                                           */
  /* ---------------------------------------------------------------------------------------- */

  /** The record written for one act; the source returns it as a dictionary. */
  datatype Act = Act(id: string, companyName: string, regionName: string, bormeDate: string, description: string)

  /** A block whose first line has no `-` to separate the id from the company name. */
  datatype ActError = MissingSeparator(firstLine: string)

  /**
   * `parse_act`: the block is stripped and split into lines; its first line is split at the
   * first `-` into the id and the company name, which is stripped and loses every `.`; the other
   * lines form the description; the date is written as YYYY-MM-DD. Unpacking the split of a
   * first line without `-` raises, modelled as a failure.
   */
  function ParseAct(act: string, regionName: string, date: Date): (r: Result<Act, ActError>)
    requires date.Valid()
    ensures var first := FirstLine(Strip(act));
      (r.Failure? <==> '-' !in first) && (r.Failure? ==> r.error == MissingSeparator(first))
    ensures r.Success? ==> var first := FirstLine(Strip(act));
      '-' !in r.value.id && |r.value.id| < |first| && first[..|r.value.id| + 1] == r.value.id + "-"
    ensures r.Success? ==> '.' !in r.value.companyName && r.value.regionName == regionName
    ensures r.Success? ==> r.value.bormeDate == FormatDate(date, '-')
  {
    var lines := Split(Strip(act), '\n');
    match SplitOnce(lines[0], '-')
    case None => Failure(MissingSeparator(lines[0]))
    case Some((actId, companyName)) =>
      Success(Act(actId, RemoveChar(Strip(companyName), '.'), regionName, FormatDate(date, '-'), Join(lines[1..], '\n')))
  }

  /**
   * The description is the stripped block after its first line: the first line, a line break and
   * the description make up the stripped block, and a block of one line has no description.
   */
  lemma ParseActDescription(act: string, regionName: string, date: Date)
    requires date.Valid() && ParseAct(act, regionName, date).Success?
    ensures var s, description := Strip(act), ParseAct(act, regionName, date).value.description;
      ('\n' in s ==> FirstLine(s) + "\n" + description == s) && ('\n' !in s ==> description == "")
  {
    var s := Strip(act);
    SplitFirstRest(s);
    assert ParseAct(act, regionName, date).value.description == Join(Split(s, '\n')[1..], '\n');
  }

  /** A block whose stripped first line is `actId + "-" + rest`, with no `-` in `actId`, parses with that id. */
  lemma ParseActFirstLine(act: string, regionName: string, date: Date, actId: string, rest: string)
    requires date.Valid() && FirstLine(Strip(act)) == actId + "-" + rest && '-' !in actId
    ensures var r := ParseAct(act, regionName, date);
      r.Success? && r.value.id == actId && r.value.companyName == RemoveChar(Strip(rest), '.')
  {
    var first := FirstLine(Strip(act));
    IndexOfAt(first, '-', |actId|);
    assert first[..|actId|] == actId && first[|actId| + 1..] == rest;
  }

  /**
   * The company name keeps no whitespace at its ends when the stripped text after the first `-`
   * neither starts nor ends with a `.`; dots removed from an end can uncover whitespace.
   */
  lemma CompanyNameTrimmed(act: string, regionName: string, date: Date, actId: string, rest: string)
    requires date.Valid() && '-' !in actId && FirstLine(Strip(act)) == actId + "-" + rest
    requires var name := Strip(rest); name != [] && name[0] != '.' && name[|name| - 1] != '.'
    ensures var r := ParseAct(act, regionName, date);
      r.Success? && NoEdgeSpace(r.value.companyName)
  {
    var name := Strip(rest);
    assert NoEdgeSpace(RemoveChar(name, '.')) by {
      assert NoEdgeSpace(name);
      RemoveDotsTrimmed(name);
    }
    ParseActFirstLine(act, regionName, date, actId, rest);
  }

  /** Removing the dots of a trimmed name that neither starts nor ends with one keeps it trimmed. */
  lemma RemoveDotsTrimmed(name: string)
    requires NoEdgeSpace(name) && name != [] && name[0] != '.' && name[|name| - 1] != '.'
    ensures NoEdgeSpace(RemoveChar(name, '.'))
  {
    RemoveCharEnds(name, '.');
  }

  /** Stripping `name + " ."` removes nothing, and removing the dot then leaves the space. */
  lemma StripThenRemoveDot(name: string)
    requires name != [] && NoEdgeSpace(name) && '.' !in name
    ensures RemoveChar(Strip(name + " ."), '.') == name + " "
  {
    var rest := name + " .";
    assert rest == (name + " ") + ".";
    assert rest[0] == name[0] && rest[|rest| - 1] == '.';
    StripNoEdge(rest);
    RemoveCharAppend(name + " ", ".", '.');
    RemoveCharNone(name + " ", '.');
    assert RemoveChar(".", '.') == "";
  }

  /**
   * A dot after a space at the end of the name leaves that space at the end of the company name,
   * because the name is stripped before its dots are removed: `"1 - ACME ."` gives `"ACME "`.
   */
  lemma CompanyNameTrailingSpace(act: string, regionName: string, date: Date, actId: string, name: string)
    requires date.Valid() && '-' !in actId && FirstLine(Strip(act)) == actId + "-" + name + " ."
    requires name != [] && NoEdgeSpace(name) && '.' !in name
    ensures var r := ParseAct(act, regionName, date);
      r.Success? && r.value.companyName == name + " " && !NoEdgeSpace(r.value.companyName)
  {
    var rest := name + " .";
    ParseActFirstLine(act, regionName, date, actId, rest);
    StripThenRemoveDot(name);
    var companyName := ParseAct(act, regionName, date).value.companyName;
    assert companyName == RemoveChar(Strip(rest), '.');
    assert companyName == name + " ";
    SpaceAtEnd(name);
  }

  lemma SpaceAtEnd(name: string)
    ensures !NoEdgeSpace(name + " ")
  {
    assert (name + " ")[|name|] == ' ';
  }

  /** The values of a sequence of results, or the index and error of the first failure. */
  function FirstFailure<T, E>(results: seq<Result<T, E>>): (r: Result<seq<T>, (nat, E)>)
    ensures r.Success? <==> forall k :: 0 <= k < |results| ==> results[k].Success?
    ensures r.Success? ==> (|r.value| == |results|
      && forall k :: 0 <= k < |results| ==> results[k] == Success(r.value[k]))
    ensures r.Failure? ==> (r.error.0 < |results| && results[r.error.0] == Failure(r.error.1)
      && forall k :: 0 <= k < r.error.0 ==> results[k].Success?)
  {
    if results == [] then Success([])
    else if results[0].Failure? then Failure((0, results[0].error))
    else
      var tail := FirstFailure(results[1..]);
      if tail.Failure? then Failure((tail.error.0 + 1, tail.error.1))
      else Success([results[0].value] + tail.value)
  }

  /** Every block parsed on its own, in order. */
  function ParseEach(blocks: seq<string>, regionName: string, date: Date): (results: seq<Result<Act, ActError>>)
    requires date.Valid()
    ensures |results| == |blocks|
    ensures forall k :: 0 <= k < |blocks| ==> results[k] == ParseAct(blocks[k], regionName, date)
  {
    if blocks == [] then [] else [ParseAct(blocks[0], regionName, date)] + ParseEach(blocks[1..], regionName, date)
  }

  /**
   * `[parse_act(act, region_name, date_) for act in acts]`: every block parsed in order; the
   * first block that fails aborts the whole list, and its index is reported.
   */
  function ParseActs(blocks: seq<string>, regionName: string, date: Date): (r: Result<seq<Act>, PdfError>)
    requires date.Valid()
    ensures r.Success? <==> forall k :: 0 <= k < |blocks| ==> ParseAct(blocks[k], regionName, date).Success?
    ensures r.Success? ==> (|r.value| == |blocks|
      && forall k :: 0 <= k < |blocks| ==> ParseAct(blocks[k], regionName, date) == Success(r.value[k]))
  {
    var all := FirstFailure(ParseEach(blocks, regionName, date));
    if all.Success? then Success(all.value)
    else Failure(MalformedAct(all.error.0, all.error.1.firstLine))
  }

  /**
   * A failure names the first block that does not parse, with the first line that has no `-`;
   * every block before it parses.
   */
  lemma ParseActsFailure(blocks: seq<string>, regionName: string, date: Date)
    requires date.Valid() && ParseActs(blocks, regionName, date).Failure?
    ensures var e := ParseActs(blocks, regionName, date).error;
      e.MalformedAct? && e.index < |blocks|
      && ParseAct(blocks[e.index], regionName, date) == Failure(MissingSeparator(e.firstLine))
      && forall k :: 0 <= k < e.index ==> ParseAct(blocks[k], regionName, date).Success?
  {
    var results := ParseEach(blocks, regionName, date);
    var all := FirstFailure(results);
    assert results[all.error.0] == Failure(all.error.1);
  }

  /** The position of the `" - "` in a marker: its digits are `m[1..d]`. */
  lemma MarkerDigits(m: string) returns (d: nat)
    requires IsMarker(m)
    ensures 2 <= d && d + 4 <= |m| && m[0] == '\n' && AllDigits(m[1..d]) && m[d..d + 3] == " - " && AllUpper(m[d + 3..])
  {
    d :| 2 <= d && d + 4 <= |m| && m[0] == '\n' && AllDigits(m[1..d]) && m[d..d + 3] == " - " && AllUpper(m[d + 3..]);
  }

  /** A marker holds no line break after its first character. */
  lemma MarkerOneLine(m: string)
    requires IsMarker(m)
    ensures '\n' !in m[1..] && !IsSpace(m[1]) && !IsSpace(m[|m| - 1])
  {
    var d := MarkerDigits(m);
    forall t | 1 <= t < |m| ensures m[t] != '\n' {
      if t < d {
        assert m[t] == m[1..d][t - 1];
      } else if t >= d + 3 {
        assert m[t] == m[d + 3..][t - d - 3];
      } else {
        assert m[t] == m[d..d + 3][t - d];
      }
    }
    assert m[1] == m[1..d][0];
    assert m[|m| - 1] == m[d + 3..][|m| - d - 4];
  }

  /** Stripping a block that starts with a marker removes only the marker's line break at the front. */
  lemma StripMarkerBlock(m: string, g: string)
    requires IsMarker(m)
    ensures |m| - 1 <= |Strip(m + g)| && Strip(m + g)[..|m| - 1] == m[1..]
  {
    var s := m + g;
    MarkerOneLine(m);
    assert s[1..][0] == m[1];
    assert LeadingSpace(s[1..]) == 0;
    assert LeadingSpace(s) == 1;
    var r := Strip(s);
    StripKeeps(s, |m| - 1);
    assert r[..|m| - 1] == s[1..|m|];
  }

  /** A line-break-free prefix of a text is a prefix of its first line. */
  lemma FirstLinePrefix(s: string, p: string)
    requires |p| <= |s| && s[..|p|] == p && '\n' !in p
    ensures |p| <= |FirstLine(s)| && FirstLine(s)[..|p|] == p
  {
  }

  /** The digits of a marker are the run of digits after its line break. */
  lemma MarkerDigitsRun(m: string)
    requires IsMarker(m)
    ensures var d := RunEnd(m, 1, IsDigit); 2 <= d && d + 4 <= |m| && AllDigits(m[1..d]) && m[d..d + 3] == " - "
  {
    var d := MarkerDigits(m);
    DigitsSlice(m, 1, d);
    assert m[d] == m[d..d + 3][0];
    RunEndAt(m, 1, IsDigit, d);
  }

  /**
   * The id of the act a marker heads: the marker's number and the space after it, which is
   * followed by the marker's `-`.
   */
  function MarkerId(m: string): (id: string)
    requires IsMarker(m)
    ensures 2 <= |id| && |id| + 2 <= |m| && m[1..|id| + 2] == id + "-" && '-' !in id
    ensures AllDigits(id[..|id| - 1]) && id[|id| - 1] == ' '
  {
    MarkerDigitsRun(m);
    var d := RunEnd(m, 1, IsDigit);
    MarkerIdShape(m, d);
    m[1..d + 1]
  }

  lemma MarkerIdShape(m: string, d: nat)
    requires 2 <= d && d + 4 <= |m| && AllDigits(m[1..d]) && m[d..d + 3] == " - "
    ensures var id := m[1..d + 1];
      m[1..d + 2] == id + "-" && '-' !in id && id[..d - 1] == m[1..d] && id[d - 1] == ' '
  {
    var id := m[1..d + 1];
    assert m[d + 1] == m[d..d + 3][1];
    assert id[d - 1] == m[d..d + 3][0];
    forall t | 0 <= t < d - 1 ensures id[t] == m[1..d][t] && id[t] != '-' {
      assert id[t] == m[1..d][t];
    }
    assert id[..d - 1] == m[1..d];
  }

  /** The first line of a block that starts with a marker is the marker's id, a `-` and the rest. */
  lemma MarkerFirstLine(m: string, g: string, actId: string) returns (rest: string)
    requires IsMarker(m)
    requires |actId| + 2 <= |m| && m[1..|actId| + 2] == actId + "-"
    ensures FirstLine(Strip(m + g)) == actId + "-" + rest
  {
    MarkerOneLine(m);
    StripMarkerBlock(m, g);
    var s := Strip(m + g);
    FirstLinePrefix(s, m[1..]);
    var line := FirstLine(s);
    var n := |actId| + 1;
    assert line[..n] == line[..|m| - 1][..n] == m[1..][..n] == m[1..n + 1];
    rest := line[n..];
    assert line == line[..n] + rest;
  }

  /**
   * A block that starts with a marker parses: its id is the marker's number followed by the
   * space before the `-`.
   */
  lemma ParseMarkerBlock(m: string, g: string, regionName: string, date: Date)
    requires date.Valid() && IsMarker(m)
    ensures var r := ParseAct(m + g, regionName, date); r.Success? && r.value.id == MarkerId(m)
  {
    var actId := MarkerId(m);
    var rest := MarkerFirstLine(m, g, actId);
    ParseActFirstLine(m + g, regionName, date, actId, rest);
  }

  /* ---------------------------------------------------------------------------------------- */
  /* The text of one bulletin                                                                 */
  /* ---------------------------------------------------------------------------------------- */

  /**
   * The region name is the first line of the cleaned text, and replacing its first occurrence
   * removes exactly that line, leaving the empty text or the text from the first line break on.
   */
  lemma RegionIsolation(cleaned: string)
    ensures var region := FirstLine(cleaned);
      var actsText := ReplaceFirst(cleaned, region, "");
      region + actsText == cleaned && '\n' !in region && (actsText == "" || actsText[0] == '\n')
  {
    var region := FirstLine(cleaned);
    var n := |region|;
    assert cleaned[..n] == region;
    ReplacePrefix(cleaned, region);
    var rest := cleaned[n..];
    assert region + rest == cleaned;
    if rest != "" {
      assert rest[0] == cleaned[n];
    }
  }

  /**
   * The pure part of `parse_pdf` after cleaning: the region name, the acts text, the split into
   * blocks and the parse of each block with that region name and date.
   */
  function ExtractActs(cleaned: string, date: Date): (r: Result<seq<Act>, PdfError>)
    requires date.Valid()
    ensures var actsText := ReplaceFirst(cleaned, FirstLine(cleaned), "");
      SplitTextByActs(actsText).Failure? ==> r == Failure(SplitTextByActs(actsText).error)
    ensures var actsText := ReplaceFirst(cleaned, FirstLine(cleaned), "");
      SplitTextByActs(actsText).Success? ==> r == ParseActs(SplitTextByActs(actsText).value, FirstLine(cleaned), date)
    ensures r.Success? ==> forall act :: act in r.value ==>
      act.regionName == FirstLine(cleaned) && act.bormeDate == FormatDate(date, '-') && '.' !in act.companyName
  {
    var regionName := FirstLine(cleaned);
    var actsText := ReplaceFirst(cleaned, regionName, "");
    match SplitTextByActs(actsText)
    case Failure(e) => Failure(e)
    case Success(blocks) => ParseActs(blocks, regionName, date)
  }

  /** When the text splits into blocks, the region name followed by the blocks is the cleaned text. */
  lemma ExtractBlocksConcat(cleaned: string)
    requires SplitTextByActs(ReplaceFirst(cleaned, FirstLine(cleaned), "")).Success?
    ensures FirstLine(cleaned) + Concat(SplitTextByActs(ReplaceFirst(cleaned, FirstLine(cleaned), "")).value) == cleaned
  {
    RegionIsolation(cleaned);
  }

  /**
   * When the acts text starts with a marker and no gap is empty, there is one record per marker,
   * in the order of the text, and record `k`'s id is the id marker `k` carries.
   */
  lemma ExtractActsWellFormed(cleaned: string, date: Date)
    requires date.Valid()
    requires var parts := SplitOnMarkers(ReplaceFirst(cleaned, FirstLine(cleaned), ""), 0);
      parts[0] == "" && forall k :: 1 <= k < |Evens(parts)| ==> Evens(parts)[k] != ""
    ensures var parts := SplitOnMarkers(ReplaceFirst(cleaned, FirstLine(cleaned), ""), 0);
      var r := ExtractActs(cleaned, date);
      r.Success? && |r.value| == |Odds(parts)|
      && forall k :: 0 <= k < |r.value| ==> IsMarker(Odds(parts)[k]) && r.value[k].id == MarkerId(Odds(parts)[k])
  {
    var actsText := ReplaceFirst(cleaned, FirstLine(cleaned), "");
    var parts := SplitOnMarkers(actsText, 0);
    SplitTextByActsWellFormed(actsText);
    var blocks := SplitTextByActs(actsText).value;
    ParseMarkedBlocks(Odds(parts), Evens(parts)[1..], blocks, FirstLine(cleaned), date);
  }

  /** Blocks that each start with a marker all parse, each with the id its marker carries. */
  lemma ParseMarkedBlocks(markers: seq<string>, gaps: seq<string>, blocks: seq<string>, regionName: string, date: Date)
    requires date.Valid() && |markers| == |gaps| == |blocks|
    requires forall k :: 0 <= k < |blocks| ==> IsMarker(markers[k]) && blocks[k] == markers[k] + gaps[k]
    ensures var r := ParseActs(blocks, regionName, date);
      r.Success? && |r.value| == |blocks| && forall k :: 0 <= k < |blocks| ==> r.value[k].id == MarkerId(markers[k])
  {
    forall k | 0 <= k < |blocks|
      ensures var r := ParseAct(blocks[k], regionName, date); r.Success? && r.value.id == MarkerId(markers[k])
    {
      ParseMarkerBlock(markers[k], gaps[k], regionName, date);
    }
  }

  /**
   * `parse_pdf` from the PDF's text and page count on: the text is cleaned, the region name
   * isolated, the rest split into blocks and each block parsed. The warnings the source logs
   * are returned as diagnostics.
   */
  method ParsePdf(pdfText: string, numOfPages: int, date: Date, p: LinePatterns)
    returns (acts: Result<seq<Act>, PdfError>, diagnostics: seq<Diagnostic>)
    requires date.Valid()
    ensures var c := CleanText(pdfText, numOfPages, p);
      diagnostics == c.diagnostics && acts == ExtractActs(c.text, date)
    ensures forall d :: d in diagnostics ==> d.actual != d.expected
    ensures acts.Success? ==> forall act :: act in acts.value ==>
      '\n' !in act.regionName && act.bormeDate == FormatDate(date, '-') && '.' !in act.companyName
  {
    var cleaned;
    cleaned, diagnostics := DropHeadersAndFootnotes(pdfText, numOfPages, p);
    var regionName := FirstLine(cleaned);
    var actsText := ReplaceFirst(cleaned, regionName, "");
    match SplitTextByActs(actsText)
    case Failure(e) =>
      acts := Failure(e);
    case Success(blocks) =>
      acts := ParseActs(blocks, regionName, date);
  }
}
