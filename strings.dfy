/**
 * The Python string operations the crawler is built from, over `string` (a sequence of
 * characters): `str.split` on one character, `str.join`, `str.strip`, `str.find`,
 * `str.replace` and the concatenation of a list of strings.
 */
module Strings {
  import opened Wrappers

  /** The characters Python's `str.isspace` accepts, which `str.strip()` removes at both ends. */
  predicate IsSpace(c: char) {
    ('\t' <= c <= '\r') || ('\U{1C}' <= c <= '\U{1F}') || c == ' ' || c == '\U{85}' || c == '\U{A0}'
    || c == '\U{1680}' || ('\U{2000}' <= c <= '\U{200A}') || c == '\U{2028}' || c == '\U{2029}'
    || c == '\U{202F}' || c == '\U{205F}' || c == '\U{3000}'
  }

  predicate IsDigit(c: char) { '0' <= c <= '9' }

  predicate IsUpper(c: char) { 'A' <= c <= 'Z' }

  predicate AllSpace(s: string) { forall k :: 0 <= k < |s| ==> IsSpace(s[k]) }

  predicate AllDigits(s: string) { forall k :: 0 <= k < |s| ==> IsDigit(s[k]) }

  predicate AllUpper(s: string) { forall k :: 0 <= k < |s| ==> IsUpper(s[k]) }

  /** Neither the first nor the last character of `s` is whitespace. */
  predicate NoEdgeSpace(s: string) { s == [] || (!IsSpace(s[0]) && !IsSpace(s[|s| - 1])) }

  /** The index of the first `c` in `s`, or |s| when `s` has none. */
  function IndexOf(s: string, c: char): (k: nat)
    ensures k <= |s| && c !in s[..k]
    ensures k < |s| ==> s[k] == c
  {
    if s == [] || s[0] == c then 0
    else
      var k := 1 + IndexOf(s[1..], c);
      assert s[..k] == [s[0]] + s[1..][..k - 1];
      k
  }

  /** The three facts IndexOf promises determine it. */
  lemma IndexOfAt(s: string, c: char, k: nat)
    requires k <= |s| && c !in s[..k]
    requires k < |s| ==> s[k] == c
    ensures IndexOf(s, c) == k
  {
  }

  /** Python's `s.split(sep)` for a one-character separator: every part, in order, never an empty list. */
  function Split(s: string, sep: char): (parts: seq<string>)
    ensures |parts| >= 1
    ensures forall k :: 0 <= k < |parts| ==> sep !in parts[k]
    decreases |s|
  {
    var k := IndexOf(s, sep);
    if k == |s| then
      assert s[..k] == s;
      [s]
    else [s[..k]] + Split(s[k + 1..], sep)
  }

  /** Python's `sep.join(parts)`. */
  function Join(parts: seq<string>, sep: char): (r: string)
    ensures parts != [] ==> parts[0] <= r && (|parts| > 1 ==> |parts[0]| < |r| && r[|parts[0]|] == sep)
    ensures parts == [] ==> r == ""
  {
    if parts == [] then ""
    else if |parts| == 1 then parts[0]
    else parts[0] + [sep] + Join(parts[1..], sep)
  }

  /** Joining the parts of a split with the same separator gives back the string. */
  lemma {:induction false} JoinSplit(s: string, sep: char)
    ensures Join(Split(s, sep), sep) == s
    decreases |s|
  {
    var k := IndexOf(s, sep);
    if k < |s| {
      JoinSplit(s[k + 1..], sep);
      assert s == s[..k] + [sep] + s[k + 1..];
    } else {
      assert s[..k] == s;
    }
  }

  /** Splitting a join of separator-free parts gives back the parts. */
  lemma {:induction false} SplitJoin(parts: seq<string>, sep: char)
    requires |parts| >= 1
    requires forall k :: 0 <= k < |parts| ==> sep !in parts[k]
    ensures Split(Join(parts, sep), sep) == parts
  {
    if |parts| == 1 {
      assert parts[0][..|parts[0]|] == parts[0];
      IndexOfAt(parts[0], sep, |parts[0]|);
    } else {
      var rest := Join(parts[1..], sep);
      var s := parts[0] + [sep] + rest;
      assert s[..|parts[0]|] == parts[0];
      IndexOfAt(s, sep, |parts[0]|);
      assert s[|parts[0]| + 1..] == rest;
      SplitJoin(parts[1..], sep);
    }
  }

  /** The first element of `Split(s, '\n')`: the text up to the first line break. */
  function FirstLine(s: string): (line: string)
    ensures '\n' !in line
    ensures line == s || (|line| < |s| && s[..|line|] == line && s[|line|] == '\n')
  {
    var k := IndexOf(s, '\n');
    assert k == |s| ==> s[..k] == s;
    Split(s, '\n')[0]
  }

  /** A string is what comes before index `k`, the character at `k`, and what comes after. */
  lemma SplitAround(s: string, k: nat)
    requires k < |s|
    ensures s[..k] + [s[k]] + s[k + 1..] == s
  {
    assert s[k..] == [s[k]] + s[k + 1..];
    assert s[..k] + s[k..] == s;
  }

  /** The first line, a line break and the other lines joined again make up the text. */
  lemma SplitFirstRest(s: string)
    ensures '\n' in s ==> FirstLine(s) + "\n" + Join(Split(s, '\n')[1..], '\n') == s
    ensures '\n' !in s ==> Split(s, '\n') == [s]
  {
    var k := IndexOf(s, '\n');
    if k < |s| {
      var rest := s[k + 1..];
      assert Split(s, '\n') == [s[..k]] + Split(rest, '\n');
      assert Split(s, '\n')[1..] == Split(rest, '\n');
      JoinSplit(rest, '\n');
      SplitAround(s, k);
    } else {
      assert s[..k] == s;
    }
  }

  /**
   * Python's `s.split(c, 1)` unpacked into two names: the text before the first `c` and the text
   * after it, or None where Python's unpacking raises because `c` does not occur.
   */
  function SplitOnce(s: string, c: char): (r: Option<(string, string)>)
    ensures r.None? <==> c !in s
    ensures r.Some? ==> c !in r.value.0 && s == r.value.0 + [c] + r.value.1
    ensures r.Some? ==> |r.value.0| < |s| && s[..|r.value.0| + 1] == r.value.0 + [c]
  {
    var k := IndexOf(s, c);
    if k == |s| then
      assert s[..k] == s;
      None
    else
      SplitAround(s, k);
      assert s[..k + 1] == s[..k] + [c];
      Some((s[..k], s[k + 1..]))
  }

  /** The number of whitespace characters at the start of `s`. */
  function LeadingSpace(s: string): (n: nat)
    ensures n <= |s| && AllSpace(s[..n])
    ensures n < |s| ==> !IsSpace(s[n])
  {
    if s == [] || !IsSpace(s[0]) then 0
    else
      var n := 1 + LeadingSpace(s[1..]);
      assert s[..n] == [s[0]] + s[1..][..n - 1];
      n
  }

  /** The number of whitespace characters at the end of `s`. */
  function TrailingSpace(s: string): (n: nat)
    ensures n <= |s| && AllSpace(s[|s| - n..])
    ensures n < |s| ==> !IsSpace(s[|s| - n - 1])
  {
    if s == [] || !IsSpace(s[|s| - 1]) then 0
    else
      var m := TrailingSpace(s[..|s| - 1]);
      AllSpaceExtend(s, m);
      assert m + 1 < |s| ==> s[..|s| - 1][|s| - 1 - m - 1] == s[|s| - (m + 1) - 1];
      m + 1
  }

  /** A whitespace run at the end of `s` without its last character, extended by that last whitespace. */
  lemma AllSpaceExtend(s: string, m: nat)
    requires |s| >= 1 && m <= |s| - 1 && AllSpace(s[..|s| - 1][|s| - 1 - m..]) && IsSpace(s[|s| - 1])
    ensures AllSpace(s[|s| - (m + 1)..])
  {
    var t, u := s[..|s| - 1][|s| - 1 - m..], s[|s| - (m + 1)..];
    forall k | 0 <= k < |u| ensures IsSpace(u[k]) {
      if k < m { assert u[k] == t[k]; } else { assert u[k] == s[|s| - 1]; }
    }
  }

  /**
   * Python's `s.strip()`: what is left of `s` once the whitespace at both ends is gone. The
   * result is the slice of `s` that starts after the leading whitespace, only whitespace
   * follows it, and it neither starts nor ends with whitespace.
   */
  function Strip(s: string): (r: string)
    ensures NoEdgeSpace(r)
    ensures LeadingSpace(s) + |r| <= |s| && r == s[LeadingSpace(s)..LeadingSpace(s) + |r|]
    ensures AllSpace(s[LeadingSpace(s) + |r|..])
  {
    var i := LeadingSpace(s);
    if i == |s| then "" else
      var j := |s| - TrailingSpace(s);
      assert i < j;
      s[i..j]
  }

  /** A string with no whitespace at either end is its own strip. */
  lemma StripNoEdge(s: string)
    requires NoEdgeSpace(s)
    ensures Strip(s) == s
  {
    if s != [] {
      assert LeadingSpace(s) == 0;
      assert TrailingSpace(s) == 0;
    }
  }

  /** A character that is not whitespace lies within the part that strip keeps. */
  lemma StripKeeps(s: string, i: nat)
    requires i < |s| && !IsSpace(s[i])
    ensures LeadingSpace(s) <= i < LeadingSpace(s) + |Strip(s)|
  {
    var lead, r := LeadingSpace(s), Strip(s);
    assert forall t :: 0 <= t < lead ==> IsSpace(s[t]) by {
      forall t | 0 <= t < lead ensures IsSpace(s[t]) { assert s[t] == s[..lead][t]; }
    }
    assert forall t :: lead + |r| <= t < |s| ==> IsSpace(s[t]) by {
      forall t | lead + |r| <= t < |s| ensures IsSpace(s[t]) { assert s[t] == s[lead + |r|..][t - lead - |r|]; }
    }
  }

  /** One whitespace character before a text with no whitespace at its ends is all that goes. */
  lemma StripOneLeading(s: string)
    requires |s| >= 2 && IsSpace(s[0]) && NoEdgeSpace(s[1..])
    ensures Strip(s) == s[1..]
  {
    assert LeadingSpace(s[1..]) == 0;
    assert LeadingSpace(s) == 1;
    assert TrailingSpace(s) == 0;
  }

  /** Stripping twice is stripping once. */
  lemma StripIdempotent(s: string)
    ensures Strip(Strip(s)) == Strip(s)
  {
    StripNoEdge(Strip(s));
  }

  /** Python's `s.replace(c, "")` for one character `c`: every `c` is gone, nothing is added. */
  function RemoveChar(s: string, c: char): (r: string)
    ensures c !in r && |r| <= |s|
  {
    if s == [] then ""
    else (if s[0] == c then "" else [s[0]]) + RemoveChar(s[1..], c)
  }

  /** Every character other than `c` is kept as often as it occurs. */
  lemma {:induction false} RemoveCharCounts(s: string, c: char)
    ensures forall x :: x != c ==> multiset(RemoveChar(s, c))[x] == multiset(s)[x]
  {
    if s != [] {
      RemoveCharCounts(s[1..], c);
      var head := if s[0] == c then "" else [s[0]];
      var rest := RemoveChar(s[1..], c);
      assert multiset(s) == multiset([s[0]]) + multiset(s[1..]) by {
        assert s == [s[0]] + s[1..];
      }
      assert multiset(RemoveChar(s, c)) == multiset(head) + multiset(rest);
    }
  }

  /** Removing a character distributes over concatenation. */
  lemma {:induction false} RemoveCharAppend(a: string, b: string, c: char)
    ensures RemoveChar(a + b, c) == RemoveChar(a, c) + RemoveChar(b, c)
  {
    if a == [] {
      assert a + b == b;
    } else {
      var head := if a[0] == c then "" else [a[0]];
      assert (a + b)[0] == a[0] && (a + b)[1..] == a[1..] + b;
      RemoveCharAppend(a[1..], b, c);
      calc {
        RemoveChar(a + b, c);
        head + RemoveChar(a[1..] + b, c);
        head + (RemoveChar(a[1..], c) + RemoveChar(b, c));
        (head + RemoveChar(a[1..], c)) + RemoveChar(b, c);
        RemoveChar(a, c) + RemoveChar(b, c);
      }
    }
  }

  /** A first or last character other than `c` stays where it is. */
  lemma RemoveCharEnds(s: string, c: char)
    ensures s != [] && s[0] != c ==> RemoveChar(s, c) != [] && RemoveChar(s, c)[0] == s[0]
    ensures s != [] && s[|s| - 1] != c ==> RemoveChar(s, c) != [] && RemoveChar(s, c)[|RemoveChar(s, c)| - 1] == s[|s| - 1]
  {
    if s != [] && s[|s| - 1] != c {
      var n := |s| - 1;
      assert s == s[..n] + [s[n]];
      RemoveCharAppend(s[..n], [s[n]], c);
      assert RemoveChar([s[n]], c) == [s[n]] + RemoveChar([], c);
    }
  }

  /** A string without `c` is left as it is. */
  lemma {:induction false} RemoveCharNone(s: string, c: char)
    requires c !in s
    ensures RemoveChar(s, c) == s
  {
    if s != [] {
      RemoveCharNone(s[1..], c);
    }
  }

  /** `pat` occurs in `s` starting at index `i`. */
  predicate OccursAt(s: string, pat: string, i: nat) {
    i + |pat| <= |s| && s[i..i + |pat|] == pat
  }

  /** Python's `s.find(pat, start)`: the first index at or after `start` where `pat` occurs. */
  function Find(s: string, pat: string, start: nat): (r: Option<nat>)
    ensures r.Some? ==> start <= r.value && OccursAt(s, pat, r.value)
    ensures r.Some? ==> forall j :: start <= j < r.value ==> !OccursAt(s, pat, j)
    ensures r.None? ==> forall j :: start <= j ==> !OccursAt(s, pat, j)
    decreases |s| - start
  {
    if start + |pat| > |s| then None
    else if s[start..start + |pat|] == pat then Some(start)
    else Find(s, pat, start + 1)
  }

  /** Python's `s.replace(target, replacement, 1)`: the first occurrence of `target`, if any, becomes `replacement`. */
  function ReplaceFirst(s: string, target: string, replacement: string): (r: string)
    ensures Find(s, target, 0).None? ==> r == s
    ensures Find(s, target, 0).Some? ==>
      var i := Find(s, target, 0).value; r == s[..i] + replacement + s[i + |target|..]
  {
    match Find(s, target, 0)
    case None => s
    case Some(i) => s[..i] + replacement + s[i + |target|..]
  }

  /** When `s` starts with `prefix`, replacing the first occurrence of `prefix` removes that prefix. */
  lemma ReplacePrefix(s: string, prefix: string)
    requires |prefix| <= |s| && s[..|prefix|] == prefix
    ensures ReplaceFirst(s, prefix, "") == s[|prefix|..]
  {
    assert OccursAt(s, prefix, 0);
    assert Find(s, prefix, 0) == Some(0);
  }

  /** The strings of `parts` one after the other: Python's `"".join(parts)`. */
  function Concat(parts: seq<string>): string
  {
    if parts == [] then "" else parts[0] + Concat(parts[1..])
  }

  lemma {:induction false} ConcatAppend(a: seq<string>, b: seq<string>)
    ensures Concat(a + b) == Concat(a) + Concat(b)
  {
    if a != [] {
      assert (a + b)[1..] == a[1..] + b;
      ConcatAppend(a[1..], b);
    } else {
      assert a + b == b;
    }
  }
}
