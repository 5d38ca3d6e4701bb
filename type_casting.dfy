/**
 * The casting helpers of the crawler: reading a YYYYMMDD string as a date, turning the dates
 * given on the command line into a set without repetitions, and flattening a list of lists.
 */
module TypeCasting {
  import opened Wrappers
  import opened Strings
  import opened Dates

  /**
   * `cast_str_to_date`: the date written as YYYYMMDD, or None (where the source logs a warning)
   * when the string does not have eight characters, a field is not a number, or the numbers do
   * not form a date `datetime.date` accepts.
   */
  function CastStrToDate(myDate: string): (r: Option<Date>)
    ensures |myDate| != 8 ==> r.None?
    ensures r.Some? ==> r.value.Valid() && AllDigits(myDate)
    ensures r.Some? ==>
      (r.value.year == DigitsValue(myDate[..4]) && r.value.month == DigitsValue(myDate[4..6])
       && r.value.day == DigitsValue(myDate[6..8]))
    ensures |myDate| == 8 && AllDigits(myDate)
      && Date(DigitsValue(myDate[..4]), DigitsValue(myDate[4..6]), DigitsValue(myDate[6..8])).Valid()
      ==> r.Some?
  {
    if |myDate| != 8 then None
    else
      match (ParseInt(myDate[..4]), ParseInt(myDate[4..6]), ParseInt(myDate[6..8]))
      case (Some(year), Some(month), Some(day)) =>
        var d := Date(year, month, day);
        assert AllDigits(myDate) by {
          forall k | 0 <= k < 8 ensures IsDigit(myDate[k]) {
            if k < 4 { assert myDate[..4][k] == myDate[k]; }
            else if k < 6 { assert myDate[4..6][k - 4] == myDate[k]; }
            else { assert myDate[6..8][k - 6] == myDate[k]; }
          }
        }
        if d.Valid() then Some(d) else None
      case _ => None
  }

  /** A string that casts to a date is that date's eight-digit form. */
  lemma CastStrToDateReads(myDate: string, d: Date)
    requires CastStrToDate(myDate) == Some(d)
    ensures d.Valid() && myDate == CompactDate(d)
  {
    ValuePad(myDate[..4]);
    ValuePad(myDate[4..6]);
    ValuePad(myDate[6..8]);
    assert myDate == myDate[..4] + myDate[4..6] + myDate[6..8];
  }

  /** The eight-digit form of a valid date casts back to it. */
  lemma CastStrToDateAccepts(d: Date)
    requires d.Valid()
    ensures CastStrToDate(CompactDate(d)) == Some(d)
  {
    var myDate := CompactDate(d);
    PadValue(d.year, 4);
    PadValue(d.month, 2);
    PadValue(d.day, 2);
    assert myDate[..4] == Pad(d.year, 4);
    assert myDate[4..6] == Pad(d.month, 2);
    assert myDate[6..8] == Pad(d.day, 2);
  }

  /** Casting reads back exactly the eight-digit form of a date, and nothing else. */
  lemma CastStrToDateRoundTrip(myDate: string, d: Date)
    ensures CastStrToDate(myDate) == Some(d) <==> d.Valid() && myDate == CompactDate(d)
  {
    if CastStrToDate(myDate) == Some(d) {
      CastStrToDateReads(myDate, d);
    }
    if d.Valid() && myDate == CompactDate(d) {
      CastStrToDateAccepts(d);
    }
  }

  /** The dates the strings cast to, in input order; the strings that do not cast are skipped. */
  function CastDates(inputs: seq<string>): (dates: seq<Date>)
    ensures |dates| <= |inputs|
    ensures forall d :: d in dates ==> d.Valid()
    ensures forall d :: d in dates <==> exists s :: s in inputs && CastStrToDate(s) == Some(d)
  {
    if inputs == [] then []
    else
      var rest := CastDates(inputs[1..]);
      assert forall s :: s in inputs <==> s == inputs[0] || s in inputs[1..];
      match CastStrToDate(inputs[0])
      case Some(d) => [d] + rest
      case None => rest
  }

  /** Some element occurs twice. */
  predicate HasDuplicates<T(==)>(xs: seq<T>) {
    exists i, j :: 0 <= i < j < |xs| && xs[i] == xs[j]
  }

  /** Casting keeps the input order: the dates of two lists of strings are those of the first, then those of the second. */
  lemma {:induction false} CastDatesAppend(a: seq<string>, b: seq<string>)
    ensures CastDates(a + b) == CastDates(a) + CastDates(b)
  {
    if a != [] {
      assert (a + b)[0] == a[0];
      assert (a + b)[1..] == a[1..] + b;
      CastDatesAppend(a[1..], b);
    } else {
      assert a + b == b;
    }
  }

  /** Two different inputs, the first at an earlier position, cast to the same date. */
  predicate CastCollision(inputs: seq<string>) {
    exists i, j :: 0 <= i < j < |inputs| && CastStrToDate(inputs[i]).Some?
      && CastStrToDate(inputs[i]) == CastStrToDate(inputs[j])
  }

  /** A list whose head is followed by the rest repeats an element exactly when the head recurs or the rest repeats. */
  lemma HasDuplicatesCons<T>(x: T, rest: seq<T>)
    ensures HasDuplicates([x] + rest) <==> x in rest || HasDuplicates(rest)
  {
    var xs := [x] + rest;
    if HasDuplicates(xs) {
      var i, j :| 0 <= i < j < |xs| && xs[i] == xs[j];
      if i == 0 {
        assert rest[j - 1] == x;
      } else {
        assert rest[i - 1] == rest[j - 1];
      }
    }
    if x in rest {
      var k :| 0 <= k < |rest| && rest[k] == x;
      assert xs[0] == xs[k + 1];
    }
    if HasDuplicates(rest) {
      var i, j :| 0 <= i < j < |rest| && rest[i] == rest[j];
      assert xs[i + 1] == xs[j + 1];
    }
  }

  /** A collision among the later inputs is one among all of them. */
  lemma CollisionInTail(inputs: seq<string>)
    requires inputs != [] && CastCollision(inputs[1..])
    ensures CastCollision(inputs)
  {
    var tail := inputs[1..];
    var i, j :| 0 <= i < j < |tail| && CastStrToDate(tail[i]).Some?
      && CastStrToDate(tail[i]) == CastStrToDate(tail[j]);
    assert inputs[i + 1] == tail[i] && inputs[j + 1] == tail[j];
  }

  /** The first input colliding with a later one is a collision. */
  lemma CollisionWithHead(inputs: seq<string>, s: string)
    requires inputs != [] && CastStrToDate(inputs[0]).Some?
    requires s in inputs[1..] && CastStrToDate(s) == CastStrToDate(inputs[0])
    ensures CastCollision(inputs)
  {
    var tail := inputs[1..];
    var k :| 0 <= k < |tail| && tail[k] == s;
    assert inputs[k + 1] == s;
  }

  /** Inputs collide exactly when the first one casts to a date a later one casts to, or the later ones collide. */
  lemma CastCollisionCons(inputs: seq<string>)
    requires inputs != []
    ensures CastCollision(inputs) <==>
      (CastStrToDate(inputs[0]).Some? && exists s :: s in inputs[1..] && CastStrToDate(s) == CastStrToDate(inputs[0]))
      || CastCollision(inputs[1..])
  {
    var tail := inputs[1..];
    if CastCollision(inputs) {
      var i, j :| 0 <= i < j < |inputs| && CastStrToDate(inputs[i]).Some?
        && CastStrToDate(inputs[i]) == CastStrToDate(inputs[j]);
      assert tail[j - 1] == inputs[j];
      if i > 0 {
        assert tail[i - 1] == inputs[i];
      }
    }
    if CastStrToDate(inputs[0]).Some? && exists s :: s in tail && CastStrToDate(s) == CastStrToDate(inputs[0]) {
      var s :| s in tail && CastStrToDate(s) == CastStrToDate(inputs[0]);
      CollisionWithHead(inputs, s);
    }
    if CastCollision(tail) {
      CollisionInTail(inputs);
    }
  }

  /**
   * A cast date repeats exactly when two inputs cast to the same date, whether they are
   * written alike or not.
   */
  lemma {:induction false} CastDatesDuplicates(inputs: seq<string>)
    ensures HasDuplicates(CastDates(inputs)) <==> CastCollision(inputs)
  {
    if inputs != [] {
      CastDatesDuplicates(inputs[1..]);
      CastCollisionCons(inputs);
      var rest := CastDates(inputs[1..]);
      match CastStrToDate(inputs[0])
      case None =>
      case Some(d) =>
        HasDuplicatesCons(d, rest);
    }
  }

  /** A list has as many distinct elements as entries exactly when no element repeats. */
  lemma {:induction false} DistinctCount<T>(xs: seq<T>)
    ensures |set x | x in xs| <= |xs|
    ensures |set x | x in xs| == |xs| <==> !HasDuplicates(xs)
  {
    if xs != [] {
      var tail := xs[1..];
      DistinctCount(tail);
      var s, t := set x | x in xs, set x | x in tail;
      assert s == {xs[0]} + t;
      if xs[0] in tail {
        var j :| 0 <= j < |tail| && tail[j] == xs[0];
        assert xs[0] == xs[j + 1];
        assert s == t;
      } else {
        assert |s| == |t| + 1;
        if HasDuplicates(xs) {
          var i, j :| 0 <= i < j < |xs| && xs[i] == xs[j];
          assert i > 0;
          assert tail[i - 1] == tail[j - 1];
        }
        if HasDuplicates(tail) {
          var i, j :| 0 <= i < j < |tail| && tail[i] == tail[j];
          assert xs[i + 1] == xs[j + 1];
        }
      }
    }
  }

  /** What `uniq_dates_in_list` returns: its dates as a set, and whether it logged a warning. */
  datatype UniqDates = UniqDates(dates: set<Date>, duplicateWarning: bool)

  /**
   * `uniq_dates_in_list`: the distinct dates the strings cast to. The source returns them as a
   * list made from a Python set, in no particular order; the model keeps the set. The duplicate
   * warning is logged exactly when some date is given more than once.
   */
  function UniqDatesInList(inputDates: seq<string>): (r: UniqDates)
    ensures forall d :: d in r.dates <==> exists s :: s in inputDates && CastStrToDate(s) == Some(d)
    ensures forall d :: d in r.dates ==> d.Valid()
    ensures |r.dates| <= |inputDates|
    ensures r.duplicateWarning <==> HasDuplicates(CastDates(inputDates))
    ensures r.duplicateWarning <==> CastCollision(inputDates)
  {
    var dates := CastDates(inputDates);
    DistinctCount(dates);
    CastDatesDuplicates(inputDates);
    var uniq := set d | d in dates;
    UniqDates(uniq, |dates| != |uniq|)
  }

  /** The number of elements of all the lists together. */
  function TotalLength<T>(lists: seq<seq<T>>): nat
  {
    if lists == [] then 0 else |lists[0]| + TotalLength(lists[1..])
  }

  lemma {:induction false} TotalLengthAppend<T>(a: seq<seq<T>>, b: seq<seq<T>>)
    ensures TotalLength(a + b) == TotalLength(a) + TotalLength(b)
  {
    if a != [] {
      assert (a + b)[1..] == a[1..] + b;
      TotalLengthAppend(a[1..], b);
    } else {
      assert a + b == b;
    }
  }

  /** `flatten`, that is `sum(x, [])`: the lists one after the other, added up from the left. */
  function Flatten<T>(x: seq<seq<T>>): (r: seq<T>)
    ensures |r| == TotalLength(x)
  {
    if x == [] then []
    else
      var init := x[..|x| - 1];
      TotalLengthAppend(init, [x[|x| - 1]]);
      assert init + [x[|x| - 1]] == x;
      Flatten(init) + x[|x| - 1]
  }

  /** Flattening splits over the concatenation of two lists of lists. */
  lemma {:induction false} FlattenAppend<T>(a: seq<seq<T>>, b: seq<seq<T>>)
    ensures Flatten(a + b) == Flatten(a) + Flatten(b)
    decreases |b|
  {
    if b == [] {
      assert a + b == a;
    } else {
      var init, last := b[..|b| - 1], b[|b| - 1];
      assert (a + b)[..|a + b| - 1] == a + init;
      assert (a + b)[|a + b| - 1] == last;
      FlattenAppend(a, init);
      calc {
        Flatten(a + b);
        Flatten(a + init) + last;
        Flatten(a) + Flatten(init) + last;
        Flatten(a) + (Flatten(init) + last);
        Flatten(a) + Flatten(b);
      }
    }
  }

  /** Element j of list i sits in the flattened list right after the elements of the lists before i. */
  lemma FlattenAt<T>(x: seq<seq<T>>, i: nat, j: nat)
    requires i < |x| && j < |x[i]|
    ensures TotalLength(x[..i]) + j < |Flatten(x)|
    ensures Flatten(x)[TotalLength(x[..i]) + j] == x[i][j]
  {
    assert x == x[..i] + [x[i]] + x[i + 1..];
    FlattenAppend(x[..i] + [x[i]], x[i + 1..]);
    FlattenAppend(x[..i], [x[i]]);
    assert Flatten([x[i]]) == x[i] by {
      assert [x[i]][..0] == [];
    }
  }
}
