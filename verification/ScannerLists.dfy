/**
 Which digit groups the decimal scanner accepts under a list of any number of sizes: for every list, for texts of any
 length, at the end of the text and in front of a decimal point or an exponent.
 */
module ScannerLists {
  import opened DecimalText
  import opened DecimalScanner
  import opened ScannerGroups

  // ---------- in lengths as the scanner counts them ----------

  /**
   The groups that end at position p: a first group no longer than the last size, or of a negative count, then groups
   of the last size, then one of each size before it down to that of p, each different from the size behind it.
   */
  ghost predicate Descends(grouping: seq<int>, lengths: seq<int>, p: nat)
    requires p < |grouping|
  {
    var last, n := |grouping| - 1, |lengths| - (|grouping| - 1 - p);
    if lengths == [] then p == last
    else
      && n >= 1 && 0 != lengths[0] <= grouping[last]
      && (forall i {:trigger lengths[i]} :: 1 <= i < n ==> lengths[i] == grouping[last])
      && (forall i {:trigger lengths[i]} :: n <= i < |lengths| ==> lengths[i] == grouping[p + |lengths| - 1 - i])
      && NeighboursDiffer(grouping, p)
  }

  /** One more group of the last size keeps the position; one of the size before it, if different, moves it. */
  lemma {:induction false} DescendsOneMore(grouping: seq<int>, init: seq<int>, length: int, p: nat)
    requires p < |grouping| && init != []
    ensures var last := |grouping| - 1;
            Descends(grouping, init + [length], p) <==>
              if p == last then Descends(grouping, init, p) && length == grouping[p]
              else length == grouping[p] && grouping[p + 1] != length && Descends(grouping, init, p + 1)
  {
    var last, lengths := |grouping| - 1, init + [length];
    if p == last {
      StaysAtLast(grouping, init, length);
    } else {
      NeighboursStep(grouping, p);
      MovesDown(grouping, init, length, p);
    }
  }

  lemma {:induction false} StaysAtLast(grouping: seq<int>, init: seq<int>, length: int)
    requires grouping != [] && init != []
    ensures var last := |grouping| - 1;
            Descends(grouping, init + [length], last) <==> Descends(grouping, init, last) && length == grouping[last]
  {
    var last, lengths := |grouping| - 1, init + [length];
    assert forall i :: 0 <= i < |init| ==> lengths[i] == init[i];
    assert lengths[|init|] == length;
  }

  lemma {:induction false} MovesDown(grouping: seq<int>, init: seq<int>, length: int, p: nat)
    requires p + 1 < |grouping| && init != []
    requires NeighboursDiffer(grouping, p) <==> grouping[p] != grouping[p + 1] && NeighboursDiffer(grouping, p + 1)
    ensures Descends(grouping, init + [length], p)
       <==> length == grouping[p] && grouping[p + 1] != length && Descends(grouping, init, p + 1)
  {
    hide NeighboursDiffer;
    var lengths := init + [length];
    assert forall i :: 0 <= i < |init| ==> lengths[i] == init[i];
    assert lengths[|init|] == length;
  }

  /** The position the scanner reaches. */
  lemma {:induction false} PositionIff(grouping: seq<int>, lengths: seq<int>, p: nat)
    requires p < |grouping|
    ensures GroupPosition(grouping, lengths) == Some(p) <==> Descends(grouping, lengths, p)
    decreases |lengths|
  {
    hide Descends, NeighboursDiffer;
    if lengths == [] {
      NoGroups(grouping, p);
    } else {
      var init, length := lengths[..|lengths| - 1], lengths[|lengths| - 1];
      assert lengths == init + [length];
      OneMoreGroup(grouping, init, length);
      if init == [] {
        assert lengths == [length];
        NoGroups(grouping, |grouping| - 1);
        OneGroup(grouping, length, p);
      } else {
        DescendsOneMore(grouping, init, length, p);
        PositionIff(grouping, init, p);
        if p + 1 < |grouping| {
          PositionIff(grouping, init, p + 1);
        }
      }
    }
  }

  lemma {:induction false} NoGroups(grouping: seq<int>, p: nat)
    requires p < |grouping|
    ensures Descends(grouping, [], p) <==> p == |grouping| - 1
    ensures GroupPosition(grouping, []) == Some(|grouping| - 1)
  {
  }

  lemma {:induction false} OneGroup(grouping: seq<int>, length: int, p: nat)
    requires p < |grouping|
    ensures Descends(grouping, [length], p) <==> p == |grouping| - 1 && 0 != length <= grouping[p]
  {
    assert p == |grouping| - 1 ==> NeighboursDiffer(grouping, p);
  }

  // ---------- in digit counts ----------

  /** The same in numbers of digits, which count modulo 256 only. */
  ghost predicate RunsDescend(grouping: seq<int>, runs: seq<nat>, p: nat)
    requires p < |grouping|
  {
    var last, n := |grouping| - 1, |runs| - (|grouping| - 1 - p);
    if runs == [] then p == last
    else
      && n >= 1 && FirstPasses(runs[0], grouping[last])
      && (forall i {:trigger runs[i]} :: 1 <= i < n ==> runs[i] % 256 == grouping[last])
      && (forall i {:trigger runs[i]} :: n <= i < |runs| ==> runs[i] % 256 == grouping[p + |runs| - 1 - i])
      && NeighboursDiffer(grouping, p)
  }

  lemma {:induction false} LengthsAndRuns(grouping: seq<int>, lengths: seq<int>, runs: seq<nat>, p: nat)
    requires p < |grouping| && PositiveSizes(grouping) && Wraps(lengths, runs)
    ensures Descends(grouping, lengths, p) <==> RunsDescend(grouping, runs, p)
  {
    hide SignedChar, NeighboursDiffer, FirstPasses;
    var last, n := |grouping| - 1, |runs| - (|grouping| - 1 - p);
    forall i {:trigger lengths[i]} {:trigger runs[i]} | 0 <= i < |runs|
      ensures lengths[i] == grouping[last] <==> runs[i] % 256 == grouping[last]
      ensures 0 != lengths[i] <= grouping[last] <==> FirstPasses(runs[i], grouping[last])
    {
      SameTest(lengths, runs, i, grouping[last]);
    }
    if n >= 1 {
      forall i {:trigger lengths[i]} {:trigger runs[i]} | n <= i < |runs|
        ensures lengths[i] == grouping[p + |runs| - 1 - i] <==> runs[i] % 256 == grouping[p + |runs| - 1 - i]
      {
        SameTest(lengths, runs, i, grouping[p + |runs| - 1 - i]);
      }
    }
  }

  lemma {:induction false} SameTest(lengths: seq<int>, runs: seq<nat>, i: nat, size: int)
    requires Wraps(lengths, runs) && i < |runs| && 1 <= size <= 127
    ensures lengths[i] == size <==> runs[i] % 256 == size
    ensures 0 != lengths[i] <= size <==> FirstPasses(runs[i], size)
  {
    SmallCounts(runs[i], size);
  }

  /** The position behind the last separator, in digit counts. */
  lemma {:induction false} PositionInDigits(grouping: seq<int>, s: string, p: nat)
    requires p < |grouping| && PositiveSizes(grouping)
    ensures var runs := DigitRuns(s);
            |GroupLengths(s)| == |runs| && Wraps(GroupLengths(s), runs) &&
            (GroupPosition(grouping, ClosedGroups(s)) == Some(p) <==> RunsDescend(grouping, runs[..|runs| - 1], p))
  {
    hide SignedChar, Descends, RunsDescend, DigitRuns, GroupLengths, GroupPosition;
    LengthsAreWrappedCounts(s);
    PositionIff(grouping, ClosedGroups(s), p);
    LengthsAndRuns(grouping, ClosedGroups(s), DigitRuns(s)[..|DigitRuns(s)| - 1], p);
  }

  /**
   The groups of an integer part are right: there is only one; or, in front of a point or an exponent, the groups in
   front of the last one descend to the second size and the last one has the first; or, at the end of the text, they
   descend to any size and the last one has a digit.
   */
  ghost predicate GroupsAllowed(grouping: seq<int>, runs: seq<nat>, ended: bool)
    requires grouping != [] && runs != []
  {
    var front, back := runs[..|runs| - 1], runs[|runs| - 1];
    |runs| == 1 ||
    if ended then back % 256 == grouping[0] && RunsDescend(grouping, front, if |grouping| == 1 then 0 else 1)
    else back > 0 && exists p :: 0 <= p < |grouping| && RunsDescend(grouping, front, p)
  }

  /** The groups are fine exactly if they are right in that sense, for every list of positive sizes. */
  lemma {:induction false} GroupsFineIff(grouping: seq<int>, whole: string, ended: bool)
    requires PositiveSizes(grouping)
    ensures GroupsFine(grouping, whole, ended) <==> GroupsAllowed(grouping, DigitRuns(whole), ended)
  {
    hide SignedChar, RunsDescend, DigitRuns, GroupLengths, GroupPosition;
    var runs, l := DigitRuns(whole), GroupLengths(whole);
    var front, position := runs[..|runs| - 1], GroupPosition(grouping, ClosedGroups(whole));
    PositionInDigits(grouping, whole, 0);
    SmallCounts(runs[|runs| - 1], grouping[0]);
    assert l[|l| - 1] == SignedChar(runs[|runs| - 1]);
    LastRun(whole);
    if |runs| == 1 {
      NoGroups(grouping, |grouping| - 1);
      assert ClosedGroups(whole) == [];
    } else if ended {
      PositionInDigits(grouping, whole, if |grouping| == 1 then 0 else 1);
    } else {
      if position.Some? {
        PositionInDigits(grouping, whole, position.value);
      }
      if p: nat :| p < |grouping| && RunsDescend(grouping, front, p) {
        PositionInDigits(grouping, whole, p);
      }
    }
  }

  lemma {:induction false} LastRun(s: string)
    ensures var runs := DigitRuns(s);
            if s == "" then |runs| == 1 else IsDigit(s[|s| - 1]) <==> runs[|runs| - 1] > 0
    ensures |DigitRuns(s)| == 1 ==> s == "" || IsDigit(s[|s| - 1])
  {
  }

  /** The texts that are accepted, for every list of positive sizes. */
  lemma {:induction false} DecimalIff(text: string, grouping: seq<int>, sep: char, point: char)
    requires PositiveSizes(grouping)
    ensures IsDecimal(text, grouping, sep, point)
       <==> && IsDecimalWithoutGroups(text, grouping, sep, point)
            && GroupsAllowed(grouping, DigitRuns(IntegerPart(text, point)), IntegerEnd(text, point, 0) < |text|)
  {
    hide DigitRuns, GroupsAllowed, GroupsFine;
    GroupsFineIff(grouping, IntegerPart(text, point), IntegerEnd(text, point, 0) < |text|);
  }

  /** Digits and separators, a point, digits and an exponent letter in the right places. */
  predicate IsDecimalWithoutGroups(text: string, grouping: seq<int>, sep: char, point: char) {
    && AllowedInteger(IntegerPart(text, point), grouping, sep) && AllDigits(FractionPart(text, point))
    && (IntegerPart(text, point) != "" || (HasPoint(text, point) && |text| > 1))
    && (NumberEnd(text, point) < |text| ==> IsExponentLetter(text[NumberEnd(text, point)]))
  }

  /** An integer part alone, and with a point behind it. */
  lemma {:induction false} IntegerIff(text: string, grouping: seq<int>, sep: char, point: char)
    requires PositiveSizes(grouping) && text != "" && !IsDigit(point)
    requires forall j {:trigger text[j]} :: 0 <= j < |text| ==> !EndsInteger(text[j], point)
    ensures IsDecimal(text, grouping, sep, point)
       <==> AllowedInteger(text, grouping, sep) && GroupsAllowed(grouping, DigitRuns(text), false)
    ensures IsDecimal(text + [point], grouping, sep, point)
       <==> AllowedInteger(text, grouping, sep) && GroupsAllowed(grouping, DigitRuns(text), true)
  {
    hide DigitRuns, GroupsAllowed, GroupsFine, IsDecimal, AllowedInteger;
    WithoutAndWithPoint(text, grouping, sep, point);
    GroupsFineIff(grouping, text, false);
    GroupsFineIff(grouping, text, true);
  }

  /** Such as a first group that is longer than the last size: with two short groups, refused in front of a point. */
  lemma {:induction false} LongFirstGroupIsRefused(front: string, sep: char, back: string, grouping: seq<int>,
                                                   point: char)
    requires PositiveSizes(grouping) && !IsDigit(sep) && !IsDigit(point) && !EndsInteger(sep, point)
    requires AllDigits(front) && AllDigits(back) && grouping[|grouping| - 1] < |front| < 128
    ensures !IsDecimal(front + [sep] + back + [point], grouping, sep, point)
    ensures !IsDecimal(front + [sep] + back, grouping, sep, point)
  {
    hide IsDecimal, DigitRuns;
    var text := front + [sep] + back;
    TwoRuns(front, sep, back);
    IntegerIff(text, grouping, sep, point);
    assert DigitRuns(text)[..1] == [|front|];
  }

  // ---------- the forms of a number ----------

  predicate NoEnd(whole: string, point: char) {
    forall j {:trigger whole[j]} :: 0 <= j < |whole| ==> !EndsInteger(whole[j], point)
  }

  predicate ExponentOrEnd(rest: string) {
    rest == "" || rest[0] == 'e' || rest[0] == 'E'
  }

  /** Digits and separators without a point, up to the end or an exponent: at least one of them is needed. */
  lemma {:induction false} WithoutPointIff(whole: string, rest: string, grouping: seq<int>, sep: char, point: char)
    requires NoEnd(whole, point) && ExponentOrEnd(rest) && (rest != "" ==> rest[0] != point)
    ensures IsDecimal(whole + rest, grouping, sep, point)
       <==> whole != "" && AllowedInteger(whole, grouping, sep) && GroupsFine(grouping, whole, rest != "")
  {
    hide GroupsFine, AllowedInteger;
    var text := whole + rest;
    assert forall j {:trigger text[j]} :: 0 <= j < |whole| ==> text[j] == whole[j];
    assert rest != "" ==> text[|whole|] == rest[0];
    EndOfInteger(text, point, |whole|);
    assert text[..|whole|] == whole;
  }

  /** With a point: either side of it may be empty, but a point alone is refused. */
  lemma {:induction false} WithPointIff(whole: string, fraction: string, rest: string, grouping: seq<int>, sep: char,
                                        point: char)
    requires NoEnd(whole, point) && !IsDigit(point) && AllDigits(fraction) && ExponentOrEnd(rest)
    ensures IsDecimal(whole + [point] + fraction + rest, grouping, sep, point)
       <==> && (whole != "" || fraction != "" || rest != "")
            && AllowedInteger(whole, grouping, sep) && GroupsFine(grouping, whole, true)
  {
    hide GroupsFine, AllowedInteger;
    var text, k := whole + [point] + fraction + rest, |whole|;
    assert forall j {:trigger text[j]} :: 0 <= j < k ==> text[j] == whole[j];
    assert text[k] == point;
    EndOfInteger(text, point, k);
    assert text[..k] == whole;
    var i := k + 1 + |fraction|;
    assert text[k + 1..i] == fraction;
    assert rest != "" ==> text[i] == rest[0];
    EndOfFraction(text, k, i);
  }
}
