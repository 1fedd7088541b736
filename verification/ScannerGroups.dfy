/**
 Which digit groups the decimal scanner accepts: counted in digits, at the end of the text and in front of a
 decimal point, and compared with the groups that are written under the same list.
 */
module ScannerGroups {
  import opened DecimalText
  import opened DecimalScanner

  // ---------- lengths and digit counts ----------

  /** The numbers of digits between the separators of s. */
  function DigitRuns(s: string): (runs: seq<nat>)
    ensures |runs| >= 1
  {
    if s == "" then [0]
    else
      var r := DigitRuns(s[..|s| - 1]);
      if IsDigit(s[|s| - 1]) then r[..|r| - 1] + [r[|r| - 1] + 1] else r + [0]
  }

  /** A count kept in a signed char. */
  function SignedChar(n: nat): int {
    (n + 128) % 256 - 128
  }

  ghost predicate Wraps(lengths: seq<int>, runs: seq<nat>) {
    |lengths| == |runs| && forall i {:trigger lengths[i]} :: 0 <= i < |runs| ==> lengths[i] == SignedChar(runs[i])
  }

  /** The scanner knows every digit count only as a signed char. */
  lemma {:induction false} LengthsAreWrappedCounts(s: string)
    ensures Wraps(GroupLengths(s), DigitRuns(s))
  {
    hide Wraps, NextChar;
    if s == "" {
      assert Wraps([0], [0]) by {
        NoRuns();
      }
    } else {
      var init := s[..|s| - 1];
      LengthsAreWrappedCounts(init);
      assert |GroupLengths(init)| == |DigitRuns(init)| by {
        SameCount(GroupLengths(init), DigitRuns(init));
      }
      WrappedOneMore(GroupLengths(init), DigitRuns(init));
    }
  }

  lemma {:induction false} NoRuns()
    ensures Wraps([0], [0])
  {
  }

  lemma {:induction false} SameCount(l: seq<int>, r: seq<nat>)
    requires Wraps(l, r)
    ensures |l| == |r|
  {
  }

  /** Both lists grow alike: by one in the last place, or by a zero. */
  lemma {:induction false} WrappedOneMore(l: seq<int>, r: seq<nat>)
    requires Wraps(l, r) && |l| == |r| >= 1
    ensures Wraps(l[..|l| - 1] + [NextChar(l[|l| - 1])], r[..|r| - 1] + [r[|r| - 1] + 1])
    ensures Wraps(l + [0], r + [0])
  {
    hide SignedChar, NextChar;
    SmallCounts(0, 1);
    OneMoreCounted(r[|r| - 1]);
  }

  lemma {:induction false} OneMoreCounted(n: nat)
    ensures SignedChar(n + 1) == NextChar(SignedChar(n))
  {
  }

  /** What a signed char tells about a count: its value modulo 256. */
  lemma {:induction false} SmallCounts(n: nat, size: int)
    requires 1 <= size <= 127
    ensures SignedChar(0) == 0
    ensures SignedChar(n) == size <==> n % 256 == size
    ensures 0 != SignedChar(n) <= size <==> 1 <= n % 256 <= size || n % 256 >= 128
  {
  }

  lemma {:induction false} RunsBehindDigits(front: string, digits: string)
    requires AllDigits(digits)
    ensures var r := DigitRuns(front);
            DigitRuns(front + digits) == r[..|r| - 1] + [r[|r| - 1] + |digits|]
    decreases |digits|
  {
    if digits == "" {
      assert front + digits == front;
    } else {
      var init, last := digits[..|digits| - 1], digits[|digits| - 1];
      RunsBehindDigits(front, init);
      assert (front + digits)[..|front + digits| - 1] == front + init;
    }
  }

  // ---------- one group size ----------

  /** A first group that passes: one of at most `size` digits, but also one whose count wraps to a negative char. */
  predicate FirstPasses(digits: nat, size: int) {
    1 <= digits % 256 <= size || digits % 256 >= 128
  }

  predicate RunsPass(runs: seq<nat>, size: int) {
    runs == [] || (FirstPasses(runs[0], size) && forall i :: 1 <= i < |runs| ==> runs[i] % 256 == size)
  }

  /**
   With a single group size the separators are accepted exactly behind a first group that passes and then groups
   of that size, all modulo 256.
   */
  lemma {:induction false} OneSizeAccepts(size: int, s: string)
    requires 1 <= size <= 127
    ensures var runs := DigitRuns(s);
            GroupPosition([size], ClosedGroups(s)) == if RunsPass(runs[..|runs| - 1], size) then Some(0) else None
  {
    hide SignedChar, DigitRuns, GroupLengths, GroupPosition;
    var runs, closed := DigitRuns(s), ClosedGroups(s);
    LengthsAreWrappedCounts(s);
    OneGroupSize(size, closed);
    forall i | 0 <= i < |closed|
      ensures closed[i] == size <==> runs[i] % 256 == size
      ensures 0 != closed[i] <= size <==> FirstPasses(runs[i], size)
    {
      assert closed[i] == GroupLengths(s)[i];
      SmallCounts(runs[i], size);
    }
    if closed != [] {
      assert 0 != closed[0] <= size <==> FirstPasses(runs[0], size);
    }
  }

  /** Up to 127 digits a group, that is what one expects: at most `size` digits, then exactly `size`. */
  lemma {:induction false} ShortRunsAreChecked(runs: seq<nat>, size: int)
    requires 1 <= size <= 127 && forall i :: 0 <= i < |runs| ==> runs[i] < 128
    ensures RunsPass(runs, size) <==>
              runs == [] || (1 <= runs[0] <= size && forall i :: 1 <= i < |runs| ==> runs[i] == size)
  {
  }

  /** From 128 digits on a first group of any length can pass, here in front of a point. */
  lemma {:induction false} LongFirstGroupPasses(size: int, front: string, sep: char, back: string)
    requires 1 <= size <= 127 && !IsDigit(sep) && AllDigits(front) && AllDigits(back)
    requires |front| % 256 >= 128 && |back| == size
    ensures GroupsFine([size], front + [sep] + back, true)
  {
    hide GroupPosition, SignedChar, DigitRuns, GroupLengths;
    var whole := front + [sep] + back;
    TwoRuns(front, sep, back);
    OneSizeAccepts(size, whole);
    LengthsAreWrappedCounts(whole);
    SmallCounts(|back|, size);
    assert GroupLengths(whole)[1] == SignedChar(DigitRuns(whole)[1]);
    assert DigitRuns(whole)[..1] == [|front|];
  }

  lemma {:induction false} TwoRuns(front: string, sep: char, back: string)
    requires !IsDigit(sep) && AllDigits(front) && AllDigits(back)
    ensures DigitRuns(front + [sep] + back) == [|front|, |back|]
  {
    hide DigitRuns;
    EmptyRuns();
    RunsBehindDigits("", front);
    assert "" + front == front;
    RunsBehindSeparator(front, sep);
    RunsBehindDigits(front + [sep], back);
  }

  lemma {:induction false} EmptyRuns()
    ensures DigitRuns("") == [0]
  {
  }

  lemma {:induction false} RunsBehindSeparator(front: string, sep: char)
    requires !IsDigit(sep)
    ensures DigitRuns(front + [sep]) == DigitRuns(front) + [0]
  {
    assert (front + [sep])[..|front|] == front;
  }

  // ---------- the last group ----------

  /** The check of the last group that is made only in front of a decimal point or an exponent. */
  predicate LastWrong(whole: string, grouping: seq<int>) {
    grouping != [] &&
    (var l, p := GroupLengths(whole), GroupPosition(grouping, ClosedGroups(whole));
     p.Some? && LastGroupWrong(grouping, |l| > 1, l[|l| - 1], p.value))
  }

  predicate SeparatorsPass(whole: string, grouping: seq<int>) {
    grouping == [] || GroupPosition(grouping, ClosedGroups(whole)).Some?
  }

  /** A text of an integer part only, and the same with a point behind it. */
  lemma {:induction false} WithoutAndWithPoint(text: string, grouping: seq<int>, sep: char, point: char)
    requires text != "" && !IsDigit(point)
    requires forall j {:trigger text[j]} :: 0 <= j < |text| ==> !EndsInteger(text[j], point)
    ensures IsDecimal(text, grouping, sep, point)
       <==> AllowedInteger(text, grouping, sep) && GroupsFine(grouping, text, false)
    ensures IsDecimal(text + [point], grouping, sep, point)
       <==> AllowedInteger(text, grouping, sep) && GroupsFine(grouping, text, true)
  {
    hide GroupsFine;
    var longer := text + [point];
    EndOfInteger(text, point, |text|);
    assert text[..|text|] == text;
    assert forall j {:trigger longer[j]} :: 0 <= j < |text| ==> longer[j] == text[j];
    EndOfInteger(longer, point, |text|);
    assert longer[..|text|] == text;
  }

  /**
   For a text without point and exponent, adding a point changes the verdict exactly where all separators pass
   and either the last group is wrong, which only the point brings out, or no digit follows the last separator.
   */
  lemma {:induction false} PointChangesVerdictIff(text: string, grouping: seq<int>, sep: char, point: char)
    requires text != "" && !IsDigit(point)
    requires forall j {:trigger text[j]} :: 0 <= j < |text| ==> !EndsInteger(text[j], point)
    ensures IsDecimal(text, grouping, sep, point) != IsDecimal(text + [point], grouping, sep, point)
       <==> AllowedInteger(text, grouping, sep) && grouping != [] && SeparatorsPass(text, grouping)
            && (IsDigit(text[|text| - 1]) <==> LastWrong(text, grouping))
  {
    hide IsDecimal, AllowedInteger, GroupPosition, GroupLengths, LastGroupWrong;
    WithoutAndWithPoint(text, grouping, sep, point);
  }

  /** There is a separator, the groups in front of the last pass, the last has not `size` digits. */
  predicate OnlyLastWrong(runs: seq<nat>, size: int) {
    |runs| > 1 && RunsPass(runs[..|runs| - 1], size) && runs[|runs| - 1] % 256 != size
  }

  /**
   With one group size, in digit counts: the verdict changes exactly where there is a separator, the groups in front
   of the last pass, and the last has a digit but not `size` of them; the text without the point is accepted then.
   */
  lemma {:induction false} WrongLastGroupIsAccepted(text: string, size: int, sep: char, point: char)
    requires text != "" && !IsDigit(point) && 1 <= size <= 127
    requires forall j {:trigger text[j]} :: 0 <= j < |text| ==> !EndsInteger(text[j], point)
    ensures IsDecimal(text, [size], sep, point) != IsDecimal(text + [point], [size], sep, point)
       <==> AllowedInteger(text, [size], sep) && IsDigit(text[|text| - 1]) && OnlyLastWrong(DigitRuns(text), size)
    ensures IsDecimal(text + [point], [size], sep, point) ==> IsDecimal(text, [size], sep, point)
  {
    hide IsDecimal, AllowedInteger, GroupPosition, GroupLengths, DigitRuns, SignedChar, RunsPass;
    var runs := DigitRuns(text);
    WithoutAndWithPoint(text, [size], sep, point);
    OneSizeAccepts(size, text);
    LengthsAreWrappedCounts(text);
    SmallCounts(runs[|runs| - 1], size);
    assert GroupLengths(text)[|runs| - 1] == SignedChar(runs[|runs| - 1]);
    LastRunEmpty(text);
  }

  /** Such as two groups of which the last is too short. */
  lemma {:induction false} ShortLastGroup(front: string, sep: char, back: string, size: int, point: char)
    requires 1 <= size <= 127 && !IsDigit(sep) && !IsDigit(point) && !EndsInteger(sep, point)
    requires AllDigits(front) && AllDigits(back) && 1 <= |front| <= size && 1 <= |back| < size
    ensures var text := front + [sep] + back;
            IsDecimal(text, [size], sep, point) && !IsDecimal(text + [point], [size], sep, point)
  {
    hide IsDecimal, DigitRuns;
    var text := front + [sep] + back;
    TwoRuns(front, sep, back);
    assert DigitRuns(text)[..1] == [|front|];
    WrongLastGroupIsAccepted(text, size, sep, point);
  }

  lemma {:induction false} LastRunEmpty(s: string)
    requires s != ""
    ensures !IsDigit(s[|s| - 1]) ==> DigitRuns(s)[|DigitRuns(s)| - 1] == 0 && |DigitRuns(s)| > 1
  {
  }

  // ---------- what is written ----------

  ghost predicate PositiveSizes(grouping: seq<int>) {
    |grouping| >= 1 && forall i :: 0 <= i < |grouping| ==> 1 <= grouping[i] <= 127
  }

  /** The group lengths, from the left, of a number of d digits when `left` digits still fit in group g. */
  function Shape(d: nat, grouping: seq<int>, g: nat, left: nat): (lengths: seq<int>)
    requires d >= 1 && ValidGrouping(grouping)
    ensures |lengths| >= 1
    decreases d, if left == 0 then 1 else 0
  {
    if d <= left then [d] else Shape(d - left, grouping, g + 1, GroupSize(grouping, g + 1)) + [left]
  }

  lemma {:induction false} ShapeOneMore(d: nat, grouping: seq<int>, g: nat, left: nat)
    requires d >= 2 && left >= 1 && ValidGrouping(grouping)
    ensures var l := Shape(d - 1, grouping, g, left - 1);
            Shape(d, grouping, g, left) == l[..|l| - 1] + [l[|l| - 1] + 1]
    ensures Shape(d - 1, grouping, g, left - 1)[|Shape(d - 1, grouping, g, left - 1)| - 1] < left
  {
  }

  lemma {:induction false} LengthsOneDigitMore(front: string, c: char)
    requires IsDigit(c)
    ensures var l := GroupLengths(front);
            l[|l| - 1] < 127 ==> GroupLengths(front + [c]) == l[..|l| - 1] + [l[|l| - 1] + 1]
  {
    assert (front + [c])[..|front|] == front;
  }

  lemma {:induction false} LengthsOneSeparatorMore(front: string, c: char)
    requires !IsDigit(c)
    ensures GroupLengths(front + [c]) == GroupLengths(front) + [0]
  {
    assert (front + [c])[..|front|] == front;
  }

  lemma {:induction false} LengthsOfGrouped(n: nat, grouping: seq<int>, sep: char, g: nat, left: nat)
    requires ValidGrouping(grouping) && !IsDigit(sep) && left <= 127
    ensures GroupLengths(Grouped(n, grouping, sep, g, left)) == Shape(|Plain(n)|, grouping, g, left)
    decreases n, if left == 0 then 1 else 0
  {
    hide GroupLengths, GroupSize;
    if left == 0 {
      LengthsOfGrouped(n, grouping, sep, g + 1, GroupSize(grouping, g + 1));
      LengthsOneSeparatorMore(Grouped(n, grouping, sep, g + 1, GroupSize(grouping, g + 1)), sep);
    } else if n >= 10 {
      LengthsOfGrouped(n / 10, grouping, sep, g, left - 1);
      LengthsOfLonger(n, grouping, sep, g, left);
    } else {
      NoLengths();
      LengthsOneDigitMore("", DigitChar(n));
      assert "" + [DigitChar(n)] == [DigitChar(n)];
    }
  }

  lemma {:induction false} LengthsOfLonger(n: nat, grouping: seq<int>, sep: char, g: nat, left: nat)
    requires ValidGrouping(grouping) && 1 <= left <= 127 && n >= 10
    requires GroupLengths(Grouped(n / 10, grouping, sep, g, left - 1)) == Shape(|Plain(n / 10)|, grouping, g, left - 1)
    ensures GroupLengths(Grouped(n, grouping, sep, g, left)) == Shape(|Plain(n)|, grouping, g, left)
  {
    hide GroupLengths, GroupSize, Shape, Grouped, Plain;
    LongerText(n, grouping, sep, g, left);
    ShapeOneMore(|Plain(n)|, grouping, g, left);
    LengthsOneDigitMore(Grouped(n / 10, grouping, sep, g, left - 1), DigitChar(n % 10));
  }

  lemma {:induction false} LongerText(n: nat, grouping: seq<int>, sep: char, g: nat, left: nat)
    requires ValidGrouping(grouping) && left >= 1 && n >= 10
    ensures |Plain(n)| == |Plain(n / 10)| + 1
    ensures Grouped(n, grouping, sep, g, left) == Grouped(n / 10, grouping, sep, g, left - 1) + [DigitChar(n % 10)]
  {
  }

  lemma {:induction false} NoLengths()
    ensures GroupLengths("") == [0]
  {
  }

  /** The digits that fill the groups from k on, all but the last. */
  function FullFrom(grouping: seq<int>, k: nat): int
    requires k < |grouping|
    decreases |grouping| - k
  {
    if k == |grouping| - 1 then 0 else grouping[k] + FullFrom(grouping, k + 1)
  }

  ghost predicate NeighboursDiffer(grouping: seq<int>, k: nat) {
    forall i {:trigger grouping[i]} :: k <= i < |grouping| - 1 ==> grouping[i] != grouping[i + 1]
  }

  /** The position behind the groups of a number of d digits that starts in group k. */
  function PositionOf(d: nat, grouping: seq<int>, k: nat): Option<nat>
    requires d >= 1 && ValidGrouping(grouping)
  {
    GroupPosition(grouping, Shape(d, grouping, k, GroupSize(grouping, k)))
  }

  lemma {:induction false} PositionStep(d: nat, grouping: seq<int>, k: nat)
    requires d >= 1 && PositiveSizes(grouping)
    ensures var size := GroupSize(grouping, k);
            PositionOf(d, grouping, k) ==
              if d <= size then GroupChecked(grouping, false, d, |grouping| - 1)
              else
                match PositionOf(d - size, grouping, k + 1)
                case None => None
                case Some(p) => GroupChecked(grouping, true, size, p)
  {
    hide GroupChecked, GroupPosition, GroupSize;
    var size := GroupSize(grouping, k);
    if d <= size {
      NoneClosed(grouping);
      OneMoreGroup(grouping, [], d);
      assert [] + [d as int] == [d as int];
    } else {
      OneMoreGroup(grouping, Shape(d - size, grouping, k + 1, GroupSize(grouping, k + 1)), size);
    }
  }

  lemma {:induction false} OneMoreGroup(grouping: seq<int>, lengths: seq<int>, length: int)
    requires grouping != []
    ensures GroupPosition(grouping, lengths + [length]) ==
              match GroupPosition(grouping, lengths)
              case None => None
              case Some(p) => GroupChecked(grouping, |lengths| > 0, length, p)
  {
    hide GroupChecked;
    assert (lengths + [length])[..|lengths|] == lengths;
  }

  /** From the last size on every group passes and the position stays. */
  lemma {:induction false} PositionStays(d: nat, grouping: seq<int>, k: nat)
    requires d >= 1 && PositiveSizes(grouping) && k >= |grouping| - 1
    ensures PositionOf(d, grouping, k) == Some(|grouping| - 1)
    decreases d
  {
    hide PositionOf;
    PositionStep(d, grouping, k);
    var size := GroupSize(grouping, k);
    if d > size {
      PositionStays(d - size, grouping, k + 1);
    }
  }

  /** The position reaches k exactly if the number fills all groups from k on and their sizes differ in turn. */
  lemma {:induction false} PositionReached(d: nat, grouping: seq<int>, k: nat)
    requires d >= 1 && PositiveSizes(grouping) && k < |grouping|
    ensures PositionOf(d, grouping, k).Some? ==> k <= PositionOf(d, grouping, k).value < |grouping|
    ensures PositionOf(d, grouping, k) == Some(k) <==> d > FullFrom(grouping, k) && NeighboursDiffer(grouping, k)
    decreases |grouping| - k
  {
    hide PositionOf;
    PositionStep(d, grouping, k);
    FullFromIsPositive(grouping, k);
    if k == |grouping| - 1 {
      PositionStays(d, grouping, k);
    } else if d > grouping[k] {
      PositionReached(d - grouping[k], grouping, k + 1);
      NeighboursStep(grouping, k);
    }
  }

  lemma {:induction false} NeighboursStep(grouping: seq<int>, k: nat)
    requires k < |grouping| - 1
    ensures NeighboursDiffer(grouping, k) <==> grouping[k] != grouping[k + 1] && NeighboursDiffer(grouping, k + 1)
  {
  }

  lemma {:induction false} FullFromIsPositive(grouping: seq<int>, k: nat)
    requires PositiveSizes(grouping) && k < |grouping|
    ensures FullFrom(grouping, k) >= 0
    ensures k < |grouping| - 1 ==> FullFrom(grouping, k) >= grouping[k]
    decreases |grouping| - k
  {
    if k < |grouping| - 1 {
      FullFromIsPositive(grouping, k + 1);
    }
  }

  /** The scanner accepts, in front of a point, the groups of a number of d digits. */
  ghost predicate GroupsAccepted(d: nat, grouping: seq<int>)
    requires |grouping| >= 1
  {
    d <= grouping[0] || (d > FullFrom(grouping, 0) && NeighboursDiffer(grouping, 1))
  }

  lemma {:induction false} WrittenGroups(n: nat, grouping: seq<int>, sep: char)
    requires PositiveSizes(grouping) && !IsDigit(sep)
    ensures GroupsFine(grouping, Written(n, grouping, sep), true) <==> GroupsAccepted(|Plain(n)|, grouping)
  {
    hide GroupLengths, GroupPosition, Grouped, Plain, NeighboursDiffer, FullFrom;
    var d, size, whole := |Plain(n)|, grouping[0], Written(n, grouping, sep);
    LengthsOfGrouped(n, grouping, sep, 0, size);
    if d <= size {
      NoneClosed(grouping);
      assert ClosedGroups(whole) == [];
    } else {
      assert ClosedGroups(whole) == Shape(d - size, grouping, 1, GroupSize(grouping, 1));
      FirstGroupFull(d, grouping);
    }
  }

  lemma {:induction false} NoneClosed(grouping: seq<int>)
    requires grouping != []
    ensures GroupPosition(grouping, []) == Some(|grouping| - 1)
  {
  }

  lemma {:induction false} FirstGroupFull(d: nat, grouping: seq<int>)
    requires PositiveSizes(grouping) && d > grouping[0]
    ensures var p := PositionOf(d - grouping[0], grouping, 1);
            p.Some? && !LastGroupWrong(grouping, true, grouping[0], p.value) <==> GroupsAccepted(d, grouping)
  {
    hide PositionOf, NeighboursDiffer;
    if |grouping| == 1 {
      PositionStays(d - grouping[0], grouping, 1);
      OneSizeDiffers(grouping);
    } else {
      PositionReached(d - grouping[0], grouping, 1);
    }
  }

  lemma {:induction false} OneSizeDiffers(grouping: seq<int>)
    requires |grouping| == 1
    ensures NeighboursDiffer(grouping, 1)
  {
  }

  lemma {:induction false} WrittenIsInteger(n: nat, grouping: seq<int>, sep: char, point: char)
    requires grouping == [] || grouping[0] <= 0 || ValidGrouping(grouping)
    requires !EndsInteger(sep, point)
    ensures AllowedInteger(Written(n, grouping, sep), grouping, sep) && Written(n, grouping, sep) != ""
    ensures forall j {:trigger Written(n, grouping, sep)[j]} :: 0 <= j < |Written(n, grouping, sep)| ==>
              !EndsInteger(Written(n, grouping, sep)[j], point)
  {
    if grouping != [] && grouping[0] > 0 {
      GroupedCharacters(n, grouping, sep, 0, GroupSize(grouping, 0));
    }
  }

  lemma {:induction false} GroupedCharacters(n: nat, grouping: seq<int>, sep: char, g: nat, left: nat)
    requires ValidGrouping(grouping)
    ensures Grouped(n, grouping, sep, g, left) != ""
    ensures AllowedInteger(Grouped(n, grouping, sep, g, left), grouping, sep)
    decreases n, if left == 0 then 1 else 0
  {
    hide IsDigit, GroupSize;
    if left == 0 {
      GroupedCharacters(n, grouping, sep, g + 1, GroupSize(grouping, g + 1));
    } else if n >= 10 {
      GroupedCharacters(n / 10, grouping, sep, g, left - 1);
    }
  }

  /**
   What is written under a list of positive sizes and followed by a point is accepted if and only if it has no
   separator, or fills every group but the last with no two neighbouring sizes behind the first equal.
   */
  lemma {:induction false} WrittenIsAcceptedIff(n: nat, grouping: seq<int>, sep: char, point: char)
    requires PositiveSizes(grouping) && !IsDigit(sep) && !IsDigit(point) && !EndsInteger(sep, point)
    ensures IsDecimal(Written(n, grouping, sep) + [point], grouping, sep, point)
       <==> GroupsAccepted(|Plain(n)|, grouping)
  {
    hide IsDecimal, Written, GroupsFine, GroupsAccepted, AllowedInteger, EndsInteger;
    WrittenIsInteger(n, grouping, sep, point);
    WithoutAndWithPoint(Written(n, grouping, sep), grouping, sep, point);
    WrittenGroups(n, grouping, sep);
  }

  /** So every number passes under one or two sizes, and under three or more some do not. */
  lemma {:induction false} TwoSizesAlwaysPass(n: nat, grouping: seq<int>)
    requires PositiveSizes(grouping)
    ensures |grouping| <= 2 ==> GroupsAccepted(|Plain(n)|, grouping)
    ensures |grouping| > 2 ==> !GroupsAccepted(grouping[0] + 1, grouping)
  {
    assert FullFrom(grouping, |grouping| - 1) == 0;
    if |grouping| > 2 {
      FullFromIsPositive(grouping, 1);
    }
  }
}
