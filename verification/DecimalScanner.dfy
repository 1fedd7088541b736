/**
 The digit loop of lcast_ret_float: one pass from left to right over a number with an optional decimal
 point, keeping as many digits as an unsigned mantissa type of modulus m can hold and counting the rest
 in a power of ten.
 */
module DecimalScanner {
  import opened DecimalText
  import opened MachineArithmetic

  /** How far a scan came: the text from `stop` on is empty or starts with the exponent letter. */
  datatype Scan = Scan(mantissa: nat, powOf10: int, isMantissaFull: bool, stop: nat)

  // ---------- the text ----------

  predicate IsExponentLetter(c: char) {
    c == 'e' || c == 'E'
  }

  /** The characters that end the integer part. */
  predicate EndsInteger(c: char, point: char) {
    !IsDigit(c) && (c == point || IsExponentLetter(c))
  }

  function IntegerEnd(text: string, point: char, from: nat): (k: nat)
    requires from <= |text|
    ensures from <= k <= |text|
    ensures forall j {:trigger text[j]} :: from <= j < k ==> !EndsInteger(text[j], point)
    ensures k < |text| ==> EndsInteger(text[k], point)
    decreases |text| - from
  {
    if from == |text| || EndsInteger(text[from], point) then from else IntegerEnd(text, point, from + 1)
  }

  function ExponentStart(text: string, from: nat): (k: nat)
    requires from <= |text|
    ensures from <= k <= |text|
    ensures forall j {:trigger text[j]} :: from <= j < k ==> !IsExponentLetter(text[j])
    ensures k < |text| ==> IsExponentLetter(text[k])
    decreases |text| - from
  {
    if from == |text| || IsExponentLetter(text[from]) then from else ExponentStart(text, from + 1)
  }

  predicate HasPoint(text: string, point: char) {
    var k := IntegerEnd(text, point, 0);
    k < |text| && text[k] == point
  }

  function IntegerPart(text: string, point: char): string {
    text[..IntegerEnd(text, point, 0)]
  }

  function FractionPart(text: string, point: char): string {
    var k := IntegerEnd(text, point, 0);
    if HasPoint(text, point) then text[k + 1..ExponentStart(text, k + 1)] else ""
  }

  /** Where the number ends and the exponent, if any, begins. */
  function NumberEnd(text: string, point: char): nat {
    var k := IntegerEnd(text, point, 0);
    if HasPoint(text, point) then ExponentStart(text, k + 1) else k
  }

  // ---------- the mantissa ----------

  /**
   With the digits read so far worth n and f of them behind the point, the number is n / 10^f, and
   mantissa * 10^powOf10 <= n / 10^f < (mantissa + 1) * 10^powOf10; both sides are multiplied by 10^f here.
   Nothing is lost until the mantissa is full, it is full exactly when n does not fit, and a full mantissa
   is one that a further digit could overflow.
   */
  ghost predicate Approximates(mantissa: nat, powOf10: int, full: bool, n: nat, f: nat, m: nat) {
    && powOf10 + f >= 0
    && Brackets(mantissa, Pow10(powOf10 + f), n)
    && mantissa < m
    && (!full ==> powOf10 + f == 0)
    && (full <==> n >= m)
    && (full ==> 10 * (mantissa + 1) > m)
  }

  ghost predicate Brackets(mantissa: nat, unit: nat, n: nat) {
    mantissa * unit <= n < (mantissa + 1) * unit
  }

  /** A power of ten with any exponent. */
  ghost function Scale(p: int): (r: real)
    ensures r > 0.0
  {
    if p >= 0 then Pow10(p) as real else 1.0 / (Pow10(-p) as real)
  }

  /** The number read lies in [mantissa * 10^powOf10, (mantissa + 1) * 10^powOf10). */
  lemma {:induction false} NumberIsBracketed(mantissa: nat, powOf10: int, full: bool, n: nat, f: nat, m: nat)
    requires Approximates(mantissa, powOf10, full, n, f, m)
    ensures (mantissa as real) * Scale(powOf10) <= (n as real) / Scale(f) < ((mantissa + 1) as real) * Scale(powOf10)
    ensures !full ==> (mantissa as real) * Scale(powOf10) == (n as real) / Scale(f)
  {
    hide Scale, Pow10, Brackets;
    var q := powOf10 + f;
    BracketsAtScale(mantissa, q, n);
    AtScale(mantissa, powOf10, n, f);
    AtScale(mantissa + 1, powOf10, n, f);
    if !full {
      NothingLost(mantissa, n);
    }
  }

  lemma {:induction false} AtScale(a: nat, p: int, n: nat, f: nat)
    requires p + f >= 0
    ensures (a as real) * Scale(p + f) <= n as real <==> (a as real) * Scale(p) <= (n as real) / Scale(f)
    ensures (a as real) * Scale(p + f) > n as real <==> (a as real) * Scale(p) > (n as real) / Scale(f)
    ensures (a as real) * Scale(p + f) == n as real <==> (a as real) * Scale(p) == (n as real) / Scale(f)
  {
    hide Scale;
    ScaleSum(p, f);
    Rescale(a as real, n as real, Scale(p), Scale(f), Scale(p + f));
  }

  lemma {:induction false} NothingLost(mantissa: nat, n: nat)
    requires Brackets(mantissa, Pow10(0), n)
    ensures (mantissa as real) * Scale(0) == n as real
  {
    assert Pow10(0) == 1 && Scale(0) == 1.0;
  }

  lemma {:induction false} ScaleOfNat(q: nat)
    ensures Scale(q) == Pow10(q) as real
  {
  }

  lemma {:induction false} ProductAsReal(a: nat, b: nat)
    ensures (a * b) as real == (a as real) * (b as real)
  {
  }

  lemma {:induction false} BracketsAtScale(mantissa: nat, q: nat, n: nat)
    requires Brackets(mantissa, Pow10(q), n)
    ensures (mantissa as real) * Scale(q) <= n as real < ((mantissa + 1) as real) * Scale(q)
  {
    hide Brackets, Pow10, Scale;
    BracketsAsReals(mantissa, Pow10(q), n);
    ScaleOfNat(q);
  }

  lemma {:induction false} BracketsAsReals(mantissa: nat, unit: nat, n: nat)
    requires Brackets(mantissa, unit, n)
    ensures (mantissa as real) * (unit as real) <= (n as real) < ((mantissa + 1) as real) * (unit as real)
  {
    assert (mantissa as real) * (unit as real) == (mantissa * unit) as real;
    assert ((mantissa + 1) as real) * (unit as real) == ((mantissa + 1) * unit) as real;
  }

  lemma {:induction false} Rescale(a: real, x: real, s: real, t: real, unit: real)
    requires s > 0.0 && t > 0.0 && s * t == unit
    ensures a * unit <= x <==> a * s <= x / t
    ensures a * unit > x <==> a * s > x / t
    ensures a * unit == x <==> a * s == x / t
  {
    Regroup(s, a, t);
    assert a * unit == (a * s) * t;
    assert x == x / t * t;
    Ordered(a * s, x / t, t);
  }

  lemma {:induction false} Ordered(a: real, b: real, t: real)
    requires t > 0.0
    ensures a <= b <==> a * t <= b * t
    ensures a == b <==> a * t == b * t
  {
    assert b * t - a * t == (b - a) * t;
  }

  lemma {:induction false} ScaleSum(p: int, f: nat)
    requires p + f >= 0
    ensures Scale(p) * Scale(f) == Scale(p + f)
  {
    hide Pow10;
    if p >= 0 {
      Pow10Sum(p, f);
      ProductAsReal(Pow10(p), Pow10(f));
    } else {
      Pow10Sum(p + f, -p);
      ProductAsReal(Pow10(p + f), Pow10(-p));
      Cancel(Scale(p), Pow10(-p) as real, Scale(p + f), Scale(f));
    }
  }

  lemma {:induction false} Cancel(s: real, a: real, b: real, c: real)
    requires a > 0.0 && s == 1.0 / a && c == b * a
    ensures s * c == b
  {
    assert s * a == 1.0;
    Regroup(s, b, a);
  }

  lemma {:induction false} Regroup(s: real, b: real, a: real)
    ensures s * (b * a) == b * (s * a)
  {
  }

  lemma {:induction false} Pow10Sum(a: nat, b: nat)
    ensures Pow10(a) * Pow10(b) == Pow10(a + b)
  {
    if a > 0 {
      Pow10Sum(a - 1, b);
      Tenfold(Pow10(b), Pow10(a - 1));
    }
  }

  lemma {:induction false} BracketsOneMore(mantissa: nat, unit: nat, n: nat, d: nat)
    requires Brackets(mantissa, unit, n) && d < 10
    ensures Brackets(mantissa, 10 * unit, 10 * n + d)
  {
    Tenfold(mantissa, unit);
    Tenfold(mantissa + 1, unit);
  }

  lemma {:induction false} Tenfold(a: nat, b: nat)
    ensures a * (10 * b) == 10 * (a * b)
  {
  }

  /** The overflow tests: the digit does not fit any more. */
  predicate DigitLost(m: nat, mantissa: nat, d: nat)
    requires m > 0
  {
    var tmpMantissa := mantissa * 10 % m;
    tmpMantissa / 10 != mantissa || m - 1 - d < tmpMantissa
  }

  /** The mantissa with one digit more, in a type of modulus m. */
  function AddDigit(m: nat, mantissa: nat, d: nat): nat
    requires m > 0
  {
    mantissa * 10 % m + d
  }

  lemma {:induction false} DigitLostExactly(m: nat, mantissa: nat, d: nat)
    requires m >= 10 && mantissa < m && d < 10
    ensures DigitLost(m, mantissa, d) <==> 10 * mantissa + d >= m
    ensures !DigitLost(m, mantissa, d) ==> AddDigit(m, mantissa, d) == 10 * mantissa + d
  {
    WrapDetected(mantissa, 10, m);
    if mantissa * 10 < m {
      SmallRemainder(mantissa * 10, m);
    }
  }

  /** One digit behind those read: kept, or dropped with the scale counted up by one place. */
  lemma {:induction false} DigitRead(mantissa: nat, powOf10: int, full: bool, n: nat, f: nat, m: nat, d: nat,
                                     place: nat)
    requires m >= 10 && d < 10 && place <= 1 && Approximates(mantissa, powOf10, full, n, f, m)
    ensures !full && !DigitLost(m, mantissa, d) ==>
              Approximates(AddDigit(m, mantissa, d), powOf10 - place, false, 10 * n + d, f + place, m)
    ensures full || DigitLost(m, mantissa, d) ==>
              Approximates(mantissa, powOf10 + 1 - place, true, 10 * n + d, f + place, m)
  {
    hide DigitLost, AddDigit;
    DigitLostExactly(m, mantissa, d);
    BracketsOneMore(mantissa, Pow10(powOf10 + f), n, d);
    if !full {
      assert Pow10(0) == 1;
    }
  }

  // ---------- digit groups ----------

  /** An increment of a signed char. */
  function NextChar(x: int): int {
    if x == 127 then -128 else x + 1
  }

  /** The check at a decimal point or exponent letter. */
  predicate LastGroupWrong(grouping: seq<int>, foundGrouping: bool, length: int, lastGroupingPos: int) {
    && grouping != [] && foundGrouping
    && (length != grouping[0] || lastGroupingPos > 1 || (lastGroupingPos == 0 && |grouping| > 1))
  }

  /** The check at a separator: None to refuse, or the new group position. */
  function GroupChecked(grouping: seq<int>, foundGrouping: bool, length: int, lastGroupingPos: nat): (p: Option<nat>)
    requires lastGroupingPos < |grouping|
    ensures p.Some? ==> p.value < |grouping|
  {
    if foundGrouping then
      if length != grouping[lastGroupingPos] then
        if lastGroupingPos == 0 || length != grouping[lastGroupingPos - 1] then None else Some(lastGroupingPos - 1)
      else if |grouping| > 1 && lastGroupingPos + 1 < |grouping| then None
      else Some(lastGroupingPos)
    else if length == 0 || length > grouping[lastGroupingPos] then None
    else Some(lastGroupingPos)
  }

  /** The lengths of the digit runs between separators, counted in a signed char. */
  function GroupLengths(s: string): (lengths: seq<int>)
    ensures |lengths| >= 1
  {
    if s == "" then [0]
    else
      var l := GroupLengths(s[..|s| - 1]);
      if IsDigit(s[|s| - 1]) then l[..|l| - 1] + [NextChar(l[|l| - 1])] else l + [0]
  }

  /** The lengths of the groups that a separator has ended. */
  function ClosedGroups(s: string): seq<int> {
    GroupLengths(s)[..|GroupLengths(s)| - 1]
  }

  /** The group position after these groups; None when a separator was refused. */
  function GroupPosition(grouping: seq<int>, lengths: seq<int>): (p: Option<nat>)
    requires grouping != []
    ensures p.Some? ==> p.value < |grouping|
  {
    if lengths == [] then Some(|grouping| - 1)
    else
      match GroupPosition(grouping, lengths[..|lengths| - 1])
      case None => None
      case Some(p) => GroupChecked(grouping, |lengths| > 1, lengths[|lengths| - 1], p)
  }

  /**
   The groups of an integer part are as they should be. The last group is looked at only in front of a decimal
   point or an exponent; at the end of the text it may have any length but zero.
   */
  predicate GroupsFine(grouping: seq<int>, whole: string, ended: bool) {
    grouping == [] ||
    (var l, p := GroupLengths(whole), GroupPosition(grouping, ClosedGroups(whole));
     p.Some? && if ended then !LastGroupWrong(grouping, |l| > 1, l[|l| - 1], p.value)
                else whole == "" || IsDigit(whole[|whole| - 1]))
  }

  /** With a single group size, in lengths as the scanner counts them: see ScannerGroups for digit counts. */
  lemma {:induction false} OneGroupSize(size: int, lengths: seq<int>)
    requires size >= 1
    ensures GroupPosition([size], lengths) ==
      if lengths == [] then Some(0)
      else if 0 != lengths[0] <= size && forall i :: 1 <= i < |lengths| ==> lengths[i] == size then Some(0)
      else None
  {
    if lengths != [] {
      OneGroupSize(size, lengths[..|lengths| - 1]);
    }
  }

  /** The group checks' state behind `front`. */
  ghost predicate AtGroup(grouping: seq<int>, front: string, foundGrouping: bool, length: int, position: nat) {
    grouping == [] ||
    (var l := GroupLengths(front);
     && (foundGrouping <==> |l| > 1) && length == l[|l| - 1]
     && GroupPosition(grouping, ClosedGroups(front)) == Some(position))
  }

  lemma {:induction false} GroupStart(grouping: seq<int>)
    ensures grouping != [] ==> AtGroup(grouping, "", false, 0, |grouping| - 1)
    ensures grouping == [] ==> AtGroup(grouping, "", false, 0, 0)
  {
  }

  lemma {:induction false} GroupDigit(grouping: seq<int>, front: string, c: char, foundGrouping: bool, length: int,
                                      position: nat)
    requires IsDigit(c) && AtGroup(grouping, front, foundGrouping, length, position)
    ensures AtGroup(grouping, front + [c], foundGrouping, NextChar(length), position)
  {
    assert (front + [c])[..|front|] == front;
    assert ClosedGroups(front + [c]) == ClosedGroups(front);
  }

  lemma {:induction false} GroupSeparator(grouping: seq<int>, front: string, c: char, foundGrouping: bool,
                                          length: int, position: nat)
    requires !IsDigit(c) && grouping != [] && position < |grouping|
    requires AtGroup(grouping, front, foundGrouping, length, position)
    ensures var checked := GroupChecked(grouping, foundGrouping, length, position);
            && GroupPosition(grouping, ClosedGroups(front + [c])) == checked
            && (checked.Some? ==> AtGroup(grouping, front + [c], true, 0, checked.value))
  {
    hide GroupChecked;
    assert (front + [c])[..|front|] == front;
    assert ClosedGroups(front + [c]) == GroupLengths(front);
  }

  /** A refused separator stays refused, whatever follows. */
  lemma {:induction false} RefusedStaysRefused(grouping: seq<int>, s: string, i: nat)
    requires grouping != [] && i <= |s| && GroupPosition(grouping, ClosedGroups(s[..i])) == None
    ensures GroupPosition(grouping, ClosedGroups(s)) == None
    decreases |s|
  {
    hide GroupChecked;
    if i == |s| {
      assert s[..i] == s;
    } else {
      var init, c := s[..|s| - 1], s[|s| - 1];
      assert init[..i] == s[..i];
      RefusedStaysRefused(grouping, init, i);
      var l := GroupLengths(init);
      if IsDigit(c) {
        assert ClosedGroups(s) == ClosedGroups(init);
      } else {
        assert ClosedGroups(s) == l && l[..|l| - 1] == ClosedGroups(init);
      }
    }
  }

  // ---------- the loop ----------

  /** The loop's state in front of text[i..] before a decimal point was seen. */
  ghost predicate InInteger(text: string, grouping: seq<int>, sep: char, point: char, i: nat, s: Scan, seen: bool,
                            m: nat) {
    && i <= |text|
    && (forall j {:trigger text[j]} :: 0 <= j < i ==> IsDigit(text[j]) || (grouping != [] && text[j] == sep))
    && (forall j {:trigger text[j]} :: 0 <= j < i ==> !EndsInteger(text[j], point))
    && (seen <==> DigitsOnly(text[..i]) != "")
    && Approximates(s.mantissa, s.powOf10, s.isMantissaFull, DigitsValue(DigitsOnly(text[..i])), 0, m)
  }

  lemma {:induction false} IntegerStart(text: string, grouping: seq<int>, sep: char, point: char, m: nat)
    requires m >= 10
    ensures InInteger(text, grouping, sep, point, 0, Scan(0, 0, false, 0), false, m)
  {
    assert text[..0] == "";
    assert Pow10(0) == 1;
  }

  lemma {:induction false} IntegerDigit(text: string, grouping: seq<int>, sep: char, point: char, i: nat, s: Scan,
                                        seen: bool, m: nat)
    requires m >= 10 && i < |text| && IsDigit(text[i]) && InInteger(text, grouping, sep, point, i, s, seen, m)
    ensures var d := ValueOfDigit(text[i]);
            InInteger(text, grouping, sep, point, i + 1,
              if !s.isMantissaFull && !DigitLost(m, s.mantissa, d) then s.(mantissa := AddDigit(m, s.mantissa, d))
              else s.(isMantissaFull := true, powOf10 := s.powOf10 + 1), true, m)
  {
    hide DigitLost, AddDigit, Approximates, DigitsValue;
    var d := ValueOfDigit(text[i]);
    assert text[..i + 1][..i] == text[..i];
    var digits := DigitsOnly(text[..i]);
    ValueOneMore("", digits, text[i]);
    assert "" + digits == digits && "" + (digits + [text[i]]) == digits + [text[i]];
    DigitRead(s.mantissa, s.powOf10, s.isMantissaFull, DigitsValue(digits), 0, m, d, 0);
  }

  lemma {:induction false} IntegerSeparator(text: string, grouping: seq<int>, sep: char, point: char, i: nat,
                                            s: Scan, seen: bool, m: nat)
    requires i < |text| && !IsDigit(text[i]) && !EndsInteger(text[i], point) && grouping != [] && text[i] == sep
    requires InInteger(text, grouping, sep, point, i, s, seen, m)
    ensures InInteger(text, grouping, sep, point, i + 1, s, seen, m)
  {
    assert text[..i + 1][..i] == text[..i];
  }

  /** The loop's state in front of text[i..] behind the decimal point at k. */
  ghost predicate InFraction(text: string, grouping: seq<int>, sep: char, point: char, k: nat, i: nat, s: Scan,
                             m: nat) {
    && k < i <= |text| && k == IntegerEnd(text, point, 0) && text[k] == point
    && (forall j {:trigger text[j]} :: 0 <= j < k ==> IsDigit(text[j]) || (grouping != [] && text[j] == sep))
    && AllDigits(text[k + 1..i])
    && Approximates(s.mantissa, s.powOf10, s.isMantissaFull,
                    DigitsValue(DigitsOnly(text[..k]) + text[k + 1..i]), i - k - 1, m)
  }

  lemma {:induction false} EndOfInteger(text: string, point: char, i: nat)
    requires i <= |text|
    requires forall j {:trigger text[j]} :: 0 <= j < i ==> !EndsInteger(text[j], point)
    requires i < |text| ==> EndsInteger(text[i], point)
    ensures IntegerEnd(text, point, 0) == i
  {
    var k := IntegerEnd(text, point, 0);
    assert k < |text| ==> EndsInteger(text[k], point);
    assert i < |text| ==> EndsInteger(text[i], point);
  }

  lemma {:induction false} FractionStart(text: string, grouping: seq<int>, sep: char, point: char, i: nat, s: Scan,
                                         seen: bool, m: nat)
    requires i < |text| && !IsDigit(text[i]) && text[i] == point && InInteger(text, grouping, sep, point, i, s, seen, m)
    ensures InFraction(text, grouping, sep, point, i, i + 1, s, m)
  {
    hide Approximates;
    EndOfInteger(text, point, i);
    assert text[i + 1..i + 1] == "";
    assert DigitsOnly(text[..i]) + "" == DigitsOnly(text[..i]);
  }

  lemma {:induction false} OneMore(text: string, k: nat, i: nat)
    requires k <= i < |text|
    ensures text[k..i + 1] == text[k..i] + [text[i]]
  {
  }

  lemma {:induction false} ValueOneMore(whole: string, fraction: string, c: char)
    requires AllDigits(whole) && AllDigits(fraction) && IsDigit(c)
    ensures AllDigits(whole + fraction) && AllDigits(fraction + [c]) && AllDigits(whole + (fraction + [c]))
    ensures DigitsValue(whole + (fraction + [c])) == 10 * DigitsValue(whole + fraction) + ValueOfDigit(c)
  {
    var digits := whole + fraction;
    assert whole + (fraction + [c]) == digits + [c];
    assert (digits + [c])[..|digits|] == digits;
  }

  lemma {:induction false} FractionDigit(text: string, grouping: seq<int>, sep: char, point: char, k: nat, i: nat,
                                         s: Scan, m: nat)
    requires m >= 10 && i < |text| && IsDigit(text[i]) && InFraction(text, grouping, sep, point, k, i, s, m)
    ensures var d := ValueOfDigit(text[i]);
            InFraction(text, grouping, sep, point, k, i + 1,
              if !s.isMantissaFull && !DigitLost(m, s.mantissa, d)
              then s.(mantissa := AddDigit(m, s.mantissa, d), powOf10 := s.powOf10 - 1)
              else s.(isMantissaFull := true), m)
  {
    hide DigitLost, AddDigit, Approximates, DigitsOnly, IntegerEnd, DigitsValue;
    var d, whole, fraction := ValueOfDigit(text[i]), DigitsOnly(text[..k]), text[k + 1..i];
    OneMore(text, k + 1, i);
    ValueOneMore(whole, fraction, text[i]);
    DigitRead(s.mantissa, s.powOf10, s.isMantissaFull, DigitsValue(whole + fraction), i - k - 1, m, d, 1);
  }

  predicate AllowedInteger(whole: string, grouping: seq<int>, sep: char) {
    forall j {:trigger whole[j]} :: 0 <= j < |whole| ==> IsDigit(whole[j]) || (grouping != [] && whole[j] == sep)
  }

  /** What an accepted scan says about the text. */
  ghost predicate Scanned(text: string, grouping: seq<int>, sep: char, point: char, s: Scan, m: nat) {
    var whole, fraction := IntegerPart(text, point), FractionPart(text, point);
    && s.stop == NumberEnd(text, point)
    && AllowedInteger(whole, grouping, sep) && AllDigits(fraction)
    && Approximates(s.mantissa, s.powOf10, s.isMantissaFull, DigitsValue(DigitsOnly(whole) + fraction), |fraction|, m)
  }

  lemma {:induction false} IntegerOnly(text: string, grouping: seq<int>, sep: char, point: char, i: nat, s: Scan,
                                       seen: bool, m: nat)
    requires i <= |text| && (i < |text| ==> EndsInteger(text[i], point) && text[i] != point)
    requires InInteger(text, grouping, sep, point, i, s, seen, m)
    ensures Scanned(text, grouping, sep, point, s.(stop := i), m)
  {
    hide Approximates, DigitsOnly;
    EndOfInteger(text, point, i);
    assert DigitsOnly(text[..i]) + "" == DigitsOnly(text[..i]);
  }

  lemma {:induction false} EndOfFraction(text: string, k: nat, i: nat)
    requires k < i <= |text| && AllDigits(text[k + 1..i]) && (i < |text| ==> IsExponentLetter(text[i]))
    ensures ExponentStart(text, k + 1) == i
  {
    var e := ExponentStart(text, k + 1);
    assert e < i ==> IsDigit(text[k + 1..i][e - k - 1]);
    assert e < |text| ==> IsExponentLetter(text[e]);
    assert i < |text| ==> IsExponentLetter(text[i]);
  }

  lemma {:induction false} WithFraction(text: string, grouping: seq<int>, sep: char, point: char, k: nat, i: nat,
                                        s: Scan, m: nat)
    requires i <= |text| && (i < |text| ==> IsExponentLetter(text[i]))
    requires InFraction(text, grouping, sep, point, k, i, s, m)
    ensures Scanned(text, grouping, sep, point, s.(stop := i), m)
  {
    hide Approximates, DigitsOnly, DigitsValue, IntegerEnd, ExponentStart;
    EndOfFraction(text, k, i);
    assert IntegerPart(text, point) == text[..k] && FractionPart(text, point) == text[k + 1..i];
  }

  /**
   The texts accepted up to the exponent. A digit is needed only in front of an exponent letter without a point,
   and a lone point is refused.
   */
  predicate IsDecimal(text: string, grouping: seq<int>, sep: char, point: char) {
    && AllowedInteger(IntegerPart(text, point), grouping, sep) && AllDigits(FractionPart(text, point))
    && (IntegerPart(text, point) != "" || (HasPoint(text, point) && |text| > 1))
    && (NumberEnd(text, point) < |text| ==> IsExponentLetter(text[NumberEnd(text, point)]))
    && GroupsFine(grouping, IntegerPart(text, point), IntegerEnd(text, point, 0) < |text|)
  }

  lemma {:induction false} NoText(grouping: seq<int>, sep: char, point: char)
    ensures !IsDecimal("", grouping, sep, point)
  {
  }

  lemma {:induction false} DigitSeen(s: string)
    requires s != "" && IsDigit(s[0])
    ensures DigitsOnly(s) != ""
  {
    if |s| > 1 {
      DigitSeen(s[..|s| - 1]);
    }
  }

  /** Where no separator was refused the first character is a digit, so no digit means no character. */
  lemma {:induction false} NothingSeen(text: string, grouping: seq<int>, sep: char, point: char, i: nat, s: Scan,
                                       seen: bool, m: nat,
                                       foundGrouping: bool, length: int, position: nat)
    requires InInteger(text, grouping, sep, point, i, s, seen, m)
    requires AtGroup(grouping, text[..i], foundGrouping, length, position)
    ensures seen <==> i > 0
  {
    hide Approximates;
    if i > 0 {
      if IsDigit(text[0]) {
        DigitSeen(text[..i]);
      } else {
        assert text[..i][..1] == [text[0]] && [text[0]][..0] == "";
        assert GroupLengths([text[0]]) == [0, 0];
        assert ClosedGroups([text[0]]) == [0];
        RefusedStaysRefused(grouping, text[..i], 1);
      }
    }
  }

  lemma {:induction false} IntegerRefused(text: string, grouping: seq<int>, sep: char, point: char, i: nat,
                                          s: Scan, seen: bool, m: nat)
    requires i < |text| && !IsDigit(text[i]) && InInteger(text, grouping, sep, point, i, s, seen, m)
    requires if EndsInteger(text[i], point) then i == 0 && (text[i] == point ==> |text| == 1)
             else !(grouping != [] && text[i] == sep)
    ensures !IsDecimal(text, grouping, sep, point)
  {
    hide Approximates, GroupsFine, DigitsOnly, DigitsValue;
    if EndsInteger(text[i], point) {
      EndOfInteger(text, point, i);
    } else {
      var k := IntegerEnd(text, point, 0);
      assert k < |text| ==> EndsInteger(text[k], point);
      var whole := text[..k];
      assert !IsDigit(whole[i]);
    }
  }

  /** A separator that is refused refuses the text. */
  lemma {:induction false} GroupRefused(text: string, grouping: seq<int>, sep: char, point: char, i: nat, s: Scan,
                                        seen: bool, m: nat)
    requires grouping != [] && InInteger(text, grouping, sep, point, i, s, seen, m)
    requires GroupPosition(grouping, ClosedGroups(text[..i])) == None
    ensures !IsDecimal(text, grouping, sep, point)
  {
    hide Approximates, DigitsOnly, DigitsValue;
    var k := IntegerEnd(text, point, 0);
    assert k < |text| ==> EndsInteger(text[k], point);
    assert text[..k][..i] == text[..i];
    RefusedStaysRefused(grouping, text[..k], i);
  }

  /** So do a wrong last group in front of a point or exponent and a separator at the end of the text. */
  lemma {:induction false} LastGroupRefused(text: string, grouping: seq<int>, sep: char, point: char, i: nat,
                                            s: Scan, seen: bool, m: nat,
                                            foundGrouping: bool, length: int, position: nat)
    requires grouping != [] && InInteger(text, grouping, sep, point, i, s, seen, m)
    requires AtGroup(grouping, text[..i], foundGrouping, length, position)
    requires if i < |text| then EndsInteger(text[i], point) && LastGroupWrong(grouping, foundGrouping, length, position)
             else i > 0 && !IsDigit(text[i - 1])
    ensures !IsDecimal(text, grouping, sep, point)
  {
    hide GroupLengths, GroupPosition, Approximates, DigitsOnly, DigitsValue;
    EndOfInteger(text, point, i);
  }

  lemma {:induction false} FractionRefused(text: string, grouping: seq<int>, sep: char, point: char, k: nat,
                                           i: nat, s: Scan, m: nat)
    requires i < |text| && !IsDigit(text[i]) && !IsExponentLetter(text[i])
    requires InFraction(text, grouping, sep, point, k, i, s, m)
    ensures !IsDecimal(text, grouping, sep, point)
  {
    hide Approximates, DigitsOnly, DigitsValue, IntegerEnd, ExponentStart, GroupsFine;
    NotADigit(text, k, i);
  }

  lemma {:induction false} NotADigit(text: string, k: nat, i: nat)
    requires k < i < |text| && AllDigits(text[k + 1..i]) && !IsDigit(text[i]) && !IsExponentLetter(text[i])
    ensures !AllDigits(text[k + 1..ExponentStart(text, k + 1)])
  {
    var e := ExponentStart(text, k + 1);
    assert e < i ==> IsDigit(text[k + 1..i][e - k - 1]);
    assert e < |text| ==> IsExponentLetter(text[e]);
    assert !IsDigit(text[k + 1..e][i - k - 1]);
  }

  lemma {:induction false} IntegerAccepted(text: string, grouping: seq<int>, sep: char, point: char, i: nat,
                                           s: Scan, seen: bool, m: nat)
    requires text != "" && i <= |text| && (i < |text| ==> EndsInteger(text[i], point) && text[i] != point && i > 0)
    requires InInteger(text, grouping, sep, point, i, s, seen, m) && GroupsFine(grouping, text[..i], i < |text|)
    ensures IsDecimal(text, grouping, sep, point)
  {
    hide Approximates, GroupsFine, DigitsOnly, DigitsValue;
    EndOfInteger(text, point, i);
  }

  lemma {:induction false} FractionAccepted(text: string, grouping: seq<int>, sep: char, point: char, k: nat,
                                            i: nat, s: Scan, m: nat)
    requires i <= |text| && (i < |text| ==> IsExponentLetter(text[i])) && (k > 0 || |text| > 1)
    requires InFraction(text, grouping, sep, point, k, i, s, m) && GroupsFine(grouping, text[..k], true)
    ensures IsDecimal(text, grouping, sep, point)
  {
    hide Approximates, GroupsFine, DigitsOnly, DigitsValue, IntegerEnd, ExponentStart;
    EndOfFraction(text, k, i);
    assert IntegerPart(text, point) == text[..k] && FractionPart(text, point) == text[k + 1..i];
  }

  lemma {:induction false} GroupsEnd(grouping: seq<int>, front: string, foundGrouping: bool, length: int,
                                     position: nat, ended: bool)
    requires AtGroup(grouping, front, foundGrouping, length, position)
    requires if ended then !LastGroupWrong(grouping, foundGrouping, length, position)
             else grouping == [] || front == "" || IsDigit(front[|front| - 1])
    ensures GroupsFine(grouping, front, ended)
  {
  }

  /**
   Scans up to the exponent. The number read so far always lies in [mantissa * 10^p, (mantissa + 1) * 10^p), whatever
   the length of the text; exactly the texts described above are accepted.
   */
  method ScanNumber(m: nat, text: string, grouping: seq<int>, sep: char, point: char) returns (r: Option<Scan>)
    requires m >= 10
    ensures r.Some? ==> Scanned(text, grouping, sep, point, r.value, m)
    ensures r.Some? <==> IsDecimal(text, grouping, sep, point)
  {
    hide DigitLost, AddDigit, InInteger, InFraction, IsDecimal, Scanned, Approximates, DigitsOnly;
    hide GroupChecked, AtGroup, GroupsFine, LastGroupWrong, IsDigit, IsExponentLetter, ValueOfDigit, NextChar;
    if text == "" {
      NoText(grouping, sep, point);
      return None;
    }
    var foundGrouping, lengthSinceLastDelim := false, 0;
    var lastGroupingPos: nat := if grouping == [] then 0 else |grouping| - 1;
    var foundDecimal, foundNumberBeforeExp := false, false;
    var s := Scan(0, 0, false, 0);
    var begin := 0;
    ghost var pointAt := 0;
    IntegerStart(text, grouping, sep, point, m);
    GroupStart(grouping);
    assert text[..0] == "";
    while begin < |text|
      invariant begin <= |text| && (grouping != [] ==> lastGroupingPos < |grouping|)
      invariant !foundDecimal ==> InInteger(text, grouping, sep, point, begin, s, foundNumberBeforeExp, m)
      invariant !foundDecimal ==> AtGroup(grouping, text[..begin], foundGrouping, lengthSinceLastDelim, lastGroupingPos)
      invariant !foundDecimal && begin == |text| ==> IsDigit(text[|text| - 1])
      invariant foundDecimal ==> InFraction(text, grouping, sep, point, pointAt, begin, s, m) && pointAt <= |text|
      invariant foundDecimal ==> GroupsFine(grouping, text[..pointAt], true) && (pointAt > 0 || |text| > 1)
    {
      var c := text[begin];
      ghost var front := text[..begin];
      FrontOneMore(text, begin);
      if foundDecimal {
        if IsExponentLetter(c) {
          break;
        }
        if !IsDigit(c) {
          FractionRefused(text, grouping, sep, point, pointAt, begin, s, m);
          return None;
        }
        FractionDigit(text, grouping, sep, point, pointAt, begin, s, m);
        var digit := ValueOfDigit(c);
        if s.isMantissaFull || DigitLost(m, s.mantissa, digit) {
          s := s.(isMantissaFull := true);
          begin := begin + 1;
          continue;
        }
        s := s.(mantissa := AddDigit(m, s.mantissa, digit), powOf10 := s.powOf10 - 1);
        foundNumberBeforeExp := true;
      } else if IsDigit(c) {
        IntegerDigit(text, grouping, sep, point, begin, s, foundNumberBeforeExp, m);
        GroupDigit(grouping, front, c, foundGrouping, lengthSinceLastDelim, lastGroupingPos);
        var digit := ValueOfDigit(c);
        if !s.isMantissaFull && !DigitLost(m, s.mantissa, digit) {
          s := s.(mantissa := AddDigit(m, s.mantissa, digit));
        } else {
          s := s.(isMantissaFull := true, powOf10 := s.powOf10 + 1);
        }
        foundNumberBeforeExp := true;
        lengthSinceLastDelim := NextChar(lengthSinceLastDelim);
      } else if c == point || IsExponentLetter(c) {
        if LastGroupWrong(grouping, foundGrouping, lengthSinceLastDelim, lastGroupingPos) {
          WrongMeansGroups(grouping, foundGrouping, lengthSinceLastDelim, lastGroupingPos);
          LastGroupRefused(text, grouping, sep, point, begin, s, foundNumberBeforeExp, m,
                           foundGrouping, lengthSinceLastDelim, lastGroupingPos);
          return None;
        }
        GroupsEnd(grouping, front, foundGrouping, lengthSinceLastDelim, lastGroupingPos, true);
        NothingSeen(text, grouping, sep, point, begin, s, foundNumberBeforeExp, m,
                    foundGrouping, lengthSinceLastDelim, lastGroupingPos);
        if !foundNumberBeforeExp && (c == point ==> |text| == 1) {
          IntegerRefused(text, grouping, sep, point, begin, s, foundNumberBeforeExp, m);
        }
        if c == point {
          FractionStart(text, grouping, sep, point, begin, s, foundNumberBeforeExp, m);
          pointAt := begin;
          begin := begin + 1;
          foundDecimal := true;
          if !foundNumberBeforeExp && begin == |text| {
            return None;
          }
          continue;
        } else {
          if !foundNumberBeforeExp {
            return None;
          }
          break;
        }
      } else if grouping != [] && c == sep {
        IntegerSeparator(text, grouping, sep, point, begin, s, foundNumberBeforeExp, m);
        GroupSeparator(grouping, front, c, foundGrouping, lengthSinceLastDelim, lastGroupingPos);
        var checked := GroupChecked(grouping, foundGrouping, lengthSinceLastDelim, lastGroupingPos);
        if checked == None {
          GroupRefused(text, grouping, sep, point, begin + 1, s, foundNumberBeforeExp, m);
          return None;
        }
        lastGroupingPos := checked.value;
        foundGrouping := true;
        lengthSinceLastDelim := 0;
        begin := begin + 1;
        if begin == |text| {
          LastGroupRefused(text, grouping, sep, point, begin, s, foundNumberBeforeExp, m,
                           foundGrouping, lengthSinceLastDelim, lastGroupingPos);
          return None;
        }
        continue;
      } else {
        IntegerRefused(text, grouping, sep, point, begin, s, foundNumberBeforeExp, m);
        return None;
      }
      begin := begin + 1;
    }
    if foundDecimal {
      WithFraction(text, grouping, sep, point, pointAt, begin, s, m);
      FractionAccepted(text, grouping, sep, point, pointAt, begin, s, m);
    } else {
      if begin == |text| {
        WholeText(text, begin);
        GroupsEnd(grouping, text[..begin], foundGrouping, lengthSinceLastDelim, lastGroupingPos, false);
      }
      IntegerAccepted(text, grouping, sep, point, begin, s, foundNumberBeforeExp, m);
      IntegerOnly(text, grouping, sep, point, begin, s, foundNumberBeforeExp, m);
    }
    r := Some(s.(stop := begin));
  }

  lemma {:induction false} FrontOneMore(text: string, i: nat)
    requires i < |text|
    ensures text[..i + 1] == text[..i] + [text[i]]
  {
  }

  lemma {:induction false} WholeText(text: string, i: nat)
    requires i == |text|
    ensures text[..i] == text
  {
  }

  lemma {:induction false} WrongMeansGroups(grouping: seq<int>, foundGrouping: bool, length: int, position: nat)
    requires LastGroupWrong(grouping, foundGrouping, length, position)
    ensures grouping != []
  {
  }
}
