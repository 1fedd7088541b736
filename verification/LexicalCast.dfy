/**
 The integer conversions of lexical_cast on machine integers: digits written backwards into a buffer,
 digits read from the right with overflow found by wrap-around, and the signed wrappers. An unsigned
 type is given by its modulus, a signed one by the modulus of its unsigned partner, halved.
 */
module LexicalCast {
  import opened DecimalText
  import opened MachineArithmetic

  // ---------- lcast_put_unsigned ----------

  /** Writes n so that it ends at `finish`; returns where it starts. */
  method PutUnsigned(nParam: nat, buffer: array<char>, finish: nat, grouping: seq<int>, sep: char)
    returns (start: nat)
    requires grouping == [] || grouping[0] <= 0 || ValidGrouping(grouping)
    requires |Written(nParam, grouping, sep)| <= finish <= buffer.Length
    modifies buffer
    ensures start + |Written(nParam, grouping, sep)| == finish
    ensures buffer[start..finish] == Written(nParam, grouping, sep)
    ensures buffer[..start] == old(buffer[..start]) && buffer[finish..] == old(buffer[finish..])
  {
    if grouping != [] && grouping[0] > 0 {
      start := PutGroups(nParam, buffer, finish, grouping, sep);
    } else {
      start := PutDigits(nParam, buffer, finish);
    }
  }

  /** What is still to be written for n, followed by what is written already. */
  ghost function PlainLeft(n: nat, more: bool): string {
    if more then Plain(n) else ""
  }

  ghost function GroupedLeft(n: nat, grouping: seq<int>, sep: char, g: nat, left: nat, more: bool): string
    requires ValidGrouping(grouping)
  {
    if more then Grouped(n, grouping, sep, g, left) else ""
  }

  lemma {:induction false} PlainLast(n: nat, rest: string)
    ensures PlainLeft(n, true) + rest == PlainLeft(n / 10, n / 10 != 0) + ([DigitChar(n % 10)] + rest)
    ensures |PlainLeft(n, true)| == |PlainLeft(n / 10, n / 10 != 0)| + 1
  {
  }

  lemma {:induction false} GroupedSeparator(n: nat, grouping: seq<int>, sep: char, g: nat, rest: string)
    requires ValidGrouping(grouping)
    ensures GroupedLeft(n, grouping, sep, g, 0, true) + rest
         == GroupedLeft(n, grouping, sep, g + 1, GroupSize(grouping, g + 1), true) + ([sep] + rest)
    ensures |GroupedLeft(n, grouping, sep, g, 0, true)|
         == |GroupedLeft(n, grouping, sep, g + 1, GroupSize(grouping, g + 1), true)| + 1
  {
  }

  lemma {:induction false} GroupedLast(n: nat, grouping: seq<int>, sep: char, g: nat, left: nat, rest: string)
    requires ValidGrouping(grouping) && left > 0
    ensures GroupedLeft(n, grouping, sep, g, left, true) + rest
         == GroupedLeft(n / 10, grouping, sep, g, left - 1, n / 10 != 0) + ([DigitChar(n % 10)] + rest)
    ensures |GroupedLeft(n, grouping, sep, g, left, true)|
         == |GroupedLeft(n / 10, grouping, sep, g, left - 1, n / 10 != 0)| + 1
  {
  }

  /** One character in front of what is written. */
  method PutChar(buffer: array<char>, next: nat, finish: nat, c: char) returns (start: nat)
    requires 0 < next <= finish <= buffer.Length
    modifies buffer
    ensures start == next - 1 && buffer[start..finish] == [c] + old(buffer[next..finish])
    ensures buffer[..start] == old(buffer[..start]) && buffer[finish..] == old(buffer[finish..])
  {
    start := next - 1;
    buffer[start] := c;
  }

  method PutDigits(nParam: nat, buffer: array<char>, finish: nat) returns (start: nat)
    requires |Plain(nParam)| <= finish <= buffer.Length
    modifies buffer
    ensures start + |Plain(nParam)| == finish && buffer[start..finish] == Plain(nParam)
    ensures buffer[..start] == old(buffer[..start]) && buffer[finish..] == old(buffer[finish..])
  {
    hide Plain;
    var n := nParam;
    start := finish;
    var more := true;
    while more
      invariant |PlainLeft(n, more)| <= start <= finish
      invariant PlainLeft(n, more) + buffer[start..finish] == Plain(nParam)
      invariant buffer[..start] == old(buffer[..start]) && buffer[finish..] == old(buffer[finish..])
      decreases more, n
    {
      PlainLast(n, buffer[start..finish]);
      start := PutChar(buffer, start, finish, DigitChar(n % 10));
      n := n / 10;
      more := n != 0;
    }
  }

  method PutGroups(nParam: nat, buffer: array<char>, finish: nat, grouping: seq<int>, sep: char)
    returns (start: nat)
    requires ValidGrouping(grouping)
    requires |Written(nParam, grouping, sep)| <= finish <= buffer.Length
    modifies buffer
    ensures start + |Written(nParam, grouping, sep)| == finish
    ensures buffer[start..finish] == Written(nParam, grouping, sep)
    ensures buffer[..start] == old(buffer[..start]) && buffer[finish..] == old(buffer[finish..])
  {
    hide Grouped, GroupedLeft, GroupSize, Written;
    GroupedEnds(nParam, grouping, sep);
    var n := nParam;
    start := finish;
    var group := 0;
    var lastGrpSize := grouping[0];
    var left := lastGrpSize;
    var more := true;
    while more
      invariant 0 <= left <= 127 && lastGrpSize == GroupSize(grouping, group)
      invariant |GroupedLeft(n, grouping, sep, group, left, more)| <= start <= finish
      invariant GroupedLeft(n, grouping, sep, group, left, more) + buffer[start..finish]
             == Written(nParam, grouping, sep)
      invariant buffer[..start] == old(buffer[..start]) && buffer[finish..] == old(buffer[finish..])
      decreases more, n
    {
      if left == 0 {
        GroupedSeparator(n, grouping, sep, group, buffer[start..finish]);
        NextSize(grouping, group);
        group := group + 1;
        if group < |grouping| {
          var grpSize := grouping[group];
          lastGrpSize := if grpSize <= 0 then 127 else grpSize;
        }
        left := lastGrpSize;
        start := PutChar(buffer, start, finish, sep);
      }
      GroupedLast(n, grouping, sep, group, left, buffer[start..finish]);
      left := left - 1;
      start := PutChar(buffer, start, finish, DigitChar(n % 10));
      n := n / 10;
      more := n != 0;
    }
    NothingToWrite(n, grouping, sep, group, left, buffer[start..finish]);
  }

  lemma {:induction false} GroupedEnds(n: nat, grouping: seq<int>, sep: char)
    requires ValidGrouping(grouping)
    ensures GroupSize(grouping, 0) == grouping[0]
    ensures GroupedLeft(n, grouping, sep, 0, grouping[0], true) + "" == Written(n, grouping, sep)
  {
    assert GroupedLeft(n, grouping, sep, 0, grouping[0], true) + ""
        == GroupedLeft(n, grouping, sep, 0, grouping[0], true);
  }

  lemma {:induction false} NothingToWrite(n: nat, grouping: seq<int>, sep: char, g: nat, left: nat, rest: string)
    requires ValidGrouping(grouping)
    ensures |GroupedLeft(n, grouping, sep, g, left, false)| == 0
    ensures GroupedLeft(n, grouping, sep, g, left, false) + rest == rest
  {
    assert "" + rest == rest;
  }

  lemma {:induction false} NextSize(grouping: seq<int>, g: nat)
    requires ValidGrouping(grouping)
    ensures g + 1 < |grouping| ==> GroupSize(grouping, g + 1) == if grouping[g + 1] <= 0 then 127 else grouping[g + 1]
    ensures g + 1 >= |grouping| ==> GroupSize(grouping, g + 1) == GroupSize(grouping, g)
  {
  }

  // ---------- lcast_ret_unsigned ----------

  /** The multiplier and its overflow flag stand for the power of ten P in a type of modulus m. */
  ghost predicate Multiplies(multiplier: nat, overflowed: bool, P: nat, m: nat) {
    multiplier < m && if P < m then !overflowed && multiplier == P else overflowed
  }

  lemma {:induction false} NextMultiplier(multiplier: nat, overflowed: bool, P: nat, m: nat)
    requires m >= 10 && Multiplies(multiplier, overflowed, P, m)
    ensures Multiplies(multiplier * 10 % m, overflowed || (multiplier * 10 % m) / 10 != multiplier, 10 * P, m)
  {
    WrapDetected(multiplier, 10, m);
    if multiplier * 10 < m {
      SmallRemainder(multiplier * 10, m);
    }
  }

  /** One of the three overflow tests on a digit fires; subValue is the wrapped product of digit and multiplier. */
  predicate Overflows(m: nat, d: nat, subValue: nat, value: nat, multiplier: nat, overflowed: bool)
    requires m > 0
  {
    || (d != 0 && subValue / d != multiplier)
    || (m - 1 - subValue) % m < value
    || (overflowed && d != 0)
  }

  lemma {:induction false} WrappedProduct(multiplier: nat, d: nat, m: nat)
    requires multiplier < m
    ensures multiplier * d < m ==> multiplier * d % m == multiplier * d
    ensures d != 0 ==> ((multiplier * d % m) / d != multiplier <==> multiplier * d >= m)
  {
    if multiplier * d < m {
      SmallRemainder(multiplier * d, m);
    }
    if d != 0 {
      WrapDetected(multiplier, d, m);
    }
  }

  /** Together the tests miss no overflow and reject nothing that fits. */
  lemma {:induction false} OverflowTestsAreExact(m: nat, d: nat, value: nat, multiplier: nat, overflowed: bool, P: nat)
    requires value < m && Multiplies(multiplier, overflowed, P, m)
    ensures Overflows(m, d, multiplier * d % m, value, multiplier, overflowed) <==> d * P + value >= m
    ensures d * P + value < m ==> (value + multiplier * d % m) % m == d * P + value
  {
    var subValue := multiplier * d % m;
    SmallRemainder(m - 1 - subValue, m);
    WrappedProduct(multiplier, d, m);
    if d == 0 {
      assert multiplier * d == 0 && d * P == 0;
      SmallRemainder(value, m);
    } else if overflowed {
      AtLeast(d, P);
    } else {
      assert multiplier * d == d * P;
      if d * P + value < m {
        SmallRemainder(value + subValue, m);
      }
    }
  }

  /** The body of both reading loops: one more digit to the left of those taken so far. */
  method TakeDigit(m: nat, c: char, value: nat, multiplier: nat, overflowed: bool, ghost P: nat)
    returns (ok: bool, value': nat, multiplier': nat, overflowed': bool)
    requires m >= 10 && value < m && Multiplies(multiplier, overflowed, P, m)
    ensures ok <==> IsDigit(c) && ValueOfDigit(c) * (10 * P) + value < m
    ensures value' == if ok then ValueOfDigit(c) * (10 * P) + value else value
    ensures ok ==> Multiplies(multiplier', overflowed', 10 * P, m)
  {
    hide Overflows, Multiplies;
    NextMultiplier(multiplier, overflowed, P, m);
    multiplier' := multiplier * 10 % m;
    overflowed' := overflowed || multiplier' / 10 != multiplier;
    if !IsDigit(c) {
      return false, value, multiplier', overflowed';
    }
    var digValue := ValueOfDigit(c);
    OverflowTestsAreExact(m, digValue, value, multiplier', overflowed', 10 * P);
    var newSubValue := multiplier' * digValue % m;
    if Overflows(m, digValue, newSubValue, value, multiplier', overflowed') {
      return false, value, multiplier', overflowed';
    }
    value' := (value + newSubValue) % m;
    ok := true;
  }

  /** What is read in the end when `read` is read to the left of the digits already taken. */
  ghost function Before(read: Option<string>, taken: string): Option<string> {
    match read
    case None => None
    case Some(d) => Some(d + taken)
  }

  /** What the plain loop reads: nothing but digits. */
  ghost function PlainRead(rest: string): (r: Option<string>)
    ensures r.Some? ==> AllDigits(r.value)
  {
    if AllDigits(rest) then Some(rest) else None
  }

  /** A text that was read and is worth less than m. */
  ghost predicate Fits(read: Option<string>, m: nat) {
    read.Some? && AllDigits(read.value) && DigitsValue(read.value) < m
  }

  lemma {:induction false} OneMoreDigit(c: char, taken: string)
    requires IsDigit(c) && AllDigits(taken) && taken != ""
    ensures AllDigits([c] + taken)
    ensures DigitsValue([c] + taken) == ValueOfDigit(c) * (10 * Pow10(|taken| - 1)) + DigitsValue(taken)
    ensures Pow10(|[c] + taken| - 1) == 10 * Pow10(|taken| - 1)
  {
    ValueOfConcat([c], taken);
    assert [c][..0] == "";
  }

  /** Digits to the left only add to the value. */
  lemma {:induction false} LeftDigitsAdd(read: Option<string>, taken: string, m: nat)
    requires AllDigits(taken) && DigitsValue(taken) >= m
    ensures !Fits(Before(read, taken), m)
  {
    hide DigitsValue, Pow10;
    if read.Some? && AllDigits(read.value + taken) {
      assert forall i :: 0 <= i < |read.value| ==> (read.value + taken)[i] == read.value[i];
      ValueOfConcat(read.value, taken);
      SmallerProduct(DigitsValue(read.value), 0, Pow10(|taken|));
    }
  }

  lemma {:induction false} PlainStep(rest: string, taken: string)
    requires rest != ""
    ensures !IsDigit(rest[|rest| - 1]) ==> PlainRead(rest) == None
    ensures IsDigit(rest[|rest| - 1]) ==>
      Before(PlainRead(rest), taken) == Before(PlainRead(rest[..|rest| - 1]), [rest[|rest| - 1]] + taken)
  {
    var init, c := rest[..|rest| - 1], rest[|rest| - 1];
    assert rest == init + [c];
    assert (init + [c]) + taken == init + ([c] + taken);
  }

  lemma {:induction false} GroupStep(rest: string, grouping: seq<int>, sep: char, current: nat, remained: nat,
                                     taken: string)
    requires rest != "" && current < |grouping| && remained != 0
    ensures !IsDigit(rest[|rest| - 1]) ==> DigitsRead(rest, grouping, sep, current, remained) == None
    ensures IsDigit(rest[|rest| - 1]) ==>
      Before(DigitsRead(rest, grouping, sep, current, remained), taken)
      == Before(DigitsRead(rest[..|rest| - 1], grouping, sep, current, remained - 1), [rest[|rest| - 1]] + taken)
  {
    var init, c := rest[..|rest| - 1], rest[|rest| - 1];
    var read := DigitsRead(init, grouping, sep, current, remained - 1);
    if IsDigit(c) && read.Some? {
      assert (read.value + [c]) + taken == read.value + ([c] + taken);
    }
  }

  /** A digit that does not fit below m ends the reading, one that does is added on the left. */
  lemma {:induction false} DigitDecides(c: char, rest: Option<string>, taken: string, m: nat)
    requires IsDigit(c) && AllDigits(taken) && taken != ""
    ensures AllDigits([c] + taken)
    ensures DigitsValue([c] + taken) == ValueOfDigit(c) * (10 * Pow10(|taken| - 1)) + DigitsValue(taken)
    ensures Pow10(|[c] + taken| - 1) == 10 * Pow10(|taken| - 1)
    ensures DigitsValue([c] + taken) >= m ==> !Fits(Before(rest, [c] + taken), m)
  {
    OneMoreDigit(c, taken);
    if DigitsValue([c] + taken) >= m {
      LeftDigitsAdd(rest, [c] + taken, m);
    }
  }

  /** The state of a reading loop: the value and the multiplier belong to the digits taken so far. */
  ghost predicate Reading(m: nat, taken: string, value: nat, multiplier: nat, overflowed: bool) {
    && taken != "" && AllDigits(taken)
    && value == DigitsValue(taken) < m
    && Multiplies(multiplier, overflowed, Pow10(|taken| - 1), m)
  }

  /** The plain loop: everything left of `end` must be digits. */
  method ReadPlain(m: nat, text: string, endParam: nat, valueParam: nat, multiplierParam: nat, overflowedParam: bool,
                   ghost takenParam: string)
    returns (ok: bool, value: nat)
    requires m >= 10 && endParam <= |text| && Reading(m, takenParam, valueParam, multiplierParam, overflowedParam)
    ensures ok <==> Fits(Before(PlainRead(text[..endParam]), takenParam), m)
    ensures ok ==> value == DigitsValue(Before(PlainRead(text[..endParam]), takenParam).value)
    ensures value < m
  {
    hide Multiplies, Pow10, DigitsValue, AllDigits, PlainRead, Fits;
    var end, multiplier, overflowed := endParam, multiplierParam, overflowedParam;
    ghost var taken := takenParam;
    ghost var whole := Before(PlainRead(text[..endParam]), takenParam);
    value := valueParam;
    while 0 < end
      invariant 0 <= end <= endParam && Reading(m, taken, value, multiplier, overflowed)
      invariant whole == Before(PlainRead(text[..end]), taken)
    {
      var c := text[end - 1];
      PlainStep(text[..end], taken);
      assert text[..end][..end - 1] == text[..end - 1];
      ok, value, multiplier, overflowed := TakeDigit(m, c, value, multiplier, overflowed, Pow10(|taken| - 1));
      if IsDigit(c) {
        DigitDecides(c, PlainRead(text[..end - 1]), taken, m);
      } else {
        NothingRead(taken, m);
      }
      if !ok {
        return;
      }
      end := end - 1;
      taken := [c] + taken;
    }
    AllTaken(text[..end], taken, m);
    ok := true;
  }

  lemma {:induction false} NothingRead(taken: string, m: nat)
    ensures !Fits(Before(None, taken), m)
  {
  }

  lemma {:induction false} AllTaken(rest: string, taken: string, m: nat)
    requires rest == "" && AllDigits(taken) && DigitsValue(taken) < m
    ensures Before(PlainRead(rest), taken) == Before(Some(""), taken) == Some(taken) && Fits(Some(taken), m)
  {
    assert "" + taken == taken;
  }

  /**
   Reads a number of an unsigned type of modulus m; ok and the value are exactly those of the text's
   digits read without any bound.
   */
  method RetUnsigned(m: nat, text: string, grouping: seq<int>, sep: char) returns (ok: bool, value: nat)
    requires m >= 10
    requires grouping == [] || grouping[0] <= 0 || ValidGrouping(grouping)
    ensures ok <==> Fits(NumberRead(text, grouping, sep), m)
    ensures grouping == [] ==> (ok <==> text != "" && AllDigits(text) && DigitsValue(text) < m)
    ensures ok ==> value == DigitsValue(NumberRead(text, grouping, sep).value)
    ensures value < m
  {
    hide Multiplies, DigitsValue, DigitsRead;
    var end := |text| - 1;
    value := 0;
    if 0 > end || text[end] < '0' || text[end] > '9' {
      NothingRead("", m);
      return false, value;
    }
    value := text[end] as int - '0' as int;
    var c := text[end];
    StartReading(c, m);
    var multiplier, overflowed := 1, false;
    if grouping != [] && grouping[0] > 0 {
      ok, value := ReadGroups(m, text, end, value, multiplier, overflowed, grouping, sep, [c]);
    } else {
      PlainWhole(text);
      ok, value := ReadPlain(m, text, end, value, multiplier, overflowed, [c]);
    }
  }

  lemma {:induction false} PlainWhole(text: string)
    requires text != "" && IsDigit(text[|text| - 1])
    ensures Before(PlainRead(text[..|text| - 1]), [text[|text| - 1]]) == PlainRead(text)
  {
    var init, c := text[..|text| - 1], text[|text| - 1];
    assert text == init + [c];
  }

  lemma {:induction false} StartReading(c: char, m: nat)
    requires IsDigit(c) && m >= 10
    ensures Reading(m, [c], ValueOfDigit(c), 1, false)
  {
    assert [c][..0] == "";
  }

  /** The grouped loop; it gives up on groups and goes on with plain digits where a separator is missing. */
  method ReadGroups(m: nat, text: string, endParam: nat, valueParam: nat, multiplierParam: nat, overflowedParam: bool,
                    grouping: seq<int>, sep: char, ghost takenParam: string)
    returns (ok: bool, value: nat)
    requires m >= 10 && endParam <= |text| && ValidGrouping(grouping)
    requires Reading(m, takenParam, valueParam, multiplierParam, overflowedParam)
    ensures var read := Before(DigitsRead(text[..endParam], grouping, sep, 0, grouping[0] - 1), takenParam);
            (ok <==> Fits(read, m)) && (ok ==> value == DigitsValue(read.value))
    ensures value < m
  {
    hide Multiplies, Pow10, DigitsValue, AllDigits, DigitsRead, PlainRead, Fits, NextGroup, Remaining;
    var end, multiplier, overflowed := endParam, multiplierParam, overflowedParam;
    var currentGrouping := 0;
    var remained := grouping[0] - 1;
    ghost var taken := takenParam;
    ghost var whole := Before(DigitsRead(text[..endParam], grouping, sep, 0, grouping[0] - 1), takenParam);
    value := valueParam;
    while 0 < end
      invariant 0 <= end <= endParam && Reading(m, taken, value, multiplier, overflowed)
      invariant 0 <= currentGrouping < |grouping| && remained >= 0
      invariant whole == Before(DigitsRead(text[..end], grouping, sep, currentGrouping, remained), taken)
    {
      var c := text[end - 1];
      ghost var rest := text[..end];
      assert rest[..|rest| - 1] == text[..end - 1];
      if remained != 0 {
        GroupStep(rest, grouping, sep, currentGrouping, remained, taken);
        ok, value, multiplier, overflowed := TakeDigit(m, c, value, multiplier, overflowed, Pow10(|taken| - 1));
        if IsDigit(c) {
          DigitDecides(c, DigitsRead(text[..end - 1], grouping, sep, currentGrouping, remained - 1), taken, m);
        } else {
          NothingRead(taken, m);
        }
        if !ok {
          return;
        }
        taken := [c] + taken;
        remained := remained - 1;
      } else {
        SeparatorStep(rest, grouping, sep, currentGrouping);
        if c != sep {
          ok, value := ReadPlain(m, text, end, value, multiplier, overflowed, taken);
          return;
        }
        if end == 1 {
          NothingRead(taken, m);
          return false, value;
        }
        currentGrouping := NextGroup(grouping, currentGrouping);
        remained := Remaining(grouping, currentGrouping);
      }
      end := end - 1;
    }
    NothingLeft(text[..end], grouping, sep, currentGrouping, remained);
    AllTaken("", taken, m);
    ok := true;
  }

  lemma {:induction false} NothingLeft(rest: string, grouping: seq<int>, sep: char, current: nat, remained: nat)
    requires rest == "" && current < |grouping|
    ensures DigitsRead(rest, grouping, sep, current, remained) == Some("")
  {
  }

  lemma {:induction false} SeparatorStep(rest: string, grouping: seq<int>, sep: char, current: nat)
    requires rest != "" && current < |grouping|
    ensures rest[|rest| - 1] != sep ==> DigitsRead(rest, grouping, sep, current, 0) == PlainRead(rest)
    ensures rest[|rest| - 1] == sep && |rest| == 1 ==> DigitsRead(rest, grouping, sep, current, 0) == None
    ensures rest[|rest| - 1] == sep && |rest| > 1 ==>
      var g := NextGroup(grouping, current);
      DigitsRead(rest, grouping, sep, current, 0)
      == DigitsRead(rest[..|rest| - 1], grouping, sep, g, Remaining(grouping, g))
  {
  }

  // ---------- the signed wrappers ----------

  /** The value of an unsigned type of modulus m that a signed value of the same width converts to. */
  function ToUnsigned(v: int, m: nat): (u: nat)
    requires m > 0
    ensures u < m
  {
    v % m
  }

  /** The signed value whose two's complement pattern is u. */
  function ToSigned(u: nat, half: nat): int
    requires u < 2 * half
  {
    if u < half then u else u - 2 * half
  }

  /** The values of a signed type whose unsigned partner has modulus 2 * half. */
  predicate InSigned(v: int, half: nat) {
    -(half as int) <= v < half
  }

  /** lcast_to_unsigned: the magnitude, by unsigned negation. */
  function LcastToUnsigned(v: int, half: nat): (u: nat)
    requires InSigned(v, half)
  {
    var m := 2 * half;
    if v < 0 then ToUnsigned(0 - ToUnsigned(v, m), m) else v
  }

  function Magnitude(v: int): nat {
    if v < 0 then -v else v
  }

  lemma {:induction false} UnsignedNegationIsMagnitude(v: int, half: nat)
    requires InSigned(v, half)
    ensures LcastToUnsigned(v, half) == Magnitude(v)
  {
    if v < 0 {
      QuotientIs(v, 2 * half, -1, 2 * half + v);
      QuotientIs(-(2 * half + v), 2 * half, -1, -v);
    }
  }

  lemma {:induction false} NegatedPattern(u: nat, half: nat)
    requires u <= half && half > 0
    ensures ToSigned(ToUnsigned(0 - u, 2 * half), half) == -(u as int)
  {
    if u == 0 {
      SmallRemainder(0, 2 * half);
    } else {
      QuotientIs(-(u as int), 2 * half, -1, 2 * half - u);
    }
  }

  /** The text of a signed number. */
  function SignedText(v: int, grouping: seq<int>, sep: char): string
    requires grouping == [] || grouping[0] <= 0 || ValidGrouping(grouping)
  {
    (if v < 0 then "-" else "") + Written(Magnitude(v), grouping, sep)
  }

  /** The text behind an optional sign. */
  function Unsigned(text: string): string {
    if text != "" && (text[0] == '-' || text[0] == '+') then text[1..] else text
  }

  /** The number a text with an optional sign stands for, without any bound. */
  function SignedRead(text: string, grouping: seq<int>, sep: char): Option<int>
    requires grouping == [] || grouping[0] <= 0 || ValidGrouping(grouping)
  {
    match NumberRead(Unsigned(text), grouping, sep)
    case None => None
    case Some(d) => Some(if text != "" && text[0] == '-' then -(DigitsValue(d) as int) else DigitsValue(d))
  }

  /** digits10 of a type whose values have magnitude at most `bound`: every number of that many digits fits. */
  ghost predicate Digits10(digits10: nat, bound: nat) {
    Pow10(digits10) <= bound < Pow10(digits10 + 1)
  }

  /** lcast_src_length_integral is enough for every number under every grouping list. */
  lemma {:induction false} TextFits(n: nat, bound: nat, digits10: nat, grouping: seq<int>, sep: char)
    requires grouping == [] || grouping[0] <= 0 || ValidGrouping(grouping)
    requires n <= bound && Digits10(digits10, bound)
    ensures |Plain(n)| <= digits10 + 1
    ensures |Written(n, grouping, sep)| <= 1 + 2 * digits10
  {
    PlainLength(n, digits10 + 1);
    if grouping != [] && grouping[0] > 0 {
      GroupedLength(n, grouping, sep, 0, GroupSize(grouping, 0));
    }
  }

  function SrcLengthIntegral(isSigned: bool, digits10: nat): nat {
    (if isSigned then 1 else 0) + 1 + digits10 * 2
  }

  method ShlSigned(v: int, half: nat, buffer: array<char>, finish: nat, grouping: seq<int>,
                   sep: char) returns (start: nat)
    requires InSigned(v, half)
    requires grouping == [] || grouping[0] <= 0 || ValidGrouping(grouping)
    requires |SignedText(v, grouping, sep)| <= finish <= buffer.Length
    modifies buffer
    ensures start + |SignedText(v, grouping, sep)| == finish
    ensures buffer[start..finish] == SignedText(v, grouping, sep)
    ensures buffer[..start] == old(buffer[..start]) && buffer[finish..] == old(buffer[finish..])
  {
    hide Written;
    UnsignedNegationIsMagnitude(v, half);
    start := PutUnsigned(LcastToUnsigned(v, half), buffer, finish, grouping, sep);
    if v < 0 {
      start := PutChar(buffer, start, finish, '-');
    }
  }

  /** Reads an unsigned number with an optional sign; a minus sign negates in the type. */
  method ShrUnsigned(m: nat, text: string, grouping: seq<int>, sep: char) returns (ok: bool, output: nat)
    requires m >= 10
    requires grouping == [] || grouping[0] <= 0 || ValidGrouping(grouping)
    ensures ok <==> SignedRead(text, grouping, sep).Some? && Magnitude(SignedRead(text, grouping, sep).value) < m
    ensures ok ==> output == ToUnsigned(SignedRead(text, grouping, sep).value, m)
  {
    hide NumberRead, DigitsValue;
    if text == "" {
      NoNumber(grouping, sep);
      return false, 0;
    }
    var start, hasMinus := 0, false;
    if text[start] == '-' {
      start := start + 1;
      hasMinus := true;
    } else if text[start] == '+' {
      start := start + 1;
    }
    var value;
    ok, value := RetUnsigned(m, text[start..], grouping, sep);
    output := if hasMinus then ToUnsigned(-(value as int), m) else value;
    SmallRemainder(value, m);
  }

  lemma {:induction false} NoNumber(grouping: seq<int>, sep: char)
    requires grouping == [] || grouping[0] <= 0 || ValidGrouping(grouping)
    ensures NumberRead("", grouping, sep) == None
  {
  }

  /** Reads a signed number: accepted exactly when it is one and lies in the type, then stored exactly. */
  method ShrSigned(half: nat, text: string, grouping: seq<int>, sep: char) returns (ok: bool, output: int)
    requires half >= 10
    requires grouping == [] || grouping[0] <= 0 || ValidGrouping(grouping)
    ensures ok <==> SignedRead(text, grouping, sep).Some? && InSigned(SignedRead(text, grouping, sep).value, half)
    ensures ok ==> output == SignedRead(text, grouping, sep).value
    ensures InSigned(output, half)
  {
    hide NumberRead, DigitsValue;
    if text == "" {
      NoNumber(grouping, sep);
      return false, 0;
    }
    var start, hasMinus := 0, false;
    if text[start] == '-' {
      start := start + 1;
      hasMinus := true;
    } else if text[start] == '+' {
      start := start + 1;
    }
    var outTmp;
    ok, outTmp := RetUnsigned(2 * half, text[start..], grouping, sep);
    if hasMinus {
      var compVal := half;
      ok := ok && outTmp <= compVal;
      output := ToSigned(ToUnsigned(0 - outTmp, 2 * half), half);
      if outTmp <= half {
        NegatedPattern(outTmp, half);
      }
    } else {
      var compVal := half - 1;
      ok := ok && outTmp <= compVal;
      output := ToSigned(outTmp, half);
    }
  }

  // ---------- print, then parse ----------

  /** A signed number's text is read as that number if and only if its digits are not ambiguous. */
  lemma {:induction false} SignedTextIsRead(v: int, grouping: seq<int>, sep: char)
    requires grouping == [] || grouping[0] <= 0 || ValidGrouping(grouping)
    requires |Plain(Magnitude(v))| <= 127
    ensures SignedRead(SignedText(v, grouping, sep), grouping, sep) == Some(v)
       <==> !Ambiguous(Magnitude(v), grouping, sep)
  {
    hide NumberRead, Written, DigitsValue, Plain, Ambiguous;
    var text, n := SignedText(v, grouping, sep), Magnitude(v);
    WrittenIsRead(n, grouping, sep);
    WrittenStart(n, grouping, sep);
    PlainValue(n);
    if v < 0 {
      assert text[1..] == Written(n, grouping, sep);
    } else {
      assert text == Written(n, grouping, sep);
    }
    if Ambiguous(n, grouping, sep) {
      AmbiguousHasTwoDigits(n, grouping, sep);
      var read := NumberRead(Written(n, grouping, sep), grouping, sep);
      if read.Some? {
        FewerDigitsAreWorthLess(read.value, n);
      }
    }
  }

  lemma {:induction false} AmbiguousHasTwoDigits(n: nat, grouping: seq<int>, sep: char)
    requires grouping == [] || grouping[0] <= 0 || ValidGrouping(grouping)
    requires Ambiguous(n, grouping, sep)
    ensures n >= 10
  {
  }

  lemma {:induction false} WrittenStart(n: nat, grouping: seq<int>, sep: char)
    requires grouping == [] || grouping[0] <= 0 || ValidGrouping(grouping)
    ensures Written(n, grouping, sep) != "" && IsDigit(Written(n, grouping, sep)[0])
  {
    if grouping != [] && grouping[0] > 0 {
      GroupedStart(n, grouping, sep, 0, GroupSize(grouping, 0));
    }
  }

  /**
   Every signed value, the minimum included, is read back from a buffer of the computed length, unless its digits
   are ambiguous under the grouping list; lists of positive sizes never make them so.
   */
  method PrintThenParseSigned(v: int, half: nat, digits10: nat, grouping: seq<int>, sep: char)
    returns (ok: bool, w: int)
    requires half >= 10 && InSigned(v, half) && Digits10(digits10, half) && digits10 < 127
    requires grouping == [] || grouping[0] <= 0 || ValidGrouping(grouping)
    ensures ok && w == v <==> !Ambiguous(Magnitude(v), grouping, sep)
    ensures (forall i :: 0 <= i < |grouping| ==> grouping[i] > 0) ==> ok && w == v
  {
    hide Written, Plain, SignedRead, Digits10, Ambiguous;
    TextFits(Magnitude(v), half, digits10, grouping, sep);
    SignedTextIsRead(v, grouping, sep);
    PositiveSizesAreUnambiguous(Magnitude(v), grouping, sep);
    var length := SrcLengthIntegral(true, digits10);
    var buffer := new char[length];
    var start := ShlSigned(v, half, buffer, length, grouping, sep);
    ok, w := ShrSigned(half, buffer[start..length], grouping, sep);
  }

  method PrintThenParseUnsigned(n: nat, m: nat, digits10: nat, grouping: seq<int>, sep: char) returns (ok: bool, w: nat)
    requires m >= 10 && n < m && Digits10(digits10, m) && digits10 < 127
    requires grouping == [] || grouping[0] <= 0 || ValidGrouping(grouping)
    ensures ok && w == n <==> !Ambiguous(n, grouping, sep)
    ensures (forall i :: 0 <= i < |grouping| ==> grouping[i] > 0) ==> ok && w == n
  {
    hide Written, Plain, SignedRead, Digits10, Ambiguous;
    TextFits(n, m, digits10, grouping, sep);
    SignedTextIsRead(n, grouping, sep);
    PositiveSizesAreUnambiguous(n, grouping, sep);
    assert SignedText(n, grouping, sep) == Written(n, grouping, sep);
    SmallRemainder(n, m);
    var length := SrcLengthIntegral(false, digits10);
    var buffer := new char[length];
    var start := PutUnsigned(n, buffer, length, grouping, sep);
    ok, w := ShrUnsigned(m, buffer[start..length], grouping, sep);
    ghost var read := SignedRead(buffer[start..length], grouping, sep);
    WrittenHasNoSign(n, grouping, sep);
    if read.Some? && read.value < m {
      SmallRemainder(read.value, m);
    }
  }

  lemma {:induction false} WrittenHasNoSign(n: nat, grouping: seq<int>, sep: char)
    requires grouping == [] || grouping[0] <= 0 || ValidGrouping(grouping)
    ensures var read := SignedRead(Written(n, grouping, sep), grouping, sep);
            read.Some? ==> read.value >= 0
  {
    hide NumberRead, Written, DigitsValue;
    WrittenStart(n, grouping, sep);
  }

  lemma {:induction false} PositiveSizesAreUnambiguous(n: nat, grouping: seq<int>, sep: char)
    requires grouping == [] || grouping[0] <= 0 || ValidGrouping(grouping)
    ensures (forall i :: 0 <= i < |grouping| ==> grouping[i] > 0) ==> !Ambiguous(n, grouping, sep)
    ensures !IsDigit(sep) ==> !Ambiguous(n, grouping, sep)
  {
    if grouping != [] && grouping[0] > 0 {
      if !IsDigit(sep) || forall i :: 0 <= i < |grouping| ==> grouping[i] > 0 {
        NotMisread(n, grouping, sep, 0, grouping[0]);
      }
    }
  }

  /** A plus sign in front of a number's text changes nothing; a minus sign makes it the opposite number. */
  lemma {:induction false} SignsAreRead(n: nat, grouping: seq<int>, sep: char)
    requires grouping == [] || grouping[0] <= 0 || ValidGrouping(grouping)
    requires |Plain(n)| <= 127 && !Ambiguous(n, grouping, sep)
    ensures SignedRead("+" + Written(n, grouping, sep), grouping, sep) == Some(n)
    ensures SignedRead("-" + Written(n, grouping, sep), grouping, sep) == Some(-(n as int))
  {
    hide NumberRead, Written, DigitsValue, Plain, Ambiguous;
    var text := Written(n, grouping, sep);
    WrittenIsRead(n, grouping, sep);
    PlainValue(n);
    assert ("+" + text)[1..] == text && ("-" + text)[1..] == text;
  }

  lemma {:induction false} SingleDigitGroups(n: nat, sep: char, g: nat)
    ensures |Grouped(n, [1], sep, g, 1)| == 2 * |Plain(n)| - 1
  {
    if n >= 10 {
      SingleDigitGroups(n / 10, sep, g + 1);
    }
  }

  /** The computed buffer length is not too long: a number of digits10 + 1 digits in groups of one digit fills it. */
  lemma {:induction false} BufferIsFilled(n: nat, digits10: nat, sep: char)
    requires |Plain(n)| == digits10 + 1 && n > 0
    ensures |Written(n, [1], sep)| == SrcLengthIntegral(false, digits10)
    ensures |SignedText(-(n as int), [1], sep)| == SrcLengthIntegral(true, digits10)
  {
    SingleDigitGroups(n, sep, 0);
  }
}
