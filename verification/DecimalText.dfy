/**
 Decimal text: what a run of digits is worth, how a number is written with or without digit groups,
 and how a right-to-left reader takes such text apart.
 */
module DecimalText {

  datatype Option<+T> = None | Some(value: T)

  predicate IsDigit(c: char) {
    '0' <= c <= '9'
  }

  predicate AllDigits(s: string) {
    forall i :: 0 <= i < |s| ==> IsDigit(s[i])
  }

  function DigitChar(d: nat): (c: char)
    requires d < 10
    ensures IsDigit(c) && c as int - '0' as int == d
  {
    ('0' as int + d) as char
  }

  function ValueOfDigit(c: char): (d: nat)
    requires IsDigit(c)
    ensures d < 10
  {
    c as int - '0' as int
  }

  /** The number a run of digits stands for. */
  function DigitsValue(s: string): nat
    requires AllDigits(s)
  {
    if s == "" then 0 else 10 * DigitsValue(s[..|s| - 1]) + ValueOfDigit(s[|s| - 1])
  }

  function Pow10(k: nat): (p: nat)
    ensures p >= 1
  {
    if k == 0 then 1 else 10 * Pow10(k - 1)
  }

  lemma {:induction false} ValueOfConcat(a: string, b: string)
    requires AllDigits(a) && AllDigits(b)
    ensures AllDigits(a + b)
    ensures DigitsValue(a + b) == DigitsValue(a) * Pow10(|b|) + DigitsValue(b)
    decreases |b|
  {
    if b == "" {
      assert a + b == a;
    } else {
      var b' := b[..|b| - 1];
      ValueOfConcat(a, b');
      assert (a + b)[..|a + b| - 1] == a + b';
      Distribute(DigitsValue(a), Pow10(|b'|), DigitsValue(b'));
    }
  }

  lemma {:induction false} Distribute(a: nat, p: nat, b: nat)
    ensures 10 * (a * p + b) == a * (10 * p) + 10 * b
  {
  }

  lemma {:induction false} ValueBelow(s: string)
    requires AllDigits(s)
    ensures DigitsValue(s) < Pow10(|s|)
    decreases |s|
  {
    if s != "" {
      ValueBelow(s[..|s| - 1]);
    }
  }

  /** The shortest digits of a number. */
  function Plain(n: nat): (s: string)
    ensures AllDigits(s) && |s| >= 1
  {
    if n < 10 then [DigitChar(n)] else Plain(n / 10) + [DigitChar(n % 10)]
  }

  lemma {:induction false} PlainValue(n: nat)
    ensures DigitsValue(Plain(n)) == n
  {
    if n >= 10 {
      PlainValue(n / 10);
      assert Plain(n)[..|Plain(n)| - 1] == Plain(n / 10);
    } else {
      assert Plain(n)[..0] == "";
    }
  }

  lemma {:induction false} PlainLength(n: nat, k: nat)
    requires n < Pow10(k) && k >= 1
    ensures |Plain(n)| <= k
  {
    if n >= 10 {
      PlainLength(n / 10, k - 1);
    }
  }

  /** The digits of s, separators left out. */
  function DigitsOnly(s: string): (d: string)
    ensures AllDigits(d)
    ensures AllDigits(s) ==> d == s
  {
    if s == "" then ""
    else
      var last := s[|s| - 1];
      if IsDigit(last) then DigitsOnly(s[..|s| - 1]) + [last] else DigitsOnly(s[..|s| - 1])
  }

  // ---------- digit groups ----------

  /** A grouping list as the locale gives it: signed characters; only the first must be positive. */
  predicate ValidGrouping(grouping: seq<int>) {
    |grouping| >= 1 && 0 < grouping[0] && forall i :: 0 <= i < |grouping| ==> -128 <= grouping[i] <= 127
  }

  /** The size the writer uses for group g; no positive size means an unlimited group. */
  function GroupSize(grouping: seq<int>, g: nat): (size: nat)
    requires ValidGrouping(grouping)
    ensures 0 < size <= 127
  {
    var raw := grouping[if g < |grouping| then g else |grouping| - 1];
    if raw <= 0 then 127 else raw
  }

  /** The text written for n when `left` digits still fit in group g. */
  function Grouped(n: nat, grouping: seq<int>, sep: char, g: nat, left: nat): (s: string)
    requires ValidGrouping(grouping)
    decreases n, if left == 0 then 1 else 0
  {
    if left == 0 then Grouped(n, grouping, sep, g + 1, GroupSize(grouping, g + 1)) + [sep]
    else (if n < 10 then "" else Grouped(n / 10, grouping, sep, g, left - 1)) + [DigitChar(n % 10)]
  }

  /** What lcast_put_unsigned writes; an empty list or a first size below one means no groups. */
  function Written(n: nat, grouping: seq<int>, sep: char): (s: string)
    requires grouping == [] || grouping[0] <= 0 || ValidGrouping(grouping)
  {
    if grouping == [] || grouping[0] <= 0 then Plain(n) else Grouped(n, grouping, sep, 0, GroupSize(grouping, 0))
  }

  /** Every separator is followed by a digit, so there are fewer separators than digits. */
  lemma {:induction false} GroupedLength(n: nat, grouping: seq<int>, sep: char, g: nat, left: nat)
    requires ValidGrouping(grouping)
    ensures 1 <= |Grouped(n, grouping, sep, g, left)| <= 2 * |Plain(n)| - (if left == 0 then 0 else 1)
    decreases n, if left == 0 then 1 else 0
  {
    if left == 0 {
      GroupedLength(n, grouping, sep, g + 1, GroupSize(grouping, g + 1));
    } else if n >= 10 {
      GroupedLength(n / 10, grouping, sep, g, left - 1);
    }
  }

  /** The first character written is a digit. */
  lemma {:induction false} GroupedStart(n: nat, grouping: seq<int>, sep: char, g: nat, left: nat)
    requires ValidGrouping(grouping)
    ensures Grouped(n, grouping, sep, g, left) != "" && IsDigit(Grouped(n, grouping, sep, g, left)[0])
    decreases n, if left == 0 then 1 else 0
  {
    if left == 0 {
      GroupedStart(n, grouping, sep, g + 1, GroupSize(grouping, g + 1));
    } else if n >= 10 {
      GroupedStart(n / 10, grouping, sep, g, left - 1);
    }
  }

  // ---------- the reader ----------

  /** The reader's group counter is an unsigned char that stops at the last group. */
  function NextGroup(grouping: seq<int>, current: nat): (g: nat)
    requires |grouping| >= 1
    ensures current < |grouping| ==> g < |grouping|
  {
    if current < |grouping| - 1 then (current + 1) % 256 else current
  }

  /** A group size in a char that is only decremented and compared with zero. */
  function Remaining(grouping: seq<int>, g: nat): (r: nat)
    requires g < |grouping|
    ensures r < 256
  {
    grouping[g] % 256
  }

  /**
   The digits the reader takes from text, last to first, while `remained` more digits are due before
   a separator: None where it refuses. Once a separator is missing the rest must be plain digits.
   */
  function DigitsRead(text: string, grouping: seq<int>, sep: char, current: nat, remained: nat): (d: Option<string>)
    requires current < |grouping|
    ensures d.Some? ==> AllDigits(d.value)
    decreases |text|
  {
    if text == "" then Some("")
    else
      var init, last := text[..|text| - 1], text[|text| - 1];
      if remained != 0 then
        if IsDigit(last) then
          match DigitsRead(init, grouping, sep, current, remained - 1)
          case None => None
          case Some(d) => Some(d + [last])
        else None
      else if last != sep then
        if AllDigits(text) then Some(text) else None
      else if init == "" then None
      else
        var g := NextGroup(grouping, current);
        DigitsRead(init, grouping, sep, g, Remaining(grouping, g))
  }

  /** The digits of a whole text, None when it is not a number in this grouping. */
  function NumberRead(text: string, grouping: seq<int>, sep: char): (d: Option<string>)
    requires grouping == [] || grouping[0] <= 0 || ValidGrouping(grouping)
    ensures d.Some? ==> AllDigits(d.value)
  {
    if text == "" || !IsDigit(text[|text| - 1]) then None
    else if grouping == [] || grouping[0] <= 0 then
      if AllDigits(text) then Some(text) else None
    else
      match DigitsRead(text[..|text| - 1], grouping, sep, 0, grouping[0] - 1)
      case None => None
      case Some(d) => Some(d + [text[|text| - 1]])
  }

  // ---------- reading what was written ----------

  /** A group that is larger than the number writes plain digits. */
  lemma {:induction false} WideGroup(n: nat, grouping: seq<int>, sep: char, g: nat, left: nat)
    requires ValidGrouping(grouping) && |Plain(n)| <= left
    ensures Grouped(n, grouping, sep, g, left) == Plain(n)
  {
    if n >= 10 {
      WideGroup(n / 10, grouping, sep, g, left - 1);
    }
  }

  lemma {:induction false} SplitLast(s: string)
    requires s != ""
    ensures s == s[..|s| - 1] + [s[|s| - 1]]
  {
  }

  lemma {:induction false} PlainIsRead(text: string, grouping: seq<int>, sep: char, current: nat, remained: nat)
    requires current < |grouping| && AllDigits(text) && remained >= |text|
    ensures DigitsRead(text, grouping, sep, current, remained) == Some(text)
    decreases |text|
  {
    if text != "" {
      var init, last := text[..|text| - 1], text[|text| - 1];
      PlainIsRead(init, grouping, sep, current, remained - 1);
      SplitLast(text);
    }
  }

  /** Every digit read takes a character. */
  lemma {:induction false} ReadIsNoLonger(text: string, grouping: seq<int>, sep: char, current: nat, remained: nat)
    requires current < |grouping|
    ensures Shorter(DigitsRead(text, grouping, sep, current, remained), |text| + 1)
    decreases |text|
  {
    if text != "" {
      var init, last := text[..|text| - 1], text[|text| - 1];
      if remained != 0 {
        ReadIsNoLonger(init, grouping, sep, current, remained - 1);
      } else if last == sep {
        var g := NextGroup(grouping, current);
        ReadIsNoLonger(init, grouping, sep, g, Remaining(grouping, g));
      }
    }
  }

  /** Nothing was read, or fewer than k digits. */
  predicate Shorter(read: Option<string>, k: nat) {
    read.None? || |read.value| < k
  }

  /** The size the list gives for group g; the last one stands for all later groups. */
  function RawSize(grouping: seq<int>, g: nat): int
    requires grouping != []
  {
    grouping[if g < |grouping| then g else |grouping| - 1]
  }

  /**
   With `left` digits of group g to go, the digits of n reach a group whose size in the list is zero, and the
   lowest digit of that group is the separator: the reader, which ends such a group at once, takes it for one.
   */
  predicate Misread(n: nat, grouping: seq<int>, sep: char, g: nat, left: nat)
    requires ValidGrouping(grouping)
    decreases n, if left == 0 then 1 else 0
  {
    if left != 0 then n >= 10 && Misread(n / 10, grouping, sep, g, left - 1)
    else if RawSize(grouping, g + 1) == 0 then DigitChar(n % 10) == sep
    else Misread(n, grouping, sep, g + 1, GroupSize(grouping, g + 1))
  }

  lemma {:induction false} WideIsNotMisread(n: nat, grouping: seq<int>, sep: char, g: nat, left: nat)
    requires ValidGrouping(grouping) && |Plain(n)| <= left
    ensures !Misread(n, grouping, sep, g, left)
  {
    if n >= 10 {
      WideIsNotMisread(n / 10, grouping, sep, g, left - 1);
    }
  }

  /** What the reader makes of a number's text: the number's digits, or fewer if it is misread. */
  predicate ReadAs(read: Option<string>, n: nat, misread: bool) {
    if misread then Shorter(read, |Plain(n)|) else read == Some(Plain(n))
  }

  /** One digit of a group on both sides. */
  lemma {:induction false} DigitStep(n: nat, grouping: seq<int>, sep: char, g: nat, left: nat, current: nat)
    requires ValidGrouping(grouping) && current < |grouping| && left > 0
    requires n >= 10 ==>
               ReadAs(DigitsRead(Grouped(n / 10, grouping, sep, g, left - 1), grouping, sep, current, left - 1),
                      n / 10, Misread(n / 10, grouping, sep, g, left - 1))
    ensures ReadAs(DigitsRead(Grouped(n, grouping, sep, g, left), grouping, sep, current, left),
                   n, Misread(n, grouping, sep, g, left))
  {
    var text := Grouped(n, grouping, sep, g, left);
    if n >= 10 {
      assert text[..|text| - 1] == Grouped(n / 10, grouping, sep, g, left - 1);
    } else {
      assert text == [DigitChar(n)] && text[..0] == "";
      assert "" + [DigitChar(n)] == [DigitChar(n)];
    }
  }

  /** The separator behind a group on both sides. */
  lemma {:induction false} SeparatorStep(n: nat, grouping: seq<int>, sep: char, g: nat, current: nat)
    requires ValidGrouping(grouping) && g < 255 && current == if g < |grouping| then g else |grouping| - 1
    ensures var c := NextGroup(grouping, current);
            && c == (if g + 1 < |grouping| then g + 1 else |grouping| - 1)
            && DigitsRead(Grouped(n, grouping, sep, g, 0), grouping, sep, current, 0)
               == DigitsRead(Grouped(n, grouping, sep, g + 1, GroupSize(grouping, g + 1)), grouping, sep, c,
                             Remaining(grouping, c))
  {
    hide GroupSize, DigitsRead;
    GroupedStart(n, grouping, sep, g + 1, GroupSize(grouping, g + 1));
    ReadSeparator(Grouped(n, grouping, sep, g + 1, GroupSize(grouping, g + 1)), grouping, sep, current);
  }

  lemma {:induction false} ReadSeparator(text: string, grouping: seq<int>, sep: char, current: nat)
    requires text != "" && current < |grouping|
    ensures var c := NextGroup(grouping, current);
            DigitsRead(text + [sep], grouping, sep, current, 0)
            == DigitsRead(text, grouping, sep, c, Remaining(grouping, c))
  {
    assert (text + [sep])[..|text|] == text;
  }

  /** In a group of negative size both sides run on to the end. */
  lemma {:induction false} UnlimitedGroup(n: nat, grouping: seq<int>, sep: char, g: nat, c: nat)
    requires ValidGrouping(grouping) && |Plain(n)| <= 127
    requires c == (if g < |grouping| then g else |grouping| - 1) && grouping[c] < 0
    ensures DigitsRead(Grouped(n, grouping, sep, g, GroupSize(grouping, g)), grouping, sep, c, Remaining(grouping, c))
         == Some(Plain(n))
    ensures !Misread(n, grouping, sep, g, GroupSize(grouping, g))
  {
    hide Grouped, DigitsRead, Plain, Misread;
    WideGroup(n, grouping, sep, g, 127);
    WideIsNotMisread(n, grouping, sep, g, 127);
    PlainIsRead(Plain(n), grouping, sep, c, Remaining(grouping, c));
  }

  /** A group of size zero ends at once for the reader, and its lowest digit decides. */
  lemma {:induction false} ZeroGroup(n: nat, grouping: seq<int>, sep: char, g: nat, c: nat)
    requires ValidGrouping(grouping) && |Plain(n)| <= 127
    requires c == (if g < |grouping| then g else |grouping| - 1) && grouping[c] == 0
    ensures ReadAs(DigitsRead(Grouped(n, grouping, sep, g, GroupSize(grouping, g)), grouping, sep, c,
                              Remaining(grouping, c)),
                   n, DigitChar(n % 10) == sep)
  {
    hide Grouped;
    var text := Plain(n);
    WideGroup(n, grouping, sep, g, 127);
    assert text[|text| - 1] == DigitChar(n % 10);
    if DigitChar(n % 10) == sep {
      var c' := NextGroup(grouping, c);
      ReadIsNoLonger(text[..|text| - 1], grouping, sep, c', Remaining(grouping, c'));
    }
  }

  lemma {:induction false} GroupedIsRead(n: nat, grouping: seq<int>, sep: char, g: nat, left: nat, current: nat)
    requires ValidGrouping(grouping) && current == if g < |grouping| then g else |grouping| - 1
    requires |Plain(n)| <= 127 && g + 2 * |Plain(n)| <= if left == 0 then 254 else 255
    ensures ReadAs(DigitsRead(Grouped(n, grouping, sep, g, left), grouping, sep, current, left),
                   n, Misread(n, grouping, sep, g, left))
    decreases n, if left == 0 then 1 else 0
  {
    hide Grouped, DigitsRead, ReadAs;
    if left != 0 {
      if n >= 10 {
        GroupedIsRead(n / 10, grouping, sep, g, left - 1, current);
      }
      DigitStep(n, grouping, sep, g, left, current);
    } else {
      SeparatorStep(n, grouping, sep, g, current);
      var c, size := NextGroup(grouping, current), GroupSize(grouping, g + 1);
      if grouping[c] > 0 {
        GroupedIsRead(n, grouping, sep, g + 1, size, c);
      } else if grouping[c] < 0 {
        UnlimitedGroup(n, grouping, sep, g + 1, c);
        ReadExactly(n, DigitsRead(Grouped(n, grouping, sep, g + 1, size), grouping, sep, c, Remaining(grouping, c)));
      } else {
        ZeroGroup(n, grouping, sep, g + 1, c);
      }
    }
  }

  lemma {:induction false} ReadExactly(n: nat, read: Option<string>)
    requires read == Some(Plain(n))
    ensures ReadAs(read, n, false)
  {
  }

  /** The text written for n under this list is taken apart differently by the reader. */
  predicate Ambiguous(n: nat, grouping: seq<int>, sep: char)
    requires grouping == [] || grouping[0] <= 0 || ValidGrouping(grouping)
  {
    grouping != [] && grouping[0] > 0 && Misread(n, grouping, sep, 0, grouping[0])
  }

  /**
   What is written is read back if and only if no digit that starts a group of size zero is the separator;
   otherwise fewer digits are read, or none. Every grouping list a locale can give is covered.
   */
  lemma {:induction false} WrittenIsRead(n: nat, grouping: seq<int>, sep: char)
    requires grouping == [] || grouping[0] <= 0 || ValidGrouping(grouping)
    requires |Plain(n)| <= 127
    ensures NumberRead(Written(n, grouping, sep), grouping, sep) == Some(Plain(n)) <==> !Ambiguous(n, grouping, sep)
    ensures Ambiguous(n, grouping, sep) ==> Shorter(NumberRead(Written(n, grouping, sep), grouping, sep), |Plain(n)|)
  {
    hide Grouped, DigitsRead, Plain, GroupSize;
    if grouping != [] && grouping[0] > 0 {
      var size := grouping[0];
      LastWritten(n, grouping, sep);
      if n >= 10 {
        GroupedIsRead(n / 10, grouping, sep, 0, size - 1, 0);
      }
    }
  }

  /** The last digit of a grouped number, and what stands in front of it. */
  lemma {:induction false} LastWritten(n: nat, grouping: seq<int>, sep: char)
    requires ValidGrouping(grouping)
    ensures var text := Written(n, grouping, sep);
            && text != "" && text[|text| - 1] == DigitChar(n % 10)
            && (n >= 10 ==> text[..|text| - 1] == Grouped(n / 10, grouping, sep, 0, grouping[0] - 1))
            && (n < 10 ==> text[..|text| - 1] == "")
    ensures n >= 10 ==> Plain(n) == Plain(n / 10) + [DigitChar(n % 10)] && |Plain(n / 10)| + 1 == |Plain(n)|
    ensures n < 10 ==> Plain(n) == "" + [DigitChar(n % 10)]
    ensures DigitsRead("", grouping, sep, 0, grouping[0] - 1) == Some("")
    ensures GroupSize(grouping, 0) == grouping[0]
  {
  }

  /** No list without a zero, and no separator that is not a digit, makes any number ambiguous. */
  lemma {:induction false} NotMisread(n: nat, grouping: seq<int>, sep: char, g: nat, left: nat)
    requires ValidGrouping(grouping)
    requires !IsDigit(sep) || forall i :: 0 <= i < |grouping| ==> grouping[i] != 0
    ensures !Misread(n, grouping, sep, g, left)
    decreases n, if left == 0 then 1 else 0
  {
    if left != 0 {
      if n >= 10 {
        NotMisread(n / 10, grouping, sep, g, left - 1);
      }
    } else if RawSize(grouping, g + 1) != 0 {
      NotMisread(n, grouping, sep, g + 1, GroupSize(grouping, g + 1));
    }
  }

  lemma {:induction false} AtLeastLowestOfItsLength(n: nat)
    requires n >= 10
    ensures Pow10(|Plain(n)| - 1) <= n
  {
    if n >= 100 {
      AtLeastLowestOfItsLength(n / 10);
    } else {
      assert |Plain(n / 10)| == 1 && Pow10(1) == 10 * Pow10(0);
    }
  }

  lemma {:induction false} Pow10Grows(a: nat, b: nat)
    requires a <= b
    ensures Pow10(a) <= Pow10(b)
    decreases b
  {
    if a < b {
      Pow10Grows(a, b - 1);
    }
  }

  /** Fewer digits are worth less, so a misread number is not read as itself. */
  lemma {:induction false} FewerDigitsAreWorthLess(digits: string, n: nat)
    requires AllDigits(digits) && |digits| < |Plain(n)| && n >= 10
    ensures DigitsValue(digits) != n
  {
    hide Plain, DigitsValue, Pow10;
    ValueBelow(digits);
    Pow10Grows(|digits|, |Plain(n)| - 1);
    AtLeastLowestOfItsLength(n);
  }

  /** What is read are the digits of the text, in order, without its separators. */
  lemma {:induction false} ReadDropsSeparators(text: string, grouping: seq<int>, sep: char)
    requires grouping == [] || grouping[0] <= 0 || ValidGrouping(grouping)
    requires !IsDigit(sep) && NumberRead(text, grouping, sep).Some?
    ensures NumberRead(text, grouping, sep) == Some(DigitsOnly(text))
  {
    if grouping != [] && grouping[0] > 0 {
      DigitsReadAre(text[..|text| - 1], grouping, sep, 0, grouping[0] - 1);
    }
  }

  lemma {:induction false} DigitsReadAre(text: string, grouping: seq<int>, sep: char, current: nat, remained: nat)
    requires current < |grouping| && !IsDigit(sep) && DigitsRead(text, grouping, sep, current, remained).Some?
    ensures DigitsRead(text, grouping, sep, current, remained) == Some(DigitsOnly(text))
    decreases |text|
  {
    if text != "" {
      var init, last := text[..|text| - 1], text[|text| - 1];
      if remained != 0 {
        DigitsReadAre(init, grouping, sep, current, remained - 1);
      } else if last == sep {
        var g := NextGroup(grouping, current);
        DigitsReadAre(init, grouping, sep, g, Remaining(grouping, g));
      }
    }
  }

  /** Digits without any separator are read under every grouping list. */
  lemma {:induction false} PlainDigitsAreRead(text: string, grouping: seq<int>, sep: char)
    requires grouping == [] || grouping[0] <= 0 || ValidGrouping(grouping)
    requires !IsDigit(sep) && text != "" && AllDigits(text)
    ensures NumberRead(text, grouping, sep) == Some(text)
  {
    hide DigitsRead;
    if grouping != [] && grouping[0] > 0 {
      var init, last := text[..|text| - 1], text[|text| - 1];
      UngroupedIsRead(init, grouping, sep, 0, grouping[0] - 1);
      SplitLast(text);
    }
  }

  lemma {:induction false} UngroupedIsRead(text: string, grouping: seq<int>, sep: char, current: nat, remained: nat)
    requires current < |grouping| && AllDigits(text) && !IsDigit(sep)
    ensures DigitsRead(text, grouping, sep, current, remained) == Some(text)
    decreases |text|
  {
    if text != "" && remained != 0 {
      var init, last := text[..|text| - 1], text[|text| - 1];
      UngroupedIsRead(init, grouping, sep, current, remained - 1);
      SplitLast(text);
    }
  }

  /** 41 in groups of one digit and then of size zero, with 4 for a separator, is such a number. */
  lemma {:induction false} DigitSeparatorMisread()
    ensures ValidGrouping([1, 0]) && Ambiguous(41, [1, 0], '4')
  {
    assert Misread(4, [1, 0], '4', 0, 0);
  }
}
