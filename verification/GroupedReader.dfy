/**
 Which texts the integer reader accepts under a grouping list: a condition on the digits between the separators,
 for every list and texts of any length.
 */
module GroupedReader {
  import opened DecimalText
  import opened DecimalScanner
  import opened ScannerGroups

  /**
   How many digits the reader wants in group k, counted from the right. The size is compared in a char that is only
   decremented, and the group counter, an unsigned char, starts again at 0 under a list of more than 256 sizes.
   */
  function WantedDigits(grouping: seq<int>, k: nat): (n: nat)
    requires |grouping| >= 1
  {
    grouping[Counter(grouping, k)] % 256
  }

  function Counter(grouping: seq<int>, k: nat): (c: nat)
    requires |grouping| >= 1
    ensures c < |grouping|
  {
    if |grouping| > 256 then k % 256 else if k < |grouping| then k else |grouping| - 1
  }

  lemma {:induction false} CounterStep(grouping: seq<int>, k: nat)
    requires |grouping| >= 1
    ensures NextGroup(grouping, Counter(grouping, k)) == Counter(grouping, k + 1)
  {
    NextRemainder(k);
  }

  lemma {:induction false} NextRemainder(k: nat)
    ensures (k + 1) % 256 == (k % 256 + 1) % 256
  {
  }

  /** The groups behind the first have the wanted digits when `remained` are due in the last, which is group k. */
  predicate RunsFit(runs: seq<nat>, grouping: seq<int>, k: nat, remained: nat)
    requires |grouping| >= 1 && |runs| >= 1
  {
    |runs| == 1 ||
    (&& runs[0] >= 1 && runs[|runs| - 1] == remained
     && forall j :: 1 <= j < |runs| - 1 ==> runs[j] == WantedDigits(grouping, k + |runs| - 1 - j))
  }

  predicate InAlphabet(text: string, sep: char) {
    forall j {:trigger text[j]} :: 0 <= j < |text| ==> IsDigit(text[j]) || text[j] == sep
  }

  lemma {:induction false} DigitsAreOneRun(text: string)
    ensures AllDigits(text) <==> |DigitRuns(text)| == 1
    ensures AllDigits(text) ==> DigitRuns(text) == [|text|]
    decreases |text|
  {
    hide AllDigits, IsDigit, DigitRuns;
    if text == "" {
      NothingInFront();
      NoDigits();
    } else {
      DigitsAreOneRun(text[..|text| - 1]);
      LastDigit(text);
    }
  }

  lemma {:induction false} NoDigits()
    ensures AllDigits("")
  {
  }

  lemma {:induction false} LastDigit(text: string)
    requires text != ""
    ensures AllDigits(text) <==> AllDigits(text[..|text| - 1]) && IsDigit(text[|text| - 1])
    ensures var (r, init) := (DigitRuns(text), DigitRuns(text[..|text| - 1]));
            if IsDigit(text[|text| - 1]) then r == init[..|init| - 1] + [init[|init| - 1] + 1] else r == init + [0]
  {
    hide IsDigit;
    SplitLast(text);
  }

  lemma {:induction false} LastCharacter(text: string, sep: char)
    requires text != ""
    ensures InAlphabet(text, sep) <==>
              InAlphabet(text[..|text| - 1], sep) && (IsDigit(text[|text| - 1]) || text[|text| - 1] == sep)
    ensures var (r, init) := (DigitRuns(text), DigitRuns(text[..|text| - 1]));
            if IsDigit(text[|text| - 1]) then r == init[..|init| - 1] + [init[|init| - 1] + 1] else r == init + [0]
  {
    SplitLast(text);
  }

  lemma {:induction false} OneMoreWanted(init: seq<nat>, grouping: seq<int>, k: nat)
    requires |grouping| >= 1 && |init| >= 1
    ensures RunsFit(init + [0], grouping, k, 0)
       <==> init[0] >= 1 && RunsFit(init, grouping, k + 1, WantedDigits(grouping, k + 1))
  {
    hide WantedDigits;
    var runs := init + [0];
    if |init| > 1 {
      if RunsFit(runs, grouping, k, 0) {
        forall j | 1 <= j < |init| - 1 ensures init[j] == WantedDigits(grouping, k + 1 + |init| - 1 - j) {
          assert runs[j] == WantedDigits(grouping, k + |runs| - 1 - j);
        }
        assert runs[|init| - 1] == WantedDigits(grouping, k + |runs| - 1 - (|init| - 1));
      }
      if init[0] >= 1 && RunsFit(init, grouping, k + 1, WantedDigits(grouping, k + 1)) {
        forall j | 1 <= j < |runs| - 1 ensures runs[j] == WantedDigits(grouping, k + |runs| - 1 - j) {
          assert runs[j] == init[j];
        }
      }
    }
  }

  lemma {:induction false} ReadIff(text: string, grouping: seq<int>, sep: char, k: nat, remained: nat)
    requires |grouping| >= 1 && !IsDigit(sep)
    ensures DigitsRead(text, grouping, sep, Counter(grouping, k), remained).Some?
       <==> InAlphabet(text, sep) && RunsFit(DigitRuns(text), grouping, k, remained)
    decreases |text|
  {
    hide Counter, InAlphabet, DigitRuns, RunsFit, WantedDigits;
    var c := Counter(grouping, k);
    if text == "" {
      NothingToRead(grouping, sep, k, remained);
    } else {
      var init, last := text[..|text| - 1], text[|text| - 1];
      LastCharacter(text, sep);
      if remained != 0 {
        if IsDigit(last) {
          ReadIff(init, grouping, sep, k, remained - 1);
          OneMoreInRun(DigitRuns(init), grouping, k, remained - 1);
        } else {
          NotDue(DigitRuns(init), grouping, k, remained);
        }
      } else if last != sep {
        DigitsAreOneRun(text);
        DigitsInAlphabet(text, sep);
        if IsDigit(last) {
          TooMany(DigitRuns(text), grouping, k);
        }
      } else {
        CounterStep(grouping, k);
        OneMoreWanted(DigitRuns(init), grouping, k);
        WantedIsRemaining(grouping, k + 1);
        if init != "" {
          ReadIff(init, grouping, sep, k + 1, WantedDigits(grouping, k + 1));
          FirstRunNeeded(init, grouping, sep, k + 1);
        } else {
          NothingInFront();
        }
      }
    }
  }

  lemma {:induction false} NothingToRead(grouping: seq<int>, sep: char, k: nat, remained: nat)
    requires |grouping| >= 1
    ensures InAlphabet("", sep) && RunsFit(DigitRuns(""), grouping, k, remained)
  {
  }

  lemma {:induction false} NothingInFront()
    ensures DigitRuns("") == [0]
  {
  }

  lemma {:induction false} WantedIsRemaining(grouping: seq<int>, k: nat)
    requires |grouping| >= 1
    ensures Remaining(grouping, Counter(grouping, k)) == WantedDigits(grouping, k)
  {
  }

  lemma {:induction false} DigitsInAlphabet(text: string, sep: char)
    ensures AllDigits(text) ==> InAlphabet(text, sep)
  {
  }

  lemma {:induction false} OneMoreInRun(init: seq<nat>, grouping: seq<int>, k: nat, remained: nat)
    requires |grouping| >= 1 && |init| >= 1
    ensures RunsFit(init[..|init| - 1] + [init[|init| - 1] + 1], grouping, k, remained + 1)
       <==> RunsFit(init, grouping, k, remained)
  {
    hide WantedDigits;
    var runs := init[..|init| - 1] + [init[|init| - 1] + 1];
    assert forall j :: 0 <= j < |init| - 1 ==> runs[j] == init[j];
  }

  lemma {:induction false} NotDue(init: seq<nat>, grouping: seq<int>, k: nat, remained: nat)
    requires |grouping| >= 1 && |init| >= 1 && remained != 0
    ensures !RunsFit(init + [0], grouping, k, remained)
  {
  }

  lemma {:induction false} TooMany(runs: seq<nat>, grouping: seq<int>, k: nat)
    requires |grouping| >= 1 && |runs| >= 1 && runs[|runs| - 1] > 0
    ensures RunsFit(runs, grouping, k, 0) <==> |runs| == 1
  {
  }

  /** A text whose groups fit starts with a digit. */
  lemma {:induction false} FirstRunNeeded(text: string, grouping: seq<int>, sep: char, k: nat)
    requires |grouping| >= 1 && text != ""
    ensures InAlphabet(text, sep) && RunsFit(DigitRuns(text), grouping, k, WantedDigits(grouping, k)) ==>
              DigitRuns(text)[0] >= 1
  {
    DigitsAreOneRun(text);
  }

  // ---------- whole texts ----------

  /** At least one digit in the first group, and behind it groups of the wanted sizes, counted from the right. */
  predicate GroupsMatch(runs: seq<nat>, grouping: seq<int>)
    requires |grouping| >= 1 && |runs| >= 1
  {
    runs[0] >= 1 && forall j :: 1 <= j < |runs| ==> runs[j] == WantedDigits(grouping, |runs| - 1 - j)
  }

  lemma {:induction false} LastGroupToo(init: seq<nat>, grouping: seq<int>)
    requires ValidGrouping(grouping) && |init| >= 1
    ensures var runs := init[..|init| - 1] + [init[|init| - 1] + 1];
            RunsFit(init, grouping, 0, grouping[0] - 1) <==> GroupsMatch(runs, grouping)
  {
    var runs := init[..|init| - 1] + [init[|init| - 1] + 1];
    assert WantedDigits(grouping, 0) == grouping[0];
    if |init| > 1 && RunsFit(init, grouping, 0, grouping[0] - 1) {
      forall j | 1 <= j < |runs| ensures runs[j] == WantedDigits(grouping, |runs| - 1 - j) {
        assert j < |init| - 1 ==> runs[j] == init[j];
      }
    }
    if |init| > 1 && GroupsMatch(runs, grouping) {
      assert init[0] == runs[0] && runs[|runs| - 1] == grouping[0];
      forall j | 1 <= j < |init| - 1 ensures init[j] == WantedDigits(grouping, |init| - 1 - j) {
        assert runs[j] == init[j];
      }
    }
  }

  /**
   Under any grouping list with a positive first size, a text is read as a number if and only if it is made of digits
   and separators, starts with a digit, and every group behind the first has exactly the digits the list wants.
   */
  lemma {:induction false} ReadIffGroupsMatch(text: string, grouping: seq<int>, sep: char)
    requires ValidGrouping(grouping) && !IsDigit(sep)
    ensures NumberRead(text, grouping, sep).Some?
       <==> text != "" && InAlphabet(text, sep) && GroupsMatch(DigitRuns(text), grouping)
  {
    hide InAlphabet, DigitRuns, RunsFit, GroupsMatch, DigitsRead;
    if text != "" {
      var init, last := text[..|text| - 1], text[|text| - 1];
      LastCharacter(text, sep);
      if IsDigit(last) {
        ReadIff(init, grouping, sep, 0, grouping[0] - 1);
        LastGroupToo(DigitRuns(init), grouping);
      } else {
        EmptyLastGroup(DigitRuns(init), grouping);
      }
    }
  }

  lemma {:induction false} EmptyLastGroup(init: seq<nat>, grouping: seq<int>)
    requires ValidGrouping(grouping) && |init| >= 1
    ensures !GroupsMatch(init + [0], grouping)
  {
    var runs := init + [0];
    assert runs[|init|] == 0 && WantedDigits(grouping, |runs| - 1 - |init|) == grouping[0];
  }

  /** With at most 256 sizes, all positive, the wanted sizes are those of the list, the last one for ever. */
  lemma {:induction false} PositiveSizesAreWanted(grouping: seq<int>, k: nat)
    requires PositiveSizes(grouping) && |grouping| <= 256
    ensures WantedDigits(grouping, k) == RawSize(grouping, k)
  {
  }

  /** Such as a group that is too short, anywhere but in front: no text with one is a number. */
  lemma {:induction false} ShortGroupIsRefused(front: string, short: string, sep: char, back: string,
                                               grouping: seq<int>)
    requires PositiveSizes(grouping) && |grouping| <= 256 && !IsDigit(sep)
    requires AllDigits(short) && AllDigits(back) && |short| < RawSize(grouping, 1)
    ensures NumberRead(front + [sep] + short + [sep] + back, grouping, sep) == None
  {
    hide DigitRuns, InAlphabet, NumberRead;
    var text := front + [sep] + short + [sep] + back;
    ReadIffGroupsMatch(text, grouping, sep);
    RunsBehindSeparator(front, sep);
    RunsBehindDigits(front + [sep], short);
    RunsBehindSeparator(front + [sep] + short, sep);
    RunsBehindDigits(front + [sep] + short + [sep], back);
    PositiveSizesAreWanted(grouping, 1);
    var runs := DigitRuns(text);
    assert runs[|runs| - 2] == |short|;
  }
}
