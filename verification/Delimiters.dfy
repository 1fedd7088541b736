/**
 The laws of char_separator in terms of the characters given to its constructor, and of white space and punctuation for
 the default one.
 */
module Delimiters {
  import opened CharSeparators

  function Chars(s: string): set<char> {
    set c | c in s
  }

  function WhiteSpace(): set<char> {
    {' ', '\t', '\n', '\r', 11 as char, 12 as char}
  }

  function Punctuation(): set<char> {
    {'!', '"', '#', '$', '%', '&', '\'', '(', ')', '*', '+', ',', '-', '.', '/', ':', ';', '<', '=', '>', '?', '@',
     '[', '\\', ']', '^', '_', '`', '{', '|', '}', '~'}
  }

  /** The separator drops the characters of `dropped` and keeps those of `kept`. */
  ghost predicate Separates(cfg: Config, dropped: set<char>, kept: set<char>) {
    forall c :: (IsDropped(cfg, c) <==> c in dropped) && (IsKept(cfg, c) <==> c in kept)
  }

  /** A separator made with delimiters separates at exactly those, without any if both lists are empty. */
  lemma {:induction false} GivenSeparates(dropped: string, kept: string, keepEmpty: bool)
    ensures Separates(Given(dropped, kept, keepEmpty), Chars(dropped), Chars(kept))
  {
  }

  lemma {:induction false} DefaultSeparates()
    ensures Separates(DEFAULT, WhiteSpace(), Punctuation())
  {
    hide WhiteSpace, Punctuation, IsSpace, IsPunct;
    forall c: char ensures IsSpace(c) <==> c in WhiteSpace() {
      SpaceCharacter(c);
    }
    forall c: char ensures IsPunct(c) <==> c in Punctuation() {
      PunctuationCharacter(c);
    }
  }

  lemma {:induction false} SpaceCharacter(c: char)
    ensures IsSpace(c) <==> c in WhiteSpace()
  {
  }

  lemma {:induction false} PunctuationCharacter(c: char)
    ensures IsPunct(c) <==> c in Punctuation()
    ensures IsPunct(c) ==> c !in WhiteSpace()
  {
  }

  // ---------- the tokens of a text that is put together ----------

  predicate Free(field: string, chars: set<char>) {
    forall i {:trigger field[i]} :: 0 <= i < |field| ==> field[i] !in chars
  }

  predicate AllFree(fields: seq<string>, chars: set<char>) {
    forall k {:trigger fields[k]} :: 0 <= k < |fields| ==> Free(fields[k], chars)
  }

  predicate AllIn(s: string, chars: set<char>) {
    forall k {:trigger s[k]} :: 0 <= k < |s| ==> s[k] in chars
  }

  /** Every field that is not empty, and behind it its delimiter unless that is dropped. */
  function NonEmptyPieces(fields: seq<string>, delims: string, dropped: set<char>): seq<string>
    requires |fields| == |delims| + 1
  {
    (if fields[0] == "" then [] else [fields[0]])
    + if delims == "" then []
      else (if delims[0] in dropped then [] else [[delims[0]]]) + NonEmptyPieces(fields[1..], delims[1..], dropped)
  }

  /** Every field, and behind it its delimiter if that is kept. */
  function AllPieces(fields: seq<string>, delims: string, kept: set<char>): seq<string>
    requires |fields| == |delims| + 1
  {
    [fields[0]]
    + if delims == "" then []
      else (if delims[0] in kept then [[delims[0]]] else []) + AllPieces(fields[1..], delims[1..], kept)
  }

  lemma {:induction false} SamePieces(cfg: Config, fields: seq<string>, delims: string, dropped: set<char>,
                                      kept: set<char>)
    requires Separates(cfg, dropped, kept) && |fields| == |delims| + 1
    ensures DropTokens(cfg, fields, delims) == NonEmptyPieces(fields, delims, dropped)
    ensures KeepTokens(cfg, fields, delims) == AllPieces(fields, delims, kept)
    decreases |delims|
  {
    hide IsKept, IsDropped;
    if delims == "" {
      assert fields == [fields[0]] && [fields[0]] + [] == [fields[0]];
    } else {
      assert IsDropped(cfg, delims[0]) <==> delims[0] in dropped;
      assert IsKept(cfg, delims[0]) <==> delims[0] in kept;
      SamePieces(cfg, fields[1..], delims[1..], dropped, kept);
      Regroup([fields[0]], if delims[0] in kept then [[delims[0]]] else [], AllPieces(fields[1..], delims[1..], kept));
    }
  }

  lemma {:induction false} Regroup<T>(a: seq<T>, b: seq<T>, c: seq<T>)
    ensures a + b + c == a + (b + c)
  {
  }

  /**
   Fields that hold no delimiter, glued together at delimiters, come back as tokens: without the dropped delimiters and
   without empty tokens, or with all fields and the kept delimiters.
   */
  lemma {:induction false} PiecesComeBack(cfg: Config, fields: seq<string>, delims: string, dropped: set<char>,
                                          kept: set<char>, done: bool)
    requires Separates(cfg, dropped, kept) && |fields| == |delims| + 1
    requires AllFree(fields, dropped + kept) && AllIn(delims, dropped + kept)
    ensures !cfg.keepEmptyTokens ==>
              AllTokens(cfg, Glue(fields, delims), done) == NonEmptyPieces(fields, delims, dropped)
    ensures cfg.keepEmptyTokens ==> AllTokens(cfg, Glue(fields, delims), false) == AllPieces(fields, delims, kept)
  {
    hide IsKept, IsDropped, AllTokens, DropTokens, KeepTokens, NonEmptyPieces, AllPieces;
    var text := Glue(fields, delims);
    DelimitersAreThose(cfg, fields, delims, dropped, kept);
    SplitIsUnique(cfg, fields, delims);
    SamePieces(cfg, fields, delims, dropped, kept);
    if cfg.keepEmptyTokens {
      KeepsEverything(cfg, text);
    } else {
      DropsEmptyFields(cfg, text, done);
    }
  }

  lemma {:induction false} DelimitersAreThose(cfg: Config, fields: seq<string>, delims: string, dropped: set<char>,
                                              kept: set<char>)
    requires Separates(cfg, dropped, kept)
    requires AllFree(fields, dropped + kept) && AllIn(delims, dropped + kept)
    ensures forall k {:trigger fields[k]} :: 0 <= k < |fields| ==> NoDelim(cfg, fields[k])
    ensures forall k {:trigger delims[k]} :: 0 <= k < |delims| ==> IsDelim(cfg, delims[k])
  {
    hide IsKept, IsDropped;
    forall k {:trigger fields[k]} | 0 <= k < |fields| ensures NoDelim(cfg, fields[k]) {
      assert Free(fields[k], dropped + kept);
    }
  }

  // ---------- laws of every text ----------

  function Without(s: string, chars: set<char>): string {
    if s == "" then "" else (if s[0] in chars then "" else [s[0]]) + Without(s[1..], chars)
  }

  function Count(s: string, chars: set<char>): nat {
    if s == "" then 0 else (if s[0] in chars then 1 else 0) + Count(s[1..], chars)
  }

  lemma {:induction false} SameRest(cfg: Config, s: string, dropped: set<char>, kept: set<char>)
    requires Separates(cfg, dropped, kept)
    ensures WithoutDropped(cfg, s) == Without(s, dropped)
    ensures |Delims(cfg, s)| == Count(s, dropped + kept) && CountKept(cfg, Delims(cfg, s)) == Count(s, kept)
  {
    hide IsKept, IsDropped;
    if s != "" {
      SameRest(cfg, s[1..], dropped, kept);
      var d := Delims(cfg, s[1..]);
      assert IsDelim(cfg, s[0]) ==> ([s[0]] + d)[1..] == d;
      assert !IsDelim(cfg, s[0]) ==> "" + d == d;
      assert IsDropped(cfg, s[0]) <==> s[0] in dropped;
      assert IsKept(cfg, s[0]) <==> s[0] in kept;
    }
  }

  lemma {:induction false} CountOfUnion(s: string, a: set<char>, b: set<char>)
    requires a !! b
    ensures Count(s, a + b) == Count(s, a) + Count(s, b)
  {
    if s != "" {
      CountOfUnion(s[1..], a, b);
    }
  }

  /** With empty tokens dropped no token is empty, and together they are the text without the dropped delimiters. */
  lemma {:induction false} DroppedDisappear(dropped: string, kept: string, text: string, done: bool)
    ensures var tokens := AllTokens(Given(dropped, kept, false), text, done);
            (forall t :: t in tokens ==> t != "") && Concat(tokens) == Without(text, Chars(dropped))
  {
    hide IsKept, IsDropped, AllTokens;
    var cfg := Given(dropped, kept, false);
    GivenSeparates(dropped, kept, false);
    DropKeepsTheRest(cfg, text, done);
    SameRest(cfg, text, Chars(dropped), Chars(kept));
  }

  lemma {:induction false} WhiteSpaceDisappears(text: string, done: bool)
    ensures var tokens := AllTokens(DEFAULT, text, done);
            (forall t :: t in tokens ==> t != "") && Concat(tokens) == Without(text, WhiteSpace())
  {
    hide IsKept, IsDropped, AllTokens, WhiteSpace, Punctuation;
    DefaultSeparates();
    DropKeepsTheRest(DEFAULT, text, done);
    SameRest(DEFAULT, text, WhiteSpace(), Punctuation());
  }

  /** With empty tokens kept there are one token, one more for every delimiter and one more again for every kept one. */
  lemma {:induction false} TokensAreCounted(dropped: string, kept: string, text: string)
    ensures var n := |AllTokens(Given(dropped, kept, true), text, false)|;
            && n == 1 + Count(text, Chars(dropped) + Chars(kept)) + Count(text, Chars(kept))
            && (Chars(dropped) !! Chars(kept) ==> n == 1 + Count(text, Chars(dropped)) + 2 * Count(text, Chars(kept)))
  {
    hide IsKept, IsDropped, AllTokens, Count;
    var cfg := Given(dropped, kept, true);
    GivenSeparates(dropped, kept, true);
    TokenCount(cfg, text);
    SameRest(cfg, text, Chars(dropped), Chars(kept));
    if Chars(dropped) !! Chars(kept) {
      CountOfUnion(text, Chars(dropped), Chars(kept));
    }
  }

  // ---------- every kept character is a token ----------

  lemma {:induction false} CountInParts<T>(a: seq<T>, b: seq<T>, c: seq<T>, x: T)
    ensures multiset(a + b + c)[x] == multiset(a)[x] + multiset(b)[x] + multiset(c)[x]
    ensures multiset(a + (b + c))[x] == multiset(a)[x] + multiset(b)[x] + multiset(c)[x]
  {
  }

  lemma {:induction false} CountInOne<T>(y: T, x: T)
    ensures multiset([y])[x] == (if y == x then 1 else 0) && multiset([])[x] == 0
  {
  }

  function Once(d: char, c: char): nat {
    if d == c then 1 else 0
  }

  lemma {:induction false} SameCharacter(d: char, c: char)
    ensures [d] == [c] <==> d == c
  {
    assert [d] == [c] ==> [d][0] == c;
  }

  lemma {:induction false} CountAllPieces(fields: seq<string>, delims: string, kept: set<char>, c: char)
    requires |fields| == |delims| + 1 && delims != "" && fields[0] != [c] && c in kept
    ensures multiset(AllPieces(fields, delims, kept))[[c]]
         == Once(delims[0], c) + multiset(AllPieces(fields[1..], delims[1..], kept))[[c]]
  {
    var d, all := delims[0], AllPieces(fields[1..], delims[1..], kept);
    CountInParts([fields[0]], if d in kept then [[d]] else [], all, [c]);
    CountInOne(fields[0], [c]);
    CountInOne([d], [c]);
    SameCharacter(d, c);
  }

  lemma {:induction false} CountNonEmptyPieces(fields: seq<string>, delims: string, dropped: set<char>, c: char)
    requires |fields| == |delims| + 1 && delims != "" && fields[0] != [c] && c !in dropped
    ensures multiset(NonEmptyPieces(fields, delims, dropped))[[c]]
         == Once(delims[0], c) + multiset(NonEmptyPieces(fields[1..], delims[1..], dropped))[[c]]
  {
    var d, some := delims[0], NonEmptyPieces(fields[1..], delims[1..], dropped);
    CountInParts(if fields[0] == "" then [] else [fields[0]], if d in dropped then [] else [[d]], some, [c]);
    CountInOne(fields[0], [c]);
    CountInOne([d], [c]);
    SameCharacter(d, c);
  }

  lemma {:induction false} CountGlue(fields: seq<string>, delims: string, c: char)
    requires |fields| == |delims| + 1 && delims != ""
    ensures multiset(Glue(fields, delims))[c]
         == multiset(fields[0])[c] + Once(delims[0], c) + multiset(Glue(fields[1..], delims[1..]))[c]
  {
    CountInParts(fields[0], [delims[0]], Glue(fields[1..], delims[1..]), c);
    CountInOne(delims[0], c);
  }

  lemma {:induction false} PiecesHoldDelimiter(fields: seq<string>, delims: string, dropped: set<char>, kept: set<char>,
                                               c: char)
    requires |fields| == |delims| + 1 && AllFree(fields, dropped + kept) && c in dropped + kept
    ensures c in kept ==> multiset(AllPieces(fields, delims, kept))[[c]] == multiset(Glue(fields, delims))[c]
    ensures c !in dropped ==>
              multiset(NonEmptyPieces(fields, delims, dropped))[[c]] == multiset(Glue(fields, delims))[c]
    decreases |delims|
  {
    hide Free, AllPieces, NonEmptyPieces, Glue;
    assert Free(fields[0], dropped + kept);
    FreeHoldsNone(fields[0], dropped + kept, c);
    if delims == "" {
      OnlyField(fields, dropped, kept, c);
    } else {
      CountGlue(fields, delims, c);
      if c in kept {
        CountAllPieces(fields, delims, kept, c);
      }
      if c !in dropped {
        CountNonEmptyPieces(fields, delims, dropped, c);
      }
      PiecesHoldDelimiter(fields[1..], delims[1..], dropped, kept, c);
    }
  }

  lemma {:induction false} OnlyField(fields: seq<string>, dropped: set<char>, kept: set<char>, c: char)
    requires |fields| == 1 && fields[0] != [c] && multiset(fields[0])[c] == 0
    ensures multiset(AllPieces(fields, "", kept))[[c]] == 0 == multiset(NonEmptyPieces(fields, "", dropped))[[c]]
    ensures multiset(Glue(fields, ""))[c] == 0
  {
    CountInOne(fields[0], [c]);
    assert [fields[0]] + [] == [fields[0]];
  }

  lemma {:induction false} FreeHoldsNone(field: string, chars: set<char>, c: char)
    requires Free(field, chars) && c in chars
    ensures multiset(field)[c] == 0 && field != [c]
  {
    assert c !in field && c in [c];
  }

  lemma {:induction false} SplitIsFree(cfg: Config, s: string, dropped: set<char>, kept: set<char>)
    requires Separates(cfg, dropped, kept)
    ensures AllFree(Fields(cfg, s), dropped + kept)
  {
    hide IsKept, IsDropped, Fields;
    forall k {:trigger Fields(cfg, s)[k]} | 0 <= k < |Fields(cfg, s)| ensures Free(Fields(cfg, s)[k], dropped + kept) {
      SplitIsAtDelimiters(cfg, s, k);
      var field := Fields(cfg, s)[k];
      forall i {:trigger field[i]} | 0 <= i < |field| ensures field[i] !in dropped + kept {
        assert !IsDelim(cfg, field[i]);
      }
    }
  }

  /** The tokens that are just the character c are as many as there are c in the text, for every kept c. */
  lemma {:induction false} KeptAreTokens(cfg: Config, text: string, dropped: set<char>, kept: set<char>, c: char)
    requires Separates(cfg, dropped, kept) && c in kept && (c in dropped ==> cfg.keepEmptyTokens)
    ensures multiset(AllTokens(cfg, text, false))[[c]] == multiset(text)[c]
  {
    hide IsKept, IsDropped, AllTokens, DropTokens, KeepTokens, NonEmptyPieces, AllPieces, Fields, Delims, Glue;
    var fields, delims := Fields(cfg, text), Delims(cfg, text);
    SplitIsExact(cfg, text);
    SplitIsFree(cfg, text, dropped, kept);
    SamePieces(cfg, fields, delims, dropped, kept);
    PiecesHoldDelimiter(fields, delims, dropped, kept, c);
    if cfg.keepEmptyTokens {
      KeepsEverything(cfg, text);
    } else {
      DropsEmptyFields(cfg, text, false);
    }
  }

  // ---------- in the constructor's own terms ----------

  /** A separator made with delimiters splits fields that hold none of them where they are glued at some of them. */
  lemma {:induction false} GivenSplits(dropped: string, kept: string, fields: seq<string>, delims: string, done: bool)
    requires |fields| == |delims| + 1
    requires AllFree(fields, Chars(dropped) + Chars(kept)) && AllIn(delims, Chars(dropped) + Chars(kept))
    ensures AllTokens(Given(dropped, kept, false), Glue(fields, delims), done)
         == NonEmptyPieces(fields, delims, Chars(dropped))
    ensures AllTokens(Given(dropped, kept, true), Glue(fields, delims), false)
         == AllPieces(fields, delims, Chars(kept))
  {
    hide Separates, AllTokens, Glue, NonEmptyPieces, AllPieces;
    GivenSeparates(dropped, kept, false);
    GivenSeparates(dropped, kept, true);
    PiecesComeBack(Given(dropped, kept, false), fields, delims, Chars(dropped), Chars(kept), done);
    PiecesComeBack(Given(dropped, kept, true), fields, delims, Chars(dropped), Chars(kept), done);
  }

  /** The default separator does so at white space and punctuation. */
  lemma {:induction false} DefaultSplits(fields: seq<string>, delims: string, done: bool)
    requires |fields| == |delims| + 1
    requires AllFree(fields, WhiteSpace() + Punctuation()) && AllIn(delims, WhiteSpace() + Punctuation())
    ensures AllTokens(DEFAULT, Glue(fields, delims), done) == NonEmptyPieces(fields, delims, WhiteSpace())
  {
    hide Separates, AllTokens, Glue, NonEmptyPieces, AllPieces, WhiteSpace, Punctuation;
    DefaultSeparates();
    PiecesComeBack(DEFAULT, fields, delims, WhiteSpace(), Punctuation(), done);
  }

  /** Every kept delimiter of the text is a token of its own, and every punctuation character by default. */
  lemma {:induction false} GivenKeeps(dropped: string, kept: string, keepEmpty: bool, text: string, c: char)
    requires c in kept && (c in dropped ==> keepEmpty)
    ensures multiset(AllTokens(Given(dropped, kept, keepEmpty), text, false))[[c]] == multiset(text)[c]
  {
    hide Separates, AllTokens;
    GivenSeparates(dropped, kept, keepEmpty);
    KeptAreTokens(Given(dropped, kept, keepEmpty), text, Chars(dropped), Chars(kept), c);
  }

  lemma {:induction false} DefaultKeeps(text: string, c: char)
    requires c in Punctuation()
    ensures multiset(AllTokens(DEFAULT, text, false))[[c]] == multiset(text)[c]
  {
    hide Separates, AllTokens, WhiteSpace, Punctuation, IsPunct;
    DefaultSeparates();
    PunctuationCharacter(c);
    KeptAreTokens(DEFAULT, text, WhiteSpace(), Punctuation(), c);
  }
}
