/**
 char_separator: splits text at delimiter characters, which are dropped or returned as tokens themselves,
 with or without the empty tokens between them.
 */
module CharSeparators {

  /** The fields of a char_separator that never change. */
  datatype Config = Config(keptDelims: string, droppedDelims: string, useIspunct: bool, useIsspace: bool,
                           keepEmptyTokens: bool)

  /** What a separator made with delimiters has. */
  function Given(dropped: string, kept: string, keepEmptyTokens: bool): Config {
    Config(kept, dropped, false, false, keepEmptyTokens)
  }

  /** What one made without arguments has: punctuation is kept, white space dropped. */
  const DEFAULT: Config := Config("", "", true, true, false)

  /** ispunct and isspace in the "C" locale. */
  predicate IsPunct(c: char) {
    '!' <= c <= '/' || ':' <= c <= '@' || '[' <= c <= '`' || '{' <= c <= '~'
  }

  predicate IsSpace(c: char) {
    c == ' ' || 9 as char <= c <= 13 as char
  }

  predicate IsKept(cfg: Config, c: char) {
    if cfg.keptDelims != "" then c in cfg.keptDelims else cfg.useIspunct && IsPunct(c)
  }

  predicate IsDropped(cfg: Config, c: char) {
    if cfg.droppedDelims != "" then c in cfg.droppedDelims else cfg.useIsspace && IsSpace(c)
  }

  predicate IsDelim(cfg: Config, c: char) {
    IsKept(cfg, c) || IsDropped(cfg, c)
  }

  // ---------- one call ----------

  function FieldLength(cfg: Config, s: string): (n: nat)
    ensures n <= |s|
    ensures forall i {:trigger s[i]} :: 0 <= i < n ==> !IsDelim(cfg, s[i])
    ensures n < |s| ==> IsDelim(cfg, s[n])
  {
    if s == "" || IsDelim(cfg, s[0]) then 0 else 1 + FieldLength(cfg, s[1..])
  }

  function DroppedLength(cfg: Config, s: string): (n: nat)
    ensures n <= |s|
    ensures forall i {:trigger s[i]} :: 0 <= i < n ==> IsDropped(cfg, s[i])
    ensures n < |s| ==> !IsDropped(cfg, s[n])
  {
    if s == "" || !IsDropped(cfg, s[0]) then 0 else 1 + DroppedLength(cfg, s[1..])
  }

  /** What a call finds at the front of the rest of the text: nothing more, or a token and how much it used up. */
  datatype Call = End | Token(tok: string, used: nat, done: bool)

  function Called(cfg: Config, rest: string, done: bool): (r: Call)
    ensures r.Token? ==> r.used <= |rest| && (r.used > 0 || (!done && r.done))
  {
    if cfg.keepEmptyTokens then
      if rest == "" then if done then End else Token("", 0, true)
      else if IsKept(cfg, rest[0]) then if done then Token([rest[0]], 1, false) else Token("", 0, true)
      else if !done && IsDropped(cfg, rest[0]) then Token("", 0, true)
      else
        var k := if IsDropped(cfg, rest[0]) then 1 else 0;
        var n := FieldLength(cfg, rest[k..]);
        Token(rest[k..k + n], k + n, true)
    else
      var k := DroppedLength(cfg, rest);
      if k == |rest| then End
      else if IsKept(cfg, rest[k]) then Token([rest[k]], k + 1, done)
      else
        var n := FieldLength(cfg, rest[k..]);
        Token(rest[k..k + n], k + n, done)
  }

  /** A slice of the text is a slice of its rest. */
  lemma {:induction false} SliceOf(text: string, start: nat, a: nat, b: nat)
    requires start <= a <= b <= |text|
    ensures text[start..][a - start..b - start] == text[a..b] && text[start..][a - start..] == text[a..]
    ensures a < |text| ==> text[start..][a - start] == text[a]
  {
  }

  /** A call from position `start` where empty tokens are dropped, in positions of the whole text. */
  lemma {:induction false} DroppingCall(cfg: Config, text: string, start: nat, done: bool)
    requires !cfg.keepEmptyTokens && start <= |text|
    ensures var (r, a) := (Called(cfg, text[start..], done), start + DroppedLength(cfg, text[start..]));
            && a <= |text|
            && (a == |text| ==> r == End)
            && (a < |text| && IsKept(cfg, text[a]) ==> r == Token([text[a]], a + 1 - start, done))
            && (a < |text| && !IsKept(cfg, text[a]) ==> FieldCall(cfg, text, start, a, done, r))
  {
    hide FieldLength, DroppedLength, IsKept, IsDropped;
    var a := start + DroppedLength(cfg, text[start..]);
    SliceOf(text, start, a, a + FieldLength(cfg, text[a..]));
  }

  /** A call from position `start` where empty tokens are kept. */
  lemma {:induction false} KeepingCall(cfg: Config, text: string, start: nat, done: bool)
    requires cfg.keepEmptyTokens && start <= |text|
    ensures var r := Called(cfg, text[start..], done);
            && (start == |text| ==> r == if done then End else Token("", 0, true))
            && (start < |text| ==>
                  var (c, a) := (text[start], if IsDropped(cfg, text[start]) then start + 1 else start);
                  if IsKept(cfg, c) then r == if done then Token([c], 1, false) else Token("", 0, true)
                  else if !done && IsDropped(cfg, c) then r == Token("", 0, true)
                  else FieldCall(cfg, text, start, a, true, r))
  {
    hide FieldLength, DroppedLength, IsKept, IsDropped;
    if start < |text| {
      var rest, c := text[start..], text[start];
      assert rest != "" && rest[0] == c;
      if !IsKept(cfg, c) && (done || !IsDropped(cfg, c)) {
        FieldBehind(cfg, text, start, if IsDropped(cfg, c) then start + 1 else start);
      }
    }
  }

  lemma {:induction false} FieldBehind(cfg: Config, text: string, start: nat, a: nat)
    requires start <= a <= |text|
    ensures var (rest, k) := (text[start..], a - start);
            var n := FieldLength(cfg, rest[k..]);
            FieldCall(cfg, text, start, a, true, Token(rest[k..k + n], k + n, true))
  {
    hide FieldLength;
    SliceOf(text, start, a, a + FieldLength(cfg, text[a..]));
  }

  /** The call from `start` finds the field at position a. */
  predicate FieldCall(cfg: Config, text: string, start: nat, a: nat, done: bool, r: Call)
    requires start <= a <= |text|
  {
    var n := FieldLength(cfg, text[a..]);
    r == Token(text[a..a + n], a + n - start, done)
  }

  class CharSeparator {
    const cfg: Config
    var outputDone: bool

    constructor (droppedDelims: string, keptDelims: string, keepEmptyTokens: bool)
      ensures cfg == Given(droppedDelims, keptDelims, keepEmptyTokens) && !outputDone
    {
      this.cfg := Config(keptDelims, droppedDelims, false, false, keepEmptyTokens);
      this.outputDone := false;
    }

    /** outputDone is not set, for it is not looked at without empty tokens. */
    constructor Default()
      ensures cfg == DEFAULT
    {
      this.cfg := Config("", "", true, true, false);
    }

    /** Resetting leaves outputDone as it is. */
    method Reset()
      ensures outputDone == old(outputDone)
    {
    }

    method Next(text: string, nextParam: nat) returns (found: bool, tok: string, next: nat)
      requires nextParam <= |text|
      modifies this
      ensures nextParam <= next <= |text|
      ensures found <==> Called(cfg, text[nextParam..], old(outputDone)).Token?
      ensures found ==> Called(cfg, text[nextParam..], old(outputDone)) == Token(tok, next - nextParam, outputDone)
      ensures !found ==> outputDone == old(outputDone) && next == |text|
    {
      hide FieldLength, DroppedLength, IsKept, IsDropped, Called;
      next := nextParam;
      tok := "";
      if !cfg.keepEmptyTokens {
        DroppingCall(cfg, text, next, outputDone);
        next := SkipDropped(text, next);
        if next == |text| {
          return false, tok, next;
        }
        if IsKept(cfg, text[next]) {
          tok := [text[next]];
          next := next + 1;
        } else {
          tok, next := TakeField(text, next);
        }
      } else {
        KeepingCall(cfg, text, next, outputDone);
        if next == |text| {
          if !outputDone {
            outputDone := true;
            return true, tok, next;
          }
          return false, tok, next;
        }
        if IsKept(cfg, text[next]) {
          if !outputDone {
            outputDone := true;
          } else {
            tok := [text[next]];
            next := next + 1;
            outputDone := false;
          }
        } else if !outputDone && IsDropped(cfg, text[next]) {
          outputDone := true;
        } else {
          if IsDropped(cfg, text[next]) {
            next := next + 1;
          }
          tok, next := TakeField(text, next);
          outputDone := true;
        }
      }
      found := true;
    }

    method SkipDropped(text: string, start: nat) returns (next: nat)
      requires start <= |text|
      ensures next == start + DroppedLength(cfg, text[start..])
    {
      next := start;
      while next != |text| && IsDropped(cfg, text[next])
        invariant start <= next <= |text|
        invariant DroppedLength(cfg, text[start..]) == next - start + DroppedLength(cfg, text[next..])
      {
        assert text[next..][1..] == text[next + 1..];
        next := next + 1;
      }
    }

    method TakeField(text: string, start: nat) returns (tok: string, next: nat)
      requires start <= |text|
      ensures next == start + FieldLength(cfg, text[start..]) && next <= |text| && tok == text[start..next]
    {
      next := start;
      tok := "";
      while next != |text| && !IsDropped(cfg, text[next]) && !IsKept(cfg, text[next])
        invariant start <= next <= |text| && tok == text[start..next]
        invariant FieldLength(cfg, text[start..]) == next - start + FieldLength(cfg, text[next..])
      {
        assert text[next..][1..] == text[next + 1..];
        tok := tok + [text[next]];
        next := next + 1;
      }
    }

    /** All tokens of a text: calls until one finds nothing. Some calls only change outputDone. */
    method Tokenize(text: string) returns (tokens: seq<string>)
      modifies this
      ensures tokens == AllTokens(cfg, text, old(outputDone))
      ensures cfg.keepEmptyTokens ==> outputDone
    {
      hide Called, AllTokens;
      var next := 0;
      tokens := [];
      assert text[0..] == text;
      var found := true;
      while found
        invariant next <= |text| && (!found ==> cfg.keepEmptyTokens ==> outputDone)
        invariant AllTokens(cfg, text, old(outputDone))
               == tokens + if found then AllTokens(cfg, text[next..], outputDone) else []
        decreases found, |text| - next, !outputDone
      {
        ghost var rest, done := text[next..], outputDone;
        OneCall(cfg, rest, done);
        var tok, after;
        ghost var before := tokens;
        found, tok, after := Next(text, next);
        if found {
          SuffixOfSuffix(text, next, after);
          tokens := tokens + [tok];
          Moved(before, tok, AllTokens(cfg, text[after..], outputDone));
        }
        next := after;
      }
    }
  }

  // ---------- all calls ----------

  /** The tokens of successive calls; every call shortens the rest or sets `done`, so they come to an end. */
  function AllTokens(cfg: Config, rest: string, done: bool): seq<string>
    decreases 2 * |rest| + if done then 0 else 1
  {
    match Called(cfg, rest, done)
    case End => []
    case Token(tok, used, done') => [tok] + AllTokens(cfg, rest[used..], done')
  }

  lemma {:induction false} OneCall(cfg: Config, rest: string, done: bool)
    ensures match Called(cfg, rest, done)
            case End => AllTokens(cfg, rest, done) == [] && (cfg.keepEmptyTokens ==> done)
            case Token(tok, used, done') => AllTokens(cfg, rest, done) == [tok] + AllTokens(cfg, rest[used..], done')
  {
  }

  lemma {:induction false} Moved(tokens: seq<string>, tok: string, behind: seq<string>)
    ensures tokens + ([tok] + behind) == (tokens + [tok]) + behind
  {
  }

  lemma {:induction false} SuffixOfSuffix(s: string, i: nat, j: nat)
    requires i <= j <= |s|
    ensures s[i..][j - i..] == s[j..]
  {
  }

  // ---------- splitting, character by character ----------

  /** What stands between the delimiters of s; there is one field more than there are delimiters. */
  function Fields(cfg: Config, s: string): (fields: seq<string>)
    ensures |fields| == |Delims(cfg, s)| + 1
  {
    if s == "" then [""]
    else
      var behind := Fields(cfg, s[1..]);
      if IsDelim(cfg, s[0]) then [""] + behind else [[s[0]] + behind[0]] + behind[1..]
  }

  function Delims(cfg: Config, s: string): string {
    if s == "" then "" else (if IsDelim(cfg, s[0]) then [s[0]] else "") + Delims(cfg, s[1..])
  }

  function Glue(fields: seq<string>, delims: string): string
    requires |fields| == |delims| + 1
  {
    if delims == "" then fields[0] else fields[0] + [delims[0]] + Glue(fields[1..], delims[1..])
  }

  /** Fields and delimiters together are the text. */
  lemma {:induction false} SplitIsExact(cfg: Config, s: string)
    ensures Glue(Fields(cfg, s), Delims(cfg, s)) == s
  {
    hide IsDelim;
    if s != "" {
      SplitIsExact(cfg, s[1..]);
      assert s == [s[0]] + s[1..];
      var behind, delims := Fields(cfg, s[1..]), Delims(cfg, s[1..]);
      if IsDelim(cfg, s[0]) {
        assert ([""] + behind)[1..] == behind && ([s[0]] + delims)[1..] == delims;
      } else {
        GlueHead(s[0], behind, delims);
      }
    }
  }

  /** No field contains a delimiter, and the delimiters are delimiters. */
  lemma {:induction false} SplitIsAtDelimiters(cfg: Config, s: string, k: nat)
    requires k <= |Delims(cfg, s)|
    ensures forall i {:trigger Fields(cfg, s)[k][i]} :: 0 <= i < |Fields(cfg, s)[k]| ==>
              !IsDelim(cfg, Fields(cfg, s)[k][i])
    ensures k < |Delims(cfg, s)| ==> IsDelim(cfg, Delims(cfg, s)[k])
    decreases |s|
  {
    hide IsDelim;
    if s != "" {
      if !IsDelim(cfg, s[0]) {
        assert "" + Delims(cfg, s[1..]) == Delims(cfg, s[1..]);
        SplitIsAtDelimiters(cfg, s[1..], k);
      } else if k > 0 {
        SplitIsAtDelimiters(cfg, s[1..], k - 1);
      }
    }
  }

  lemma {:induction false} GlueHead(c: char, fields: seq<string>, delims: string)
    requires |fields| == |delims| + 1
    ensures Glue([[c] + fields[0]] + fields[1..], "" + delims) == [c] + Glue(fields, delims)
  {
    assert "" + delims == delims;
    assert ([[c] + fields[0]] + fields[1..])[1..] == fields[1..];
    if delims != "" {
      var tail := Glue(fields[1..], delims[1..]);
      assert ([c] + fields[0]) + [delims[0]] + tail == [c] + (fields[0] + [delims[0]] + tail);
    }
  }

  /** The front of a text: its first field, and the delimiter behind it. */
  lemma {:induction false} FirstField(cfg: Config, s: string)
    ensures var n := FieldLength(cfg, s);
            if n == |s| then Fields(cfg, s) == [s] && Delims(cfg, s) == ""
            else (&& Fields(cfg, s) == [s[..n]] + Fields(cfg, s[n + 1..])
                  && Delims(cfg, s) == [s[n]] + Delims(cfg, s[n + 1..]))
  {
    hide IsDelim;
    if s != "" && !IsDelim(cfg, s[0]) {
      hide Fields, Delims;
      var t := s[1..];
      var n := FieldLength(cfg, t);
      OneCharacter(cfg, s);
      FirstField(cfg, t);
      assert s == [s[0]] + t;
      if n < |t| {
        Spliced(s, n);
        BehindFirst(t[..n], Fields(cfg, t[n + 1..]), t[n], "");
      }
    }
  }

  lemma {:induction false} OneCharacter(cfg: Config, s: string)
    requires s != "" && !IsDelim(cfg, s[0])
    ensures Fields(cfg, s) == [[s[0]] + Fields(cfg, s[1..])[0]] + Fields(cfg, s[1..])[1..]
    ensures Delims(cfg, s) == Delims(cfg, s[1..])
  {
    assert "" + Delims(cfg, s[1..]) == Delims(cfg, s[1..]);
  }

  lemma {:induction false} Spliced(s: string, n: nat)
    requires n + 1 < |s|
    ensures s[..n + 1] == [s[0]] + s[1..][..n] && s[1..][n] == s[n + 1] && s[1..][n + 1..] == s[n + 2..]
  {
  }

  predicate NoDelim(cfg: Config, field: string) {
    forall i {:trigger field[i]} :: 0 <= i < |field| ==> !IsDelim(cfg, field[i])
  }

  lemma {:induction false} FieldEnds(cfg: Config, field: string, rest: string)
    requires NoDelim(cfg, field) && (rest != "" ==> IsDelim(cfg, rest[0]))
    ensures FieldLength(cfg, field + rest) == |field|
  {
    hide IsDelim;
    var s := field + rest;
    var n := FieldLength(cfg, s);
    assert n < |s| ==> IsDelim(cfg, s[n]);
    assert forall i {:trigger field[i]} :: 0 <= i < |field| ==> s[i] == field[i];
    assert rest != "" ==> s[|field|] == rest[0];
  }

  /** There is no other way to split: fields without delimiters that are glued at delimiters are the fields. */
  lemma {:induction false} SplitIsUnique(cfg: Config, fields: seq<string>, delims: string)
    requires |fields| == |delims| + 1
    requires forall k {:trigger fields[k]} :: 0 <= k < |fields| ==> NoDelim(cfg, fields[k])
    requires forall k {:trigger delims[k]} :: 0 <= k < |delims| ==> IsDelim(cfg, delims[k])
    ensures Fields(cfg, Glue(fields, delims)) == fields && Delims(cfg, Glue(fields, delims)) == delims
    decreases |delims|
  {
    hide Fields, Delims, IsDelim, NoDelim;
    var s, first := Glue(fields, delims), fields[0];
    FirstField(cfg, s);
    if delims == "" {
      FieldEnds(cfg, first, "");
      assert first + "" == first;
      assert fields == [first];
    } else {
      var behind := Glue(fields[1..], delims[1..]);
      SplitIsUnique(cfg, fields[1..], delims[1..]);
      Regrouped(first, [delims[0]], behind);
      FieldEnds(cfg, first, [delims[0]] + behind);
      assert s[..|first|] == first && s[|first|] == delims[0] && s[|first| + 1..] == behind;
      assert fields == [first] + fields[1..] && delims == [delims[0]] + delims[1..];
    }
  }

  // ---------- keep_empty_tokens ----------

  /** Every field, and behind it its delimiter if that is kept. */
  function KeepTokens(cfg: Config, fields: seq<string>, delims: string): seq<string>
    requires |fields| == |delims| + 1
  {
    if delims == "" then fields
    else
      [fields[0]] + (if IsKept(cfg, delims[0]) then [[delims[0]]] else []) + KeepTokens(cfg, fields[1..], delims[1..])
  }

  /** A fresh state first gives the field at hand, empty or not. */
  lemma {:induction false} FieldComesFirst(cfg: Config, s: string)
    requires cfg.keepEmptyTokens
    ensures var n := FieldLength(cfg, s);
            AllTokens(cfg, s, false) == [s[..n]] + AllTokens(cfg, s[n..], true)
  {
    var n := FieldLength(cfg, s);
    assert s[0..] == s;
    if n > 0 {
      assert Called(cfg, s, false) == Token(s[..n], n, true);
    } else {
      assert Called(cfg, s, false) == Token("", 0, true);
    }
  }

  lemma {:induction false} KeepStep(cfg: Config, field: string, fields: seq<string>, delim: char, delims: string)
    requires |fields| == |delims| + 1
    ensures KeepTokens(cfg, [field] + fields, [delim] + delims)
         == [field] + ((if IsKept(cfg, delim) then [[delim]] else []) + KeepTokens(cfg, fields, delims))
    ensures KeepTokens(cfg, [field], "") == [field]
  {
    BehindFirst(field, fields, delim, delims);
  }

  lemma {:induction false} NoMore(cfg: Config)
    requires cfg.keepEmptyTokens
    ensures AllTokens(cfg, "", true) == []
  {
  }

  lemma {:induction false} Tail(s: string, n: nat)
    requires n < |s|
    ensures s[n..] != "" && s[n..][0] == s[n] && s[n..][1..] == s[n + 1..]
  {
  }

  lemma {:induction false} KeepsEverything(cfg: Config, s: string)
    requires cfg.keepEmptyTokens
    ensures AllTokens(cfg, s, false) == KeepTokens(cfg, Fields(cfg, s), Delims(cfg, s))
    decreases |s|
  {
    hide FieldLength, Fields, Delims, IsKept, IsDropped, KeepTokens, AllTokens;
    var n := FieldLength(cfg, s);
    FieldComesFirst(cfg, s);
    FirstField(cfg, s);
    if n == |s| {
      assert s[n..] == "" && s[..n] == s;
      NoMore(cfg);
      KeepStep(cfg, s, [""], 'x', "");
    } else {
      var rest := s[n + 1..];
      KeepsEverything(cfg, rest);
      Tail(s, n);
      AtDelimiter(cfg, s[n..], rest);
      KeepStep(cfg, s[..n], Fields(cfg, rest), s[n], Delims(cfg, rest));
    }
  }

  lemma {:induction false} BehindFirst(field: string, fields: seq<string>, delim: char, delims: string)
    ensures ([field] + fields)[1..] == fields && ([delim] + delims)[1..] == delims
  {
  }

  /** At a delimiter behind a field: a kept one is a token, then everything goes on afresh behind it. */
  lemma {:induction false} AtDelimiter(cfg: Config, s: string, rest: string)
    requires cfg.keepEmptyTokens && s != "" && IsDelim(cfg, s[0]) && rest == s[1..]
    ensures AllTokens(cfg, s, true) == (if IsKept(cfg, s[0]) then [[s[0]]] else []) + AllTokens(cfg, rest, false)
  {
    hide FieldLength;
    FieldComesFirst(cfg, rest);
    var n := FieldLength(cfg, rest);
    assert s[1..1 + n] == rest[..n] && s[1 + n..] == rest[n..];
    if !IsKept(cfg, s[0]) {
      assert Called(cfg, s, true) == Token(rest[..n], 1 + n, true);
    }
  }

  function CountKept(cfg: Config, delims: string): nat {
    if delims == "" then 0 else (if IsKept(cfg, delims[0]) then 1 else 0) + CountKept(cfg, delims[1..])
  }

  /** There are one token, one more for every delimiter, and one more again for every kept one. */
  lemma {:induction false} TokenCount(cfg: Config, s: string)
    requires cfg.keepEmptyTokens
    ensures |AllTokens(cfg, s, false)| == 1 + |Delims(cfg, s)| + CountKept(cfg, Delims(cfg, s))
  {
    KeepsEverything(cfg, s);
    KeepCount(cfg, Fields(cfg, s), Delims(cfg, s));
  }

  lemma {:induction false} KeepCount(cfg: Config, fields: seq<string>, delims: string)
    requires |fields| == |delims| + 1
    ensures |KeepTokens(cfg, fields, delims)| == 1 + |delims| + CountKept(cfg, delims)
  {
    if delims != "" {
      KeepCount(cfg, fields[1..], delims[1..]);
    }
  }

  /** The tokens one behind the other, with each dropped delimiter put back where it stood. */
  function Restored(cfg: Config, tokens: seq<string>, delims: string): string {
    if tokens == [] then ""
    else if delims == "" then tokens[0]
    else if IsKept(cfg, delims[0]) then
      tokens[0] + (if |tokens| > 1 then tokens[1] + Restored(cfg, tokens[2..], delims[1..]) else "")
    else tokens[0] + ([delims[0]] + Restored(cfg, tokens[1..], delims[1..]))
  }

  lemma {:induction false} TokensRestoreText(cfg: Config, s: string)
    requires cfg.keepEmptyTokens
    ensures Restored(cfg, AllTokens(cfg, s, false), Delims(cfg, s)) == s
  {
    KeepsEverything(cfg, s);
    SplitIsExact(cfg, s);
    RestoredIsGlued(cfg, Fields(cfg, s), Delims(cfg, s));
  }

  lemma {:induction false} RestoredIsGlued(cfg: Config, fields: seq<string>, delims: string)
    requires |fields| == |delims| + 1
    ensures Restored(cfg, KeepTokens(cfg, fields, delims), delims) == Glue(fields, delims)
  {
    hide IsKept;
    if delims != "" {
      RestoredIsGlued(cfg, fields[1..], delims[1..]);
      var behind := KeepTokens(cfg, fields[1..], delims[1..]);
      var tokens := KeepTokens(cfg, fields, delims);
      if IsKept(cfg, delims[0]) {
        assert tokens[0] == fields[0] && tokens[1] == [delims[0]] && tokens[2..] == behind;
      } else {
        assert tokens[0] == fields[0] && tokens[1..] == behind;
      }
      Regrouped(fields[0], [delims[0]], Glue(fields[1..], delims[1..]));
    }
  }

  lemma {:induction false} Regrouped(a: string, b: string, c: string)
    ensures a + (b + c) == a + b + c
  {
  }

  /** A separator used before starts with outputDone set; it then skips an empty field at the front, nothing else. */
  lemma {:induction false} ReuseLosesEmptyFront(cfg: Config, s: string)
    requires cfg.keepEmptyTokens
    ensures AllTokens(cfg, s, true) == AllTokens(cfg, s, false) <==> s != "" && !IsDelim(cfg, s[0])
    ensures s == "" || IsDelim(cfg, s[0]) ==> AllTokens(cfg, s, false) == [""] + AllTokens(cfg, s, true)
  {
    FieldComesFirst(cfg, s);
    assert s[0..] == s;
    if s == "" || IsDelim(cfg, s[0]) {
      assert |AllTokens(cfg, s, false)| == |AllTokens(cfg, s, true)| + 1;
    } else {
      assert Called(cfg, s, true) == Called(cfg, s, false);
    }
  }

  // ---------- drop_empty_tokens ----------

  /** Every field that is not empty, and behind it its delimiter unless that is dropped. */
  function DropTokens(cfg: Config, fields: seq<string>, delims: string): seq<string>
    requires |fields| == |delims| + 1
  {
    (if fields[0] == "" then [] else [fields[0]])
    + if delims == "" then []
      else (if IsDropped(cfg, delims[0]) then [] else [[delims[0]]]) + DropTokens(cfg, fields[1..], delims[1..])
  }

  lemma {:induction false} DropField(cfg: Config, field: string, fields: seq<string>, delims: string)
    requires field != "" && |fields| == |delims|
    ensures DropTokens(cfg, [field] + fields, delims) == [field] + DropTokens(cfg, [""] + fields, delims)
  {
    assert ([field] + fields)[1..] == fields && ([""] + fields)[1..] == fields;
  }

  lemma {:induction false} DropDelim(cfg: Config, fields: seq<string>, delim: char, delims: string)
    requires |fields| == |delims| + 1
    ensures DropTokens(cfg, [""] + fields, [delim] + delims)
         == (if IsDropped(cfg, delim) then [] else [[delim]]) + DropTokens(cfg, fields, delims)
    ensures DropTokens(cfg, [""], "") == []
  {
    BehindFirst("", fields, delim, delims);
  }

  /** Behind its first field a text starts with an empty one. */
  lemma {:induction false} FieldInFront(cfg: Config, s: string)
    ensures var n := FieldLength(cfg, s);
            && Fields(cfg, s) == [s[..n]] + Fields(cfg, s[n..])[1..]
            && Fields(cfg, s[n..]) == [""] + Fields(cfg, s[n..])[1..]
            && Delims(cfg, s) == Delims(cfg, s[n..])
  {
    hide Fields, Delims, IsDelim;
    var n := FieldLength(cfg, s);
    FirstField(cfg, s);
    FirstField(cfg, s[n..]);
    if n < |s| {
      Tail(s, n);
      assert FieldLength(cfg, s[n..]) == 0 && s[n..][..0] == "";
    } else {
      assert s[n..] == "" && s[..n] == s;
    }
  }

  lemma {:induction false} DropsEmptyFields(cfg: Config, s: string, done: bool)
    requires !cfg.keepEmptyTokens
    ensures AllTokens(cfg, s, done) == DropTokens(cfg, Fields(cfg, s), Delims(cfg, s))
    decreases |s|
  {
    hide Fields, Delims, IsKept, IsDropped, DropTokens, AllTokens;
    var n := FieldLength(cfg, s);
    if n > 0 {
      FieldTaken(cfg, s, done);
      DropsEmptyFields(cfg, s[n..], done);
      FieldInFront(cfg, s);
      DropField(cfg, s[..n], Fields(cfg, s[n..])[1..], Delims(cfg, s));
    } else if s == "" {
      FirstField(cfg, s);
      NothingLeft(cfg, done);
      DropDelim(cfg, [""], 'x', "");
    } else {
      DelimiterTaken(cfg, s, done);
      DropsEmptyFields(cfg, s[1..], done);
      FirstField(cfg, s);
      assert s[..0] == "";
      DropDelim(cfg, Fields(cfg, s[1..]), s[0], Delims(cfg, s[1..]));
    }
  }

  lemma {:induction false} NothingLeft(cfg: Config, done: bool)
    requires !cfg.keepEmptyTokens
    ensures AllTokens(cfg, "", done) == []
  {
  }

  lemma {:induction false} FieldTaken(cfg: Config, s: string, done: bool)
    requires !cfg.keepEmptyTokens && FieldLength(cfg, s) > 0
    ensures var n := FieldLength(cfg, s);
            AllTokens(cfg, s, done) == [s[..n]] + AllTokens(cfg, s[n..], done)
  {
    assert DroppedLength(cfg, s) == 0 && s[0..] == s;
  }

  lemma {:induction false} DelimiterTaken(cfg: Config, s: string, done: bool)
    requires !cfg.keepEmptyTokens && s != "" && IsDelim(cfg, s[0])
    ensures AllTokens(cfg, s, done)
         == (if IsDropped(cfg, s[0]) then [] else [[s[0]]]) + AllTokens(cfg, s[1..], done)
  {
    hide IsKept, IsDropped, FieldLength, AllTokens;
    if IsDropped(cfg, s[0]) {
      assert [] + AllTokens(cfg, s[1..], done) == AllTokens(cfg, s[1..], done);
      var k := DroppedLength(cfg, s[1..]);
      assert DroppedLength(cfg, s) == k + 1;
      SuffixOfSuffix(s, 1, k + 1);
      SkipFront(cfg, s, done);
      SkipFront(cfg, s[1..], done);
    } else {
      assert DroppedLength(cfg, s) == 0;
      OneCall(cfg, s, done);
    }
  }

  /** Dropped characters in front make no difference to a call. */
  lemma {:induction false} FrontCall(cfg: Config, s: string, done: bool)
    requires !cfg.keepEmptyTokens
    ensures var k := DroppedLength(cfg, s);
            match Called(cfg, s[k..], done)
            case End => Called(cfg, s, done) == End
            case Token(tok, used, done') => Called(cfg, s, done) == Token(tok, k + used, done')
  {
    hide IsKept, IsDropped, FieldLength;
    var k := DroppedLength(cfg, s);
    var r := s[k..];
    var n := FieldLength(cfg, r);
    assert DroppedLength(cfg, r) == 0 && r[0..] == r;
    assert s[k..k + n] == r[0..n];
  }

  lemma {:induction false} SkipFront(cfg: Config, s: string, done: bool)
    requires !cfg.keepEmptyTokens
    ensures AllTokens(cfg, s, done) == AllTokens(cfg, s[DroppedLength(cfg, s)..], done)
  {
    hide DroppedLength, AllTokens, Called;
    var k := DroppedLength(cfg, s);
    FrontCall(cfg, s, done);
    OneCall(cfg, s, done);
    OneCall(cfg, s[k..], done);
    match Called(cfg, s[k..], done)
    case End =>
    case Token(tok, used, done') => SuffixOfSuffix(s, k, k + used);
  }

  function Concat(tokens: seq<string>): string {
    if tokens == [] then "" else tokens[0] + Concat(tokens[1..])
  }

  function WithoutDropped(cfg: Config, s: string): string {
    if s == "" then "" else (if IsDropped(cfg, s[0]) then "" else [s[0]]) + WithoutDropped(cfg, s[1..])
  }

  /** No token is empty, and together they are the text without its dropped characters. */
  lemma {:induction false} DropKeepsTheRest(cfg: Config, s: string, done: bool)
    requires !cfg.keepEmptyTokens
    ensures forall t :: t in AllTokens(cfg, s, done) ==> t != ""
    ensures Concat(AllTokens(cfg, s, done)) == WithoutDropped(cfg, s)
    decreases |s|
  {
    hide IsKept, IsDropped;
    var n := FieldLength(cfg, s);
    if n > 0 {
      FieldTaken(cfg, s, done);
      DropKeepsTheRest(cfg, s[n..], done);
      FieldUndropped(cfg, s, n);
    } else if s != "" {
      DelimiterTaken(cfg, s, done);
      DropKeepsTheRest(cfg, s[1..], done);
      ConcatHead(if IsDropped(cfg, s[0]) then [] else [[s[0]]], AllTokens(cfg, s[1..], done));
    }
  }

  lemma {:induction false} ConcatHead(head: seq<string>, tokens: seq<string>)
    requires |head| <= 1
    ensures Concat(head + tokens) == (if head == [] then "" else head[0]) + Concat(tokens)
  {
    if head == [] {
      assert head + tokens == tokens && "" + Concat(tokens) == Concat(tokens);
    } else {
      assert (head + tokens)[1..] == tokens;
    }
  }

  lemma {:induction false} FieldUndropped(cfg: Config, s: string, n: nat)
    requires n <= |s| && forall i {:trigger s[i]} :: 0 <= i < n ==> !IsDelim(cfg, s[i])
    ensures WithoutDropped(cfg, s) == s[..n] + WithoutDropped(cfg, s[n..])
    decreases n
  {
    if n == 0 {
      assert s[0..] == s && s[..0] + WithoutDropped(cfg, s) == WithoutDropped(cfg, s);
    } else {
      FieldUndropped(cfg, s[1..], n - 1);
      assert s[1..][n - 1..] == s[n..];
      assert [s[0]] + s[1..][..n - 1] == s[..n];
      assert [s[0]] + (s[1..][..n - 1] + WithoutDropped(cfg, s[n..])) == s[..n] + WithoutDropped(cfg, s[n..]);
    }
  }
}
