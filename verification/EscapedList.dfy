/**
 escaped_list_separator: fields between separators, with quotes around separators and escapes for everything
 that has a meaning.
 */
module EscapedLists {
  import opened DecimalText

  /** The characters that escape, separate and quote. */
  datatype Syntax = Syntax(escapes: string, separators: string, quotes: string)

  datatype Error = EndsWithEscape | UnknownEscape

  predicate IsEscape(y: Syntax, c: char) {
    c in y.escapes
  }

  predicate IsSeparator(y: Syntax, c: char) {
    c in y.separators
  }

  predicate IsQuote(y: Syntax, c: char) {
    c in y.quotes
  }

  predicate IsSpecial(y: Syntax, c: char) {
    IsEscape(y, c) || IsSeparator(y, c) || IsQuote(y, c)
  }

  // ---------- one field ----------

  /** The field at the front of a text: its contents, how much it takes, whether a separator ended it. */
  datatype Scan = Done(tok: string, used: nat, last: bool) | Failed(error: Error)

  function Prefixed(tok: string, used: nat, s: Scan): Scan {
    match s
    case Done(t, u, last) => Done(tok + t, used + u, last)
    case Failed(error) => s
  }

  /** What an escape followed by c stands for. */
  function Unescaped(y: Syntax, c: char): Option<char> {
    if c == 'n' then Some('\n') else if IsSpecial(y, c) then Some(c) else None
  }

  function ScanField(y: Syntax, s: string, inQuote: bool): (r: Scan)
    ensures r.Done? ==> r.used <= |s| && (s != "" ==> r.used > 0)
  {
    if s == "" then Done("", 0, false)
    else if IsEscape(y, s[0]) then
      if |s| == 1 then Failed(EndsWithEscape)
      else
        match Unescaped(y, s[1])
        case None => Failed(UnknownEscape)
        case Some(c) => Prefixed([c], 2, ScanField(y, s[2..], inQuote))
    else if IsSeparator(y, s[0]) && !inQuote then Done("", 1, true)
    else if !IsSeparator(y, s[0]) && IsQuote(y, s[0]) then Prefixed("", 1, ScanField(y, s[1..], !inQuote))
    else Prefixed([s[0]], 1, ScanField(y, s[1..], inQuote))
  }

  /** What a call does in front of `rest`. */
  datatype Call = End | Field(tok: string, used: nat, last: bool) | Throws(error: Error)

  function Called(y: Syntax, rest: string, last: bool): (r: Call)
    ensures r.Field? ==> r.used <= |rest| && (r.used > 0 || (rest == "" && last && !r.last))
  {
    if rest == "" then if last then Field("", 0, false) else End
    else
      match ScanField(y, rest, false)
      case Done(tok, used, last') => Field(tok, used, last')
      case Failed(error) => Throws(error)
  }

  lemma {:induction false} PrefixedTwice(a: string, i: nat, b: string, j: nat, s: Scan)
    ensures Prefixed(a, i, Prefixed(b, j, s)) == Prefixed(a + b, i + j, s)
  {
    if s.Done? {
      assert a + (b + s.tok) == (a + b) + s.tok;
    }
  }

  class EscapedListSeparator {
    const syntax: Syntax
    var last: bool

    constructor (escapes: string, separators: string, quotes: string)
      ensures syntax == Syntax(escapes, separators, quotes) && !last
    {
      this.syntax := Syntax(escapes, separators, quotes);
      this.last := false;
    }

    method Reset()
      modifies this`last
      ensures !last
    {
      last := false;
    }

    /** The character behind an escape at text[nextParam]. */
    method DoEscape(text: string, nextParam: nat) returns (next: nat, c: Option<char>, error: Error)
      requires nextParam < |text|
      ensures next == nextParam + 1
      ensures if next == |text| then c == None && error == EndsWithEscape
              else c == Unescaped(syntax, text[next]) && (c == None ==> error == UnknownEscape)
    {
      next := nextParam + 1;
      c, error := None, UnknownEscape;
      if next == |text| {
        error := EndsWithEscape;
      } else if text[next] == 'n' {
        c := Some('\n');
      } else if IsQuote(syntax, text[next]) {
        c := Some(text[next]);
      } else if IsSeparator(syntax, text[next]) {
        c := Some(text[next]);
      } else if IsEscape(syntax, text[next]) {
        c := Some(text[next]);
      }
    }

    /** Reads one field; `found` is the value the call returns where it does not throw. */
    method Next(text: string, nextParam: nat) returns (found: bool, tok: string, next: nat, thrown: Option<Error>)
      requires nextParam <= |text|
      modifies this`last
      ensures nextParam <= next <= |text|
      ensures match Called(syntax, text[nextParam..], old(last))
              case End => !found && thrown == None && next == nextParam && !last
              case Field(t, used, last') =>
                found && thrown == None && tok == t && next == nextParam + used && last == last'
              case Throws(error) => thrown == Some(error) && !last
    {
      hide ScanField, Prefixed, Unescaped, IsEscape, IsSeparator, IsQuote;
      var inQuote := false;
      tok, next, thrown := "", nextParam, None;
      if next == |text| {
        found := last;
        last := false;
        return;
      }
      last := false;
      ghost var whole := ScanField(syntax, text[nextParam..], false);
      NothingPrefixed(whole);
      while next < |text|
        invariant nextParam <= next <= |text| && !last && thrown == None
        invariant whole == Prefixed(tok, next - nextParam, ScanField(syntax, text[next..], inQuote))
      {
        OneCharacter(syntax, text, next, inQuote, tok, next - nextParam);
        if IsEscape(syntax, text[next]) {
          var c, error;
          next, c, error := DoEscape(text, next);
          if c == None {
            return true, tok, next, Some(error);
          }
          tok := tok + [c.value];
        } else if IsSeparator(syntax, text[next]) {
          if !inQuote {
            next := next + 1;
            last := true;
            return true, tok, next, None;
          }
          tok := tok + [text[next]];
        } else if IsQuote(syntax, text[next]) {
          inQuote := !inQuote;
        } else {
          tok := tok + [text[next]];
        }
        next := next + 1;
      }
      NothingMore(syntax, text[next..], inQuote, tok, next - nextParam);
      found := true;
    }

    /** All fields of a text, up to the first call that throws. */
    method Tokenize(text: string) returns (fields: seq<string>, thrown: Option<Error>)
      modifies this`last
      ensures AllFields(syntax, text, old(last)) == Outcome(fields, thrown)
    {
      hide Called, AllFields, Then;
      var next, found := 0, true;
      fields, thrown := [], None;
      assert text[0..] == text;
      NothingBefore(AllFields(syntax, text, last));
      while found && thrown == None
        invariant next <= |text|
        invariant AllFields(syntax, text, old(last))
               == if found && thrown == None then Then(fields, AllFields(syntax, text[next..], last))
                  else Outcome(fields, thrown)
        decreases found && thrown == None, |text| - next, last
      {
        ghost var rest, before := text[next..], last;
        OneCall(syntax, rest, before, fields);
        var tok, after;
        found, tok, after, thrown := Next(text, next);
        if found && thrown == None {
          assert rest[after - next..] == text[after..];
          fields := fields + [tok];
        }
        next := after;
      }
    }
  }

  lemma {:induction false} NothingPrefixed(s: Scan)
    ensures Prefixed("", 0, s) == s
  {
    if s.Done? {
      assert "" + s.tok == s.tok;
    }
  }

  lemma {:induction false} NothingMore(y: Syntax, rest: string, inQuote: bool, tok: string, used: nat)
    requires rest == ""
    ensures Prefixed(tok, used, ScanField(y, rest, inQuote)) == Done(tok, used, false)
  {
    assert tok + "" == tok;
  }

  /** The cases of the loop at text[next]. */
  lemma {:induction false} OneCharacter(y: Syntax, text: string, next: nat, inQuote: bool, tok: string, used: nat)
    requires next < |text|
    ensures var whole, c := Prefixed(tok, used, ScanField(y, text[next..], inQuote)), text[next];
            if IsEscape(y, c) then
              if next + 1 == |text| then whole == Failed(EndsWithEscape)
              else if Unescaped(y, text[next + 1]) == None then whole == Failed(UnknownEscape)
              else
                whole == Prefixed(tok + [Unescaped(y, text[next + 1]).value], used + 2,
                                  ScanField(y, text[next + 2..], inQuote))
            else if IsSeparator(y, c) && !inQuote then whole == Done(tok, used + 1, true)
            else if !IsSeparator(y, c) && IsQuote(y, c)
            then whole == Prefixed(tok, used + 1, ScanField(y, text[next + 1..], !inQuote))
            else whole == Prefixed(tok + [c], used + 1, ScanField(y, text[next + 1..], inQuote))
  {
    hide IsEscape, IsSeparator, IsQuote, Prefixed, Unescaped;
    var s := text[next..];
    assert s[0] == text[next] && s[1..] == text[next + 1..];
    if |s| > 1 {
      assert s[1] == text[next + 1] && s[2..] == text[next + 2..];
      var c := Unescaped(y, s[1]);
      if c.Some? {
        PrefixedTwice(tok, used, [c.value], 2, ScanField(y, s[2..], inQuote));
      }
    }
    PrefixedTwice(tok, used, [s[0]], 1, ScanField(y, s[1..], inQuote));
    PrefixedTwice(tok, used, "", 1, ScanField(y, s[1..], !inQuote));
    assert tok + "" == tok;
    PrefixedEnds(tok, used);
  }

  lemma {:induction false} PrefixedEnds(tok: string, used: nat)
    ensures Prefixed(tok, used, Done("", 1, true)) == Done(tok, used + 1, true)
    ensures forall error {:trigger Failed(error)} :: Prefixed(tok, used, Failed(error)) == Failed(error)
  {
    assert tok + "" == tok;
  }

  // ---------- all fields ----------

  /** The fields of successive calls, and the error of the call that threw, if one did. */
  datatype Outcome = Outcome(fields: seq<string>, thrown: Option<Error>)

  function Then(before: seq<string>, o: Outcome): Outcome {
    Outcome(before + o.fields, o.thrown)
  }

  function AllFields(y: Syntax, rest: string, last: bool): Outcome
    decreases |rest|, last
  {
    match Called(y, rest, last)
    case End => Outcome([], None)
    case Throws(error) => Outcome([], Some(error))
    case Field(tok, used, last') => Then([tok], AllFields(y, rest[used..], last'))
  }

  lemma {:induction false} NothingBefore(o: Outcome)
    ensures Then([], o) == o
  {
    assert [] + o.fields == o.fields;
  }

  lemma {:induction false} OneCall(y: Syntax, rest: string, last: bool, before: seq<string>)
    ensures match Called(y, rest, last)
            case End => Then(before, AllFields(y, rest, last)) == Outcome(before, None)
            case Throws(error) => Then(before, AllFields(y, rest, last)) == Outcome(before, Some(error))
            case Field(tok, used, last') =>
              && Then(before, AllFields(y, rest, last)) == Then(before + [tok], AllFields(y, rest[used..], last'))
              && (used > 0 || (last && !last'))
  {
    hide Called;
    match Called(y, rest, last)
    case End => assert before + [] == before;
    case Throws(_) => assert before + [] == before;
    case Field(tok, used, last') =>
      var o := AllFields(y, rest[used..], last');
      assert before + ([tok] + o.fields) == (before + [tok]) + o.fields;
  }

  // ---------- when it throws ----------

  /** The first escape that ends the text or has no meaning, quotes and separators aside. */
  function FirstBadEscape(y: Syntax, s: string): Option<Error> {
    if s == "" then None
    else if !IsEscape(y, s[0]) then FirstBadEscape(y, s[1..])
    else if |s| == 1 then Some(EndsWithEscape)
    else if s[1] == 'n' || IsSpecial(y, s[1]) then FirstBadEscape(y, s[2..])
    else Some(UnknownEscape)
  }

  lemma {:induction false} FieldThrows(y: Syntax, s: string, inQuote: bool)
    ensures match ScanField(y, s, inQuote)
            case Failed(error) => FirstBadEscape(y, s) == Some(error)
            case Done(_, used, _) => FirstBadEscape(y, s) == FirstBadEscape(y, s[used..])
    decreases |s|
  {
    hide IsEscape, IsSeparator, IsQuote;
    if s == "" {
      assert s[0..] == s;
    } else if IsEscape(y, s[0]) {
      if |s| > 1 && Unescaped(y, s[1]).Some? {
        FieldThrows(y, s[2..], inQuote);
        Behind(s, 2, ScanField(y, s[2..], inQuote));
      }
    } else if IsSeparator(y, s[0]) && !inQuote {
    } else {
      var toggled := if !IsSeparator(y, s[0]) && IsQuote(y, s[0]) then !inQuote else inQuote;
      FieldThrows(y, s[1..], toggled);
      Behind(s, 1, ScanField(y, s[1..], toggled));
    }
  }

  lemma {:induction false} Behind(s: string, k: nat, scan: Scan)
    requires k <= |s| && (scan.Done? ==> k + scan.used <= |s|)
    ensures scan.Done? ==> s[k..][scan.used..] == s[k + scan.used..]
  {
  }

  /** Reading a text throws exactly when it holds a bad escape, and reports the first one. */
  lemma {:induction false} ThrowsOnBadEscape(y: Syntax, s: string, last: bool)
    ensures AllFields(y, s, last).thrown == FirstBadEscape(y, s)
    decreases |s|, last
  {
    hide ScanField, IsEscape, IsSpecial;
    if s == "" {
      if last {
        ThrowsOnBadEscape(y, s[0..], false);
      }
    } else {
      FieldThrows(y, s, false);
      var scan := ScanField(y, s, false);
      if scan.Done? {
        ThrowsOnBadEscape(y, s[scan.used..], scan.last);
      }
    }
  }

  // ---------- writing ----------

  /** How lists are written: with one character for each purpose. */
  datatype Writer = Writer(escape: char, separator: char, quote: char)

  /** The characters do what they are for, each in its own way, and 'n' has no meaning of its own. */
  predicate Fits(w: Writer, y: Syntax) {
    && IsEscape(y, w.escape)
    && IsSeparator(y, w.separator) && !IsEscape(y, w.separator)
    && IsQuote(y, w.quote) && !IsEscape(y, w.quote) && !IsSeparator(y, w.quote)
    && !IsSpecial(y, 'n')
  }

  /** A line end becomes an escaped n; a special character is escaped, a separator inside quotes need not be. */
  function WrittenChar(w: Writer, y: Syntax, c: char, quoted: bool): string {
    if c == '\n' then [w.escape, 'n']
    else if IsSpecial(y, c) && !(quoted && IsSeparator(y, c) && !IsEscape(y, c)) then [w.escape, c]
    else [c]
  }

  function WrittenChars(w: Writer, y: Syntax, f: string, quoted: bool): string {
    if f == "" then "" else WrittenChar(w, y, f[0], quoted) + WrittenChars(w, y, f[1..], quoted)
  }

  datatype Item = Item(field: string, quoted: bool)

  function WrittenItem(w: Writer, y: Syntax, item: Item): string {
    if item.quoted then [w.quote] + (WrittenChars(w, y, item.field, true) + [w.quote])
    else WrittenChars(w, y, item.field, false)
  }

  function WrittenList(w: Writer, y: Syntax, items: seq<Item>): string {
    if items == [] then ""
    else if |items| == 1 then WrittenItem(w, y, items[0])
    else WrittenItem(w, y, items[0]) + ([w.separator] + WrittenList(w, y, items[1..]))
  }

  function FieldsOf(items: seq<Item>): seq<string> {
    if items == [] then [] else [items[0].field] + FieldsOf(items[1..])
  }

  // ---------- writing, then reading ----------

  lemma {:induction false} CharIsRead(w: Writer, y: Syntax, c: char, quoted: bool, tail: string)
    requires Fits(w, y)
    ensures var written := WrittenChar(w, y, c, quoted);
            ScanField(y, written + tail, quoted) == Prefixed([c], |written|, ScanField(y, tail, quoted))
  {
    hide IsEscape, IsSeparator, IsQuote, Prefixed;
    var written := WrittenChar(w, y, c, quoted);
    assert (written + tail)[|written|..] == tail;
  }

  lemma {:induction false} CharsAreRead(w: Writer, y: Syntax, f: string, quoted: bool, tail: string)
    requires Fits(w, y)
    ensures var written := WrittenChars(w, y, f, quoted);
            ScanField(y, written + tail, quoted) == Prefixed(f, |written|, ScanField(y, tail, quoted))
  {
    hide Fits, ScanField, Prefixed, WrittenChar;
    if f == "" {
      assert "" + tail == tail;
      NothingPrefixed(ScanField(y, tail, quoted));
    } else {
      var first, others := WrittenChar(w, y, f[0], quoted), WrittenChars(w, y, f[1..], quoted);
      assert (first + others) + tail == first + (others + tail);
      CharIsRead(w, y, f[0], quoted, others + tail);
      CharsAreRead(w, y, f[1..], quoted, tail);
      PrefixedTwice([f[0]], |first|, f[1..], |others|, ScanField(y, tail, quoted));
      assert [f[0]] + f[1..] == f;
    }
  }

  lemma {:induction false} QuoteIsRead(w: Writer, y: Syntax, inQuote: bool, tail: string)
    requires Fits(w, y)
    ensures ScanField(y, [w.quote] + tail, inQuote) == Prefixed("", 1, ScanField(y, tail, !inQuote))
  {
    assert ([w.quote] + tail)[1..] == tail;
  }

  lemma {:induction false} SeparatorIsRead(w: Writer, y: Syntax, tail: string)
    requires Fits(w, y)
    ensures ScanField(y, [w.separator] + tail, false) == Done("", 1, true)
  {
  }

  lemma {:induction false} ItemIsRead(w: Writer, y: Syntax, item: Item, tail: string)
    requires Fits(w, y)
    ensures var written := WrittenItem(w, y, item);
            ScanField(y, written + tail, false) == Prefixed(item.field, |written|, ScanField(y, tail, false))
  {
    hide Fits, ScanField, Prefixed, WrittenChars;
    if item.quoted {
      var chars := WrittenChars(w, y, item.field, true);
      Regrouped([w.quote], chars, [w.quote], tail);
      QuoteIsRead(w, y, false, chars + ([w.quote] + tail));
      CharsAreRead(w, y, item.field, true, [w.quote] + tail);
      QuoteIsRead(w, y, true, tail);
      var scan := ScanField(y, tail, false);
      PrefixedTwice(item.field, |chars|, "", 1, scan);
      PrefixedTwice("", 1, item.field + "", |chars| + 1, scan);
      assert "" + (item.field + "") == item.field;
    } else {
      CharsAreRead(w, y, item.field, false, tail);
    }
  }

  lemma {:induction false} Regrouped(a: string, b: string, c: string, d: string)
    ensures (a + (b + c)) + d == a + (b + (c + d))
  {
    assert (b + c) + d == b + (c + d);
    assert (a + (b + c)) + d == a + ((b + c) + d);
  }

  /** In front of the end or of a separator, a call returns the field that was written. */
  lemma {:induction false} ItemIsReturned(w: Writer, y: Syntax, item: Item, others: Option<string>, last: bool)
    requires Fits(w, y)
    ensures var written := WrittenItem(w, y, item);
            match others
            case None => written != "" ==> Called(y, written, last) == Field(item.field, |written|, false)
            case Some(rest) =>
              Called(y, written + ([w.separator] + rest), last) == Field(item.field, |written| + 1, true)
  {
    hide Fits, ScanField, WrittenItem;
    var written := WrittenItem(w, y, item);
    match others
    case None =>
      ItemIsRead(w, y, item, "");
      assert written + "" == written;
      NothingMore(y, "", false, item.field, |written|);
    case Some(rest) =>
      ItemIsRead(w, y, item, [w.separator] + rest);
      SeparatorIsRead(w, y, rest);
      PrefixedEnds(item.field, |written|);
  }

  lemma {:induction false} ListIsRead(w: Writer, y: Syntax, items: seq<Item>, last: bool)
    requires Fits(w, y) && items != [] && (last || WrittenList(w, y, items) != "")
    ensures AllFields(y, WrittenList(w, y, items), last) == Outcome(FieldsOf(items), None)
    decreases |items|
  {
    hide Fits, WrittenItem, Called;
    var written, text := WrittenItem(w, y, items[0]), WrittenList(w, y, items);
    if |items| == 1 {
      ItemIsReturned(w, y, items[0], None, last);
      LastField(w, y, items, last);
    } else {
      var rest := WrittenList(w, y, items[1..]);
      ItemIsReturned(w, y, items[0], Some(rest), last);
      assert text[|written| + 1..] == rest;
      ListIsRead(w, y, items[1..], true);
    }
  }

  lemma {:induction false} LastField(w: Writer, y: Syntax, items: seq<Item>, last: bool)
    requires Fits(w, y) && |items| == 1
    requires var written := WrittenItem(w, y, items[0]);
             if written == "" then last else Called(y, written, last) == Field(items[0].field, |written|, false)
    ensures AllFields(y, WrittenItem(w, y, items[0]), last) == Outcome(FieldsOf(items), None)
  {
    hide ScanField;
    var written := WrittenItem(w, y, items[0]);
    assert AllFields(y, "", false) == Outcome([], None);
    assert FieldsOf(items) == [items[0].field] by {
      assert items[1..] == [];
    }
    if written == "" {
      NothingWritten(w, y, items[0]);
      assert written[0..] == "";
    } else {
      assert written[|written|..] == "";
    }
  }

  lemma {:induction false} NothingWritten(w: Writer, y: Syntax, item: Item)
    ensures WrittenItem(w, y, item) == "" <==> item.field == "" && !item.quoted
  {
  }

  /** Every list is read back as it was written, but for the list of one empty field without quotes. */
  lemma {:induction false} WriteThenRead(w: Writer, y: Syntax, items: seq<Item>)
    requires Fits(w, y)
    ensures AllFields(y, WrittenList(w, y, items), false) == Outcome(FieldsOf(items), None)
       <==> items != [Item("", false)]
  {
    if items == [] {
    } else if WrittenList(w, y, items) != "" {
      ListIsRead(w, y, items, false);
      if items == [Item("", false)] {
        NothingWritten(w, y, items[0]);
      }
    } else {
      if |items| == 1 {
        NothingWritten(w, y, items[0]);
      }
      assert FieldsOf(items) != [];
    }
  }

  /** The characters used where none are given. */
  lemma {:induction false} DefaultsFit()
    ensures Fits(Writer('\\', ',', '"'), Syntax("\\", ",", "\""))
  {
  }

  // ---------- in the constructor's own terms ----------

  predicate ReadsBack(w: Writer, y: Syntax, items: seq<Item>) {
    AllFields(y, WrittenList(w, y, items), false) == Outcome(FieldsOf(items), None)
  }

  predicate InNone(escapes: string, separators: string, quotes: string, c: char) {
    c !in escapes && c !in separators && c !in quotes
  }

  /**
   For a separator made with these three strings, a list written with any one character of each, none of which stands
   in a string that is looked at before its own, is read back, whichever of them are used.
   */
  lemma {:induction false} GivenWriteThenRead(escapes: string, separators: string, quotes: string, w: Writer,
                                              items: seq<Item>)
    requires w.escape in escapes && w.separator in separators && w.quote in quotes
    requires w.separator !in escapes && w.quote !in escapes && w.quote !in separators
    requires InNone(escapes, separators, quotes, 'n')
    ensures ReadsBack(w, Syntax(escapes, separators, quotes), items) <==> items != [Item("", false)]
  {
    hide AllFields, WrittenList;
    WriteThenRead(w, Syntax(escapes, separators, quotes), items);
  }

  /** A text that holds none of the characters of the three strings is one field, unchanged. */
  lemma {:induction false} PlainTextIsOneField(escapes: string, separators: string, quotes: string, text: string)
    requires text != ""
    requires forall i {:trigger text[i]} :: 0 <= i < |text| ==> InNone(escapes, separators, quotes, text[i])
    ensures AllFields(Syntax(escapes, separators, quotes), text, false) == Outcome([text], None)
  {
    var y := Syntax(escapes, separators, quotes);
    PlainTextIsScanned(y, text, false);
    assert text[|text|..] == "";
    assert AllFields(y, "", false) == Outcome([], None);
  }

  lemma {:induction false} PlainTextIsScanned(y: Syntax, text: string, inQuote: bool)
    requires forall i {:trigger text[i]} :: 0 <= i < |text| ==> InNone(y.escapes, y.separators, y.quotes, text[i])
    ensures ScanField(y, text, inQuote) == Done(text, |text|, false)
  {
    if text != "" {
      PlainTextIsScanned(y, text[1..], inQuote);
      assert text == [text[0]] + text[1..];
    }
  }
}
