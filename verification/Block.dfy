/**
 Blocks: the text that is hashed, mining by counting the nonce up, and copying.
 */
module Blocks {
  import opened DecimalText

  datatype Transaction = Transaction(fromAddress: string, toAddress: string, amount: real)

  /** What a block's text is made with: the hash function and the way an amount is printed. */
  datatype Formats = Formats(sha256: string -> string, amountText: real -> string)

  /** A block as a value: the contents of a Block object, and what a node sends to another. */
  datatype BlockValue = BlockValue(previousHash: string, timestamp: int, transactions: seq<Transaction>, nonce: int,
                                   hash: string)

  function IntText(x: int): string {
    if x < 0 then "-" + Plain(-x) else Plain(x)
  }

  function TransactionText(t: Transaction, e: Formats): string {
    "\n " + e.amountText(t.amount) + " : from " + t.fromAddress + " to " + t.toAddress
  }

  function TransactionsText(ts: seq<Transaction>, e: Formats): string {
    if ts == [] then "" else TransactionsText(ts[..|ts| - 1], e) + TransactionText(ts[|ts| - 1], e)
  }

  /** Block::toString. */
  function BlockText(b: BlockValue, e: Formats): string {
    "Previous Hash : " + b.previousHash + "\nTimestamp : " + IntText(b.timestamp) + "\nTransaction : "
    + TransactionsText(b.transactions, e) + "\nNonce : " + IntText(b.nonce) + "\n"
  }

  /** The hash a block should carry. */
  function HashOf(b: BlockValue, e: Formats): string {
    e.sha256(BlockText(b, e))
  }

  lemma {:induction false} TextIgnoresHash(b: BlockValue, hash: string, e: Formats)
    ensures HashOf(b.(hash := hash), e) == HashOf(b, e)
  {
  }

  function Sealed(b: BlockValue, nonce: int, e: Formats): BlockValue {
    var counted := b.(nonce := nonce);
    counted.(hash := HashOf(counted, e))
  }

  function Zeros(difficulty: int): string {
    if difficulty <= 0 then "" else Zeros(difficulty - 1) + "0"
  }

  /** hash.substr(0, difficulty): a negative count is a huge unsigned one, which takes everything. */
  function HashStart(hash: string, difficulty: int): string {
    if 0 <= difficulty < |hash| then hash[..difficulty] else hash
  }

  predicate Solves(hash: string, difficulty: int) {
    HashStart(hash, difficulty) == Zeros(difficulty)
  }

  /** For a difficulty that is not negative, solving is to start with that many zeros. */
  lemma {:induction false} SolvesMeansZeros(hash: string, difficulty: nat)
    ensures Solves(hash, difficulty) <==> difficulty <= |hash| && forall i :: 0 <= i < difficulty ==> hash[i] == '0'
  {
    ZerosAre(difficulty);
    if difficulty <= |hash| {
      assert HashStart(hash, difficulty) == hash[..difficulty];
      if forall i :: 0 <= i < difficulty ==> hash[i] == '0' {
        assert hash[..difficulty] == Zeros(difficulty);
      } else {
        var i :| 0 <= i < difficulty && hash[i] != '0';
        assert hash[..difficulty][i] != Zeros(difficulty)[i];
      }
    }
  }

  lemma {:induction false} ZerosAre(difficulty: nat)
    ensures |Zeros(difficulty)| == difficulty
    ensures forall i {:trigger Zeros(difficulty)[i]} :: 0 <= i < difficulty ==> Zeros(difficulty)[i] == '0'
  {
    if difficulty > 0 {
      ZerosAre(difficulty - 1);
    }
  }

  /** nonce is the first one, counting from `from`, whose hash solves the difficulty. */
  ghost predicate FirstSolution(b: BlockValue, difficulty: int, from: int, nonce: int, e: Formats) {
    && from <= nonce && Solves(Sealed(b, nonce, e).hash, difficulty)
    && forall n {:trigger Sealed(b, n, e)} :: from <= n < nonce ==> !Solves(Sealed(b, n, e).hash, difficulty)
  }

  /** For a negative one, only the empty hash does, which SHA-256 never gives. */
  lemma {:induction false} NegativeDifficulty(hash: string, difficulty: int)
    requires difficulty < 0
    ensures Solves(hash, difficulty) <==> hash == ""
  {
  }

  /** It is the least of all solutions from there on, and there is one as soon as anything solves the difficulty. */
  lemma {:induction false} FirstSolutionIsLeast(b: BlockValue, difficulty: int, from: int, m: int, e: Formats)
    requires from <= m && Solves(Sealed(b, m, e).hash, difficulty)
    ensures exists nonce: int :: from <= nonce <= m && FirstSolution(b, difficulty, from, nonce, e)
    ensures forall nonce: int :: FirstSolution(b, difficulty, from, nonce, e) ==> nonce <= m
    decreases m - from
  {
    hide Solves, Sealed;
    if n: int :| from <= n < m && Solves(Sealed(b, n, e).hash, difficulty) {
      FirstSolutionIsLeast(b, difficulty, from, n, e);
    } else {
      assert FirstSolution(b, difficulty, from, m, e);
    }
  }

  // ---------- what a text gives away ----------

  predicate NoLineEnd(s: string) {
    forall i :: 0 <= i < |s| ==> s[i] != '\n'
  }

  lemma {:induction false} SameStart(a: string, x: string, b: string, y: string)
    requires a + x == b + y && x != "" && y != "" && x[0] == y[0] == '\n' && NoLineEnd(a) && NoLineEnd(b)
    ensures a == b && x == y
  {
    var s := a + x;
    assert s[|a|] == '\n' && s[|b|] == '\n';
    assert forall i {:trigger s[i]} :: 0 <= i < |a| ==> s[i] == a[i];
    assert forall i {:trigger s[i]} :: 0 <= i < |b| ==> s[i] == b[i];
    assert a == s[..|a|] && b == (b + y)[..|b|];
    assert x == s[|a|..] && y == (b + y)[|b|..];
  }

  lemma {:induction false} SameEnd(a: string, x: string, b: string, y: string)
    requires a + x == b + y && a != "" && b != "" && a[|a| - 1] == b[|b| - 1] == ' '
    requires (forall i :: 0 <= i < |x| ==> x[i] != ' ') && (forall i :: 0 <= i < |y| ==> y[i] != ' ')
    ensures a == b && x == y
  {
    var s := a + x;
    assert s[|a| - 1] == ' ' && s[|b| - 1] == ' ';
    assert forall i {:trigger s[i]} :: |a| <= i < |s| ==> s[i] == x[i - |a|];
    assert forall i {:trigger s[i]} :: |b| <= i < |s| ==> s[i] == y[i - |b|];
    assert a == s[..|a|] && b == (b + y)[..|b|];
    assert x == s[|a|..] && y == (b + y)[|b|..];
  }

  lemma {:induction false} CommonHead(h: string, x: string, y: string)
    requires h + x == h + y
    ensures x == y
  {
    assert x == (h + x)[|h|..] && y == (h + y)[|h|..];
  }

  lemma {:induction false} CommonTail(x: string, y: string, t: string)
    requires x + t == y + t
    ensures x == y
  {
    assert |x| == |y| && x == (x + t)[..|x|] && y == (y + t)[..|y|];
  }

  lemma {:induction false} IntTextFaithful(x: int, y: int)
    requires IntText(x) == IntText(y)
    ensures x == y
  {
    PlainValue(if x < 0 then -x else x);
    PlainValue(if y < 0 then -y else y);
    assert IsDigit(Plain(if x < 0 then -x else x)[0]) && IsDigit(Plain(if y < 0 then -y else y)[0]);
    if x < 0 && y < 0 {
      CommonHead("-", Plain(-x), Plain(-y));
    }
  }

  /** A number's text is its decimal one, with a minus sign in front of a negative number. */
  lemma {:induction false} IntTextIsDecimal(x: int)
    ensures x >= 0 ==> AllDigits(IntText(x)) && DigitsValue(IntText(x)) == x
    ensures x < 0 ==> IntText(x)[..1] == "-" && AllDigits(IntText(x)[1..]) && DigitsValue(IntText(x)[1..]) == -x
  {
    PlainValue(if x < 0 then -x else x);
    assert x < 0 ==> IntText(x)[1..] == Plain(-x);
  }

  lemma {:induction false} IntTextPlain(x: int)
    ensures NoLineEnd(IntText(x)) && forall i :: 0 <= i < |IntText(x)| ==> IntText(x)[i] != ' '
  {
  }

  /** The text cut at the line end behind the previous hash, at that behind the timestamp, and in front of the nonce. */
  function TextAfterHash(b: BlockValue, e: Formats): string {
    "\nTimestamp : " + (IntText(b.timestamp) + TextAfterTimestamp(b, e))
  }

  function TextAfterTimestamp(b: BlockValue, e: Formats): string {
    "\nTransaction : " + ((TransactionsText(b.transactions, e) + "\nNonce : ") + IntText(b.nonce) + "\n")
  }

  lemma {:induction false} TextInParts(b: BlockValue, e: Formats)
    ensures BlockText(b, e) == "Previous Hash : " + (b.previousHash + TextAfterHash(b, e))
  {
    hide IntText, TransactionsText;
    Parts("Previous Hash : ", b.previousHash, "\nTimestamp : ", IntText(b.timestamp), "\nTransaction : ",
          TransactionsText(b.transactions, e), "\nNonce : ", IntText(b.nonce), "\n");
  }

  lemma {:induction false} Parts(a: string, b: string, c: string, d: string, e: string, f: string, g: string,
                                 h: string, i: string)
    ensures a + b + c + d + e + f + g + h + i == a + (b + (c + (d + (e + ((f + g) + h + i)))))
  {
    assert e + ((f + g) + h + i) == e + f + g + h + i;
    assert d + (e + f + g + h + i) == d + e + f + g + h + i;
    assert c + (d + e + f + g + h + i) == c + d + e + f + g + h + i;
    assert b + (c + d + e + f + g + h + i) == b + c + d + e + f + g + h + i;
  }

  /** Two blocks with the same text follow the same block, if hashes hold no line end. */
  lemma {:induction false} SameTextSamePrevious(a: BlockValue, b: BlockValue, e: Formats)
    requires BlockText(a, e) == BlockText(b, e) && NoLineEnd(a.previousHash) && NoLineEnd(b.previousHash)
    ensures a.previousHash == b.previousHash && TextAfterHash(a, e) == TextAfterHash(b, e)
  {
    hide BlockText, TextAfterHash;
    TextInParts(a, e);
    TextInParts(b, e);
    CommonHead("Previous Hash : ", a.previousHash + TextAfterHash(a, e), b.previousHash + TextAfterHash(b, e));
    LineEndNext(a, e);
    LineEndNext(b, e);
    SameStart(a.previousHash, TextAfterHash(a, e), b.previousHash, TextAfterHash(b, e));
  }

  lemma {:induction false} LineEndNext(b: BlockValue, e: Formats)
    ensures TextAfterHash(b, e) != "" && TextAfterHash(b, e)[0] == '\n'
    ensures TextAfterTimestamp(b, e) != "" && TextAfterTimestamp(b, e)[0] == '\n'
  {
  }

  /** They also agree in timestamp and nonce, and print the same transactions. */
  lemma {:induction false} SameTextSameBlock(a: BlockValue, b: BlockValue, e: Formats)
    requires BlockText(a, e) == BlockText(b, e) && NoLineEnd(a.previousHash) && NoLineEnd(b.previousHash)
    ensures a.previousHash == b.previousHash && a.timestamp == b.timestamp && a.nonce == b.nonce
    ensures TransactionsText(a.transactions, e) == TransactionsText(b.transactions, e)
  {
    hide BlockText, TransactionsText, IntText;
    SameTextSamePrevious(a, b, e);
    LineEndNext(a, e);
    LineEndNext(b, e);
    IntTextPlain(a.timestamp);
    IntTextPlain(b.timestamp);
    CommonHead("\nTimestamp : ", IntText(a.timestamp) + TextAfterTimestamp(a, e),
               IntText(b.timestamp) + TextAfterTimestamp(b, e));
    SameStart(IntText(a.timestamp), TextAfterTimestamp(a, e), IntText(b.timestamp), TextAfterTimestamp(b, e));
    IntTextFaithful(a.timestamp, b.timestamp);
    SameTransactionsAndNonce(a, b, e);
  }

  lemma {:induction false} SameTransactionsAndNonce(a: BlockValue, b: BlockValue, e: Formats)
    requires TextAfterTimestamp(a, e) == TextAfterTimestamp(b, e)
    ensures a.nonce == b.nonce && TransactionsText(a.transactions, e) == TransactionsText(b.transactions, e)
  {
    hide TransactionsText, IntText;
    var ta := TransactionsText(a.transactions, e) + "\nNonce : ";
    var tb := TransactionsText(b.transactions, e) + "\nNonce : ";
    CommonHead("\nTransaction : ", ta + IntText(a.nonce) + "\n", tb + IntText(b.nonce) + "\n");
    CommonTail(ta + IntText(a.nonce), tb + IntText(b.nonce), "\n");
    IntTextPlain(a.nonce);
    IntTextPlain(b.nonce);
    SameEnd(ta, IntText(a.nonce), tb, IntText(b.nonce));
    IntTextFaithful(a.nonce, b.nonce);
    CommonTail(TransactionsText(a.transactions, e), TransactionsText(b.transactions, e), "\nNonce : ");
  }

  /** The text of a block with one transaction. */
  lemma {:induction false} TextOfOne(x: real, e: Formats)
    ensures BlockText(BlockValue("0", 5, [Transaction("a", "b", x)], 7, "h"), e)
         == "Previous Hash : 0\nTimestamp : 5\nTransaction : " + "\n " + e.amountText(x) + " : from a to b"
          + "\nNonce : 7\n"
  {
    hide BlockText, TransactionText, TransactionsText, IntText;
    var t := Transaction("a", "b", x);
    OnlyLine(t, e);
    LineOfOne(x, e);
    OneDigit(5);
    OneDigit(7);
    var head := "Previous Hash : " + "0" + "\nTimestamp : " + IntText(5) + "\nTransaction : ";
    BlockTextRegrouped(BlockValue("0", 5, [t], 7, "h"), head, e);
    assert head == "Previous Hash : 0\nTimestamp : 5\nTransaction : ";
    TextRegrouped(head, e.amountText(x));
  }

  lemma {:induction false} TextRegrouped(head: string, amount: string)
    ensures head + ("\n " + amount + " : from a to b") + "\nNonce : " + "7" + "\n"
         == head + "\n " + amount + " : from a to b" + "\nNonce : 7\n"
  {
    assert "\nNonce : " + "7" + "\n" == "\nNonce : 7\n";
    Associated(head, "\n ", amount, " : from a to b");
    Associated(head + "\n " + amount + " : from a to b", "\nNonce : ", "7", "\n");
  }

  lemma {:induction false} Associated(a: string, b: string, c: string, d: string)
    ensures a + (b + c + d) == a + b + c + d
  {
  }

  lemma {:induction false} OnlyLine(t: Transaction, e: Formats)
    ensures TransactionsText([t], e) == TransactionText(t, e)
  {
    assert [t][..0] == [] && "" + TransactionText(t, e) == TransactionText(t, e);
  }

  lemma {:induction false} LineOfOne(x: real, e: Formats)
    ensures TransactionText(Transaction("a", "b", x), e) == "\n " + e.amountText(x) + " : from a to b"
  {
    var front := "\n " + e.amountText(x);
    assert " : from " + "a" + " to " + "b" == " : from a to b";
    assert front + " : from " + "a" + " to " + "b" == front + (" : from " + "a" + " to " + "b");
  }

  lemma {:induction false} OneDigit(d: nat)
    requires d < 10
    ensures IntText(d) == [DigitChar(d)]
  {
  }

  // ---------- what a text says about payments ----------

  predicate NoSpace(s: string) {
    forall i {:trigger s[i]} :: 0 <= i < |s| ==> s[i] != ' '
  }

  /** Addresses and the printed amount hold no space. */
  predicate NoSpaces(t: Transaction, e: Formats) {
    NoSpace(t.fromAddress) && NoSpace(t.toAddress) && NoSpace(e.amountText(t.amount))
  }

  predicate AllNoSpaces(ts: seq<Transaction>, e: Formats) {
    forall i {:trigger ts[i]} :: 0 <= i < |ts| ==> NoSpaces(ts[i], e)
  }

  /** Equal payer, equal payee, and an amount that prints the same. */
  predicate SamePayment(t: Transaction, u: Transaction, e: Formats) {
    t.fromAddress == u.fromAddress && t.toAddress == u.toAddress && e.amountText(t.amount) == e.amountText(u.amount)
  }

  predicate SamePayments(ts: seq<Transaction>, us: seq<Transaction>, e: Formats) {
    |ts| == |us| && forall i {:trigger ts[i]} {:trigger us[i]} :: 0 <= i < |ts| ==> SamePayment(ts[i], us[i], e)
  }

  /** A line read from its end: behind its last space stands the payee, before that the payer, then the amount. */
  lemma {:induction false} SameLastLine(x: string, y: string, t: Transaction, u: Transaction, e: Formats)
    requires x + TransactionText(t, e) == y + TransactionText(u, e) && NoSpaces(t, e) && NoSpaces(u, e)
    ensures x == y && SamePayment(t, u, e)
  {
    hide NoSpace;
    var (a, b) := (e.amountText(t.amount), e.amountText(u.amount));
    LineInParts(x, a, t.fromAddress, t.toAddress);
    LineInParts(y, b, u.fromAddress, u.toAddress);
    var (x1, y1) := (x + "\n " + a, y + "\n " + b);
    var (x2, y2) := (x1 + " : from " + t.fromAddress, y1 + " : from " + u.fromAddress);
    SameLastWord(x2, " to ", t.toAddress, y2, u.toAddress);
    SameLastWord(x1, " : from ", t.fromAddress, y1, u.fromAddress);
    SameLastWord(x, "\n ", a, y, b);
  }

  lemma {:induction false} LineInParts(x: string, a: string, from: string, to: string)
    ensures x + ("\n " + a + " : from " + from + " to " + to) == x + "\n " + a + " : from " + from + " to " + to
  {
  }

  lemma {:induction false} SameLastWord(x: string, s: string, word: string, y: string, other: string)
    requires x + s + word == y + s + other && s != "" && s[|s| - 1] == ' ' && NoSpace(word) && NoSpace(other)
    ensures x == y && word == other
  {
    assert (x + s)[|x + s| - 1] == ' ' && (y + s)[|y + s| - 1] == ' ';
    SameEnd(x + s, word, y + s, other);
    CommonTail(x, y, s);
  }

  /** Equal transaction lists are printed only for equal payments. */
  lemma {:induction false} SameTextSamePayments(ts: seq<Transaction>, us: seq<Transaction>, e: Formats)
    requires TransactionsText(ts, e) == TransactionsText(us, e) && AllNoSpaces(ts, e) && AllNoSpaces(us, e)
    ensures SamePayments(ts, us, e)
    decreases |ts|
  {
    hide TransactionText, NoSpaces, SamePayment;
    if ts == [] || us == [] {
      TextNeedsTransactions(ts, e);
      TextNeedsTransactions(us, e);
    } else {
      var (t, u) := (ts[|ts| - 1], us[|us| - 1]);
      SameLastLine(TransactionsText(ts[..|ts| - 1], e), TransactionsText(us[..|us| - 1], e), t, u, e);
      SameTextSamePayments(ts[..|ts| - 1], us[..|us| - 1], e);
      OneMorePayment(ts, us, e);
    }
  }

  lemma {:induction false} OneMorePayment(ts: seq<Transaction>, us: seq<Transaction>, e: Formats)
    requires ts != [] && us != [] && SamePayments(ts[..|ts| - 1], us[..|us| - 1], e)
    requires SamePayment(ts[|ts| - 1], us[|us| - 1], e)
    ensures SamePayments(ts, us, e)
  {
    hide SamePayment;
    forall i {:trigger ts[i]} {:trigger us[i]} | 0 <= i < |ts| ensures SamePayment(ts[i], us[i], e) {
      if i < |ts| - 1 {
        assert ts[..|ts| - 1][i] == ts[i] && us[..|us| - 1][i] == us[i];
      }
    }
  }

  lemma {:induction false} TextNeedsTransactions(ts: seq<Transaction>, e: Formats)
    ensures TransactionsText(ts, e) == "" <==> ts == []
  {
  }

  /** So two blocks with the same text hold the same payments. */
  lemma {:induction false} SameTextSameContents(a: BlockValue, b: BlockValue, e: Formats)
    requires BlockText(a, e) == BlockText(b, e) && NoLineEnd(a.previousHash) && NoLineEnd(b.previousHash)
    requires AllNoSpaces(a.transactions, e) && AllNoSpaces(b.transactions, e)
    ensures SamePayments(a.transactions, b.transactions, e)
  {
    hide BlockText, TransactionsText;
    SameTextSameBlock(a, b, e);
    SameTextSamePayments(a.transactions, b.transactions, e);
  }

  /** With spaces in the addresses that fails: one text for two different payments. */
  lemma {:induction false} SpacesAreAmbiguous(amount: real, e: Formats)
    ensures var (t, u) := (Transaction("a", "b to c", amount), Transaction("a to b", "c", amount));
            TransactionText(t, e) == TransactionText(u, e) && !SamePayment(t, u, e)
  {
    assert "a" + " to " + "b to c" == "a to b" + " to " + "c";
    var front := "\n " + e.amountText(amount) + " : from ";
    assert front + "a" + " to " + "b to c" == front + ("a" + " to " + "b to c");
    assert front + "a to b" + " to " + "c" == front + ("a to b" + " to " + "c");
    assert |"a"| != |"a to b"|;
  }

  // ---------- one transaction, any addresses ----------

  predicate StandsAt(s: string, word: string, k: nat) {
    k + |word| <= |s| && s[k..k + |word|] == word
  }

  /** What is printed of the addresses, " to " between them. */
  function Addresses(t: Transaction): string {
    t.fromAddress + " to " + t.toAddress
  }

  /** " to " stands between the two addresses and nowhere else. */
  ghost predicate OneDivision(t: Transaction) {
    forall k: nat {:trigger StandsAt(Addresses(t), " to ", k)} ::
      StandsAt(Addresses(t), " to ", k) ==> k == |t.fromAddress|
  }

  /** No other payment, with an amount printed without spaces, has the same text. */
  ghost predicate ReadOneWay(t: Transaction, e: Formats) {
    forall u: Transaction :: NoSpace(e.amountText(u.amount)) && TransactionText(u, e) == TransactionText(t, e) ==>
      SamePayment(t, u, e)
  }

  lemma {:induction false} SameFirstWord(a: string, x: string, b: string, y: string)
    requires a + x == b + y && x != "" && y != "" && x[0] == y[0] == ' ' && NoSpace(a) && NoSpace(b)
    ensures a == b && x == y
  {
    var s := a + x;
    assert s[|a|] == ' ' && s[|b|] == ' ';
    assert forall i {:trigger s[i]} :: 0 <= i < |a| ==> s[i] == a[i];
    assert forall i {:trigger s[i]} :: 0 <= i < |b| ==> s[i] == b[i];
    assert a == s[..|a|] && b == (b + y)[..|b|];
    assert x == s[|a|..] && y == (b + y)[|b|..];
  }

  lemma {:induction false} LineByAddresses(t: Transaction, e: Formats)
    ensures TransactionText(t, e) == "\n " + (e.amountText(t.amount) + (" : from " + Addresses(t)))
  {
    LineParts("\n ", e.amountText(t.amount), " : from ", t.fromAddress, " to ", t.toAddress);
  }

  lemma {:induction false} LineParts(a: string, b: string, c: string, d: string, e: string, f: string)
    ensures a + b + c + d + e + f == a + (b + (c + (d + e + f)))
  {
  }

  /** The text is that of the same amount and the same addresses, taken together. */
  lemma {:induction false} SameTextSameAddresses(t: Transaction, u: Transaction, e: Formats)
    requires NoSpace(e.amountText(t.amount)) && NoSpace(e.amountText(u.amount))
    ensures TransactionText(t, e) == TransactionText(u, e)
       <==> e.amountText(t.amount) == e.amountText(u.amount) && Addresses(t) == Addresses(u)
  {
    hide TransactionText, Addresses, NoSpace;
    LineByAddresses(t, e);
    LineByAddresses(u, e);
    if TransactionText(t, e) == TransactionText(u, e) {
      var (a, b) := (e.amountText(t.amount), e.amountText(u.amount));
      CommonHead("\n ", a + (" : from " + Addresses(t)), b + (" : from " + Addresses(u)));
      SameFirstWord(a, " : from " + Addresses(t), b, " : from " + Addresses(u));
      CommonHead(" : from ", Addresses(t), Addresses(u));
    }
  }

  lemma {:induction false} CutAt(s: string, word: string, k: nat)
    requires StandsAt(s, word, k)
    ensures s == s[..k] + word + s[k + |word|..]
  {
  }

  lemma {:induction false} StandsBehind(a: string, word: string, b: string)
    ensures StandsAt(a + word + b, word, |a|)
  {
  }

  /**
   A transaction's text is that of one payment only if and only if " to " stands just once in its addresses: so it
   does wherever they hold no space.
   */
  lemma {:induction false} ReadOneWayIff(t: Transaction, e: Formats)
    requires NoSpace(e.amountText(t.amount))
    ensures ReadOneWay(t, e) <==> OneDivision(t)
  {
    hide TransactionText, NoSpace, StandsAt;
    if OneDivision(t) {
      forall u: Transaction | NoSpace(e.amountText(u.amount)) && TransactionText(u, e) == TransactionText(t, e)
        ensures SamePayment(t, u, e)
      {
        SameTextSameAddresses(t, u, e);
        StandsBehind(u.fromAddress, " to ", u.toAddress);
        assert |u.fromAddress| == |t.fromAddress|;
        SameCut(t, u);
      }
    }
    if k: nat :| StandsAt(Addresses(t), " to ", k) && k != |t.fromAddress| {
      OtherPayment(t, k, e);
    }
  }

  lemma {:induction false} SameCut(t: Transaction, u: Transaction)
    requires Addresses(t) == Addresses(u) && |u.fromAddress| == |t.fromAddress|
    ensures t.fromAddress == u.fromAddress && t.toAddress == u.toAddress
  {
    var n, s := |t.fromAddress|, Addresses(t);
    assert s[..n] == t.fromAddress && s[n + 4..] == t.toAddress;
    assert Addresses(u)[..n] == u.fromAddress && Addresses(u)[n + 4..] == u.toAddress;
  }

  lemma {:induction false} OtherPayment(t: Transaction, k: nat, e: Formats)
    requires NoSpace(e.amountText(t.amount)) && StandsAt(Addresses(t), " to ", k) && k != |t.fromAddress|
    ensures !ReadOneWay(t, e)
  {
    hide TransactionText, NoSpace;
    var s := Addresses(t);
    var u := Transaction(s[..k], s[k + 4..], t.amount);
    CutAt(s, " to ", k);
    SameTextSameAddresses(u, t, e);
    assert |u.fromAddress| == k && !SamePayment(t, u, e);
  }

  lemma {:induction false} NoSpaceOneDivision(t: Transaction)
    requires NoSpace(t.fromAddress) && NoSpace(t.toAddress)
    ensures OneDivision(t)
  {
    var s, n := Addresses(t), |t.fromAddress|;
    forall k: nat | StandsAt(s, " to ", k) ensures k == n {
      assert s[k..k + 4][0] == s[k] && s[k..k + 4][3] == s[k + 3];
      SpacesOfAddresses(t, k);
      SpacesOfAddresses(t, k + 3);
    }
  }

  lemma {:induction false} SpacesOfAddresses(t: Transaction, i: nat)
    requires NoSpace(t.fromAddress) && NoSpace(t.toAddress) && i < |Addresses(t)|
    ensures Addresses(t)[i] == ' ' <==> i == |t.fromAddress| || i == |t.fromAddress| + 3
  {
    var n := |t.fromAddress|;
    if i < n {
      assert Addresses(t)[i] == t.fromAddress[i];
    } else if i < n + 4 {
      assert Addresses(t)[i] == " to "[i - n];
    } else {
      assert Addresses(t)[i] == t.toAddress[i - n - 4];
    }
  }

  // ---------- the class ----------

  class Block {
    var previousHash: string
    var timestamp: int
    var transactions: seq<Transaction>
    var nonce: int
    var hash: string

    function View(): BlockValue
      reads this
    {
      BlockValue(previousHash, timestamp, transactions, nonce, hash)
    }

    constructor New(timestamp: int, transactions: seq<Transaction>, previousHash: string, e: Formats)
      ensures View() == Sealed(BlockValue(previousHash, timestamp, transactions, 0, ""), 0, e)
    {
      this.previousHash := previousHash;
      this.timestamp := timestamp;
      this.transactions := transactions;
      this.nonce := 0;
      this.hash := HashOf(BlockValue(previousHash, timestamp, transactions, 0, ""), e);
    }

    constructor Empty(previousHash: string, timestamp: int, nonce: int)
      ensures View() == BlockValue(previousHash, timestamp, [], nonce, "")
    {
      this.previousHash := previousHash;
      this.timestamp := timestamp;
      this.transactions := [];
      this.nonce := nonce;
      this.hash := "";
    }

    method ToString(e: Formats) returns (str: string)
      ensures str == BlockText(View(), e)
    {
      hide IntText, TransactionText;
      str := "Previous Hash : " + previousHash + "\nTimestamp : " + IntText(timestamp) + "\nTransaction : ";
      ghost var head := str;
      for i := 0 to |transactions|
        invariant str == head + TransactionsText(transactions[..i], e)
      {
        OneMoreLine(head, transactions, i, e);
        str := str + TransactionText(transactions[i], e);
      }
      assert transactions[..|transactions|] == transactions;
      str := str + "\nNonce : " + IntText(nonce) + "\n";
      BlockTextRegrouped(View(), head, e);
    }

    method CalculateHash(e: Formats) returns (h: string)
      ensures h == HashOf(View(), e)
    {
      var strBlock := ToString(e);
      h := e.sha256(strBlock);
    }

    /** Counts the nonce up until the hash solves the difficulty; a solution must exist for this to end. */
    method MineBlock(difficulty: int, e: Formats, ghost solution: int)
      requires hash == HashOf(View(), e)
      requires nonce <= solution && Solves(Sealed(View(), solution, e).hash, difficulty)
      modifies this`nonce, this`hash
      ensures View() == Sealed(old(View()), nonce, e)
      ensures FirstSolution(old(View()), difficulty, old(nonce), nonce, e) && nonce <= solution
    {
      hide BlockText, Solves;
      var stringZero := "";
      for i := 0 to if difficulty < 0 then 0 else difficulty
        invariant stringZero == Zeros(i)
      {
        stringZero := stringZero + "0";
      }
      SolvesByComparing(difficulty, stringZero);
      ghost var start := View();
      assert Sealed(start, nonce, e) == start;
      while HashStart(hash, difficulty) != stringZero
        invariant old(nonce) <= nonce <= solution && View() == Sealed(start, nonce, e)
        invariant forall n {:trigger Sealed(start, n, e)} :: old(nonce) <= n < nonce ==>
                    !Solves(Sealed(start, n, e).hash, difficulty)
        decreases solution - nonce
      {
        assert !Solves(hash, difficulty);
        nonce := nonce + 1;
        TextIgnoresHash(View(), start.hash, e);
        hash := CalculateHash(e);
      }
    }

    method CopyConstructor() returns (newBlock: Block)
      ensures fresh(newBlock) && newBlock.View() == View()
    {
      newBlock := new Block.Empty(previousHash, timestamp, nonce);
      newBlock.hash := hash;
      for i := 0 to |transactions|
        invariant newBlock.transactions == transactions[..i]
        invariant newBlock.View() == View().(transactions := transactions[..i])
      {
        newBlock.transactions := newBlock.transactions + [transactions[i]];
      }
    }
  }

  lemma {:induction false} OneMoreLine(head: string, ts: seq<Transaction>, i: nat, e: Formats)
    requires i < |ts|
    ensures head + TransactionsText(ts[..i + 1], e) == (head + TransactionsText(ts[..i], e)) + TransactionText(ts[i], e)
  {
    assert ts[..i + 1][..i] == ts[..i];
  }

  lemma {:induction false} BlockTextRegrouped(b: BlockValue, head: string, e: Formats)
    requires head == "Previous Hash : " + b.previousHash + "\nTimestamp : " + IntText(b.timestamp) + "\nTransaction : "
    ensures BlockText(b, e) == head + TransactionsText(b.transactions, e) + "\nNonce : " + IntText(b.nonce) + "\n"
  {
  }

  lemma {:induction false} SolvesByComparing(difficulty: int, zeros: string)
    requires zeros == Zeros(if difficulty < 0 then 0 else difficulty)
    ensures forall hash {:trigger HashStart(hash, difficulty)} ::
              Solves(hash, difficulty) <==> HashStart(hash, difficulty) == zeros
  {
  }
}
