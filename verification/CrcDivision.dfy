/**
 What the CRC register means: polynomial division over GF(2). Polynomials are coefficient sequences,
 highest degree first. The register after a message is the remainder, and the only one, of dividing
 message * x^n (plus the initial remainder on top) by x^n + poly.
 */
module CrcDivision {
  import opened BitWords
  import opened CrcSpec

  /** x^n + poly. */
  function Divisor(poly: Word): (d: Bits)
    ensures |d| == |poly| + 1
  {
    [true] + Reverse(poly)
  }

  /** The product of two polynomials. */
  function Times(q: Bits, d: Bits): (p: Bits)
    requires |d| >= 1
    ensures |p| == |q| + |d| - 1
  {
    if q == [] then Zero(|d| - 1)
    else
      var k := |q| - 1;
      Xor(Times(q[..k], d) + [false], Zero(k) + if q[k] then d else Zero(|d|))
  }

  /** The message shifted up by n, with the initial remainder added at the top. */
  function Dividend(r: Word, m: Bits): (p: Bits)
    ensures |p| == |m| + |r|
  {
    Xor(m + Zero(|r|), Reverse(r) + Zero(|m|))
  }

  function QuotientTimesPlus(q: Bits, d: Bits, remainder: Bits): (p: Bits)
    requires |d| == |remainder| + 1
    ensures |p| == |q| + |remainder|
  {
    Xor(Times(q, d), Zero(|q|) + remainder)
  }

  /** The division decisions taken along the message. */
  function Quotient(r: Word, m: Bits, poly: Word): (q: Bits)
    requires |r| == |poly| >= 1
    ensures |q| == |m|
  {
    if m == [] then []
    else
      var k := |m| - 1;
      Quotient(r, m[..k], poly) + [Steps(r, m[..k], poly)[|r| - 1] != m[k]]
  }

  lemma {:induction false} DivisionIdentity(r: Word, m: Bits, poly: Word)
    requires |r| == |poly| >= 1
    ensures Dividend(r, m) == QuotientTimesPlus(Quotient(r, m, poly), Divisor(poly), Reverse(Steps(r, m, poly)))
    decreases |m|
  {
    if m == [] {
      DivisionOfNothing(r, poly);
    } else {
      hide Dividend, QuotientTimesPlus, Quotient, Steps, Reverse;
      var k := |m| - 1;
      DivisionIdentity(r, m[..k], poly);
      DivisionOneMore(r, m[..k], m[k], poly);
      SplitLast(m);
    }
  }

  lemma {:induction false} DivisionOfNothing(r: Word, poly: Word)
    requires |r| == |poly| >= 1
    ensures Dividend(r, []) == QuotientTimesPlus(Quotient(r, [], poly), Divisor(poly), Reverse(Steps(r, [], poly)))
  {
  }

  lemma {:induction false} DivisionOneMore(r: Word, m: Bits, b: bool, poly: Word)
    requires |r| == |poly| >= 1
    requires Dividend(r, m) == QuotientTimesPlus(Quotient(r, m, poly), Divisor(poly), Reverse(Steps(r, m, poly)))
    ensures Dividend(r, m + [b])
         == QuotientTimesPlus(Quotient(r, m + [b], poly), Divisor(poly), Reverse(Steps(r, m + [b], poly)))
  {
    var s := Steps(r, m, poly);
    var t := s[|r| - 1] != b;
    QuotientOneMore(r, m, b, poly);
    StepsOneMore(r, m, b, poly);
    DividendGrows(r, m, b);
    BalanceOneMore(Quotient(r, m, poly), t, Divisor(poly), s, b, poly);
  }

  lemma {:induction false} QuotientOneMore(r: Word, m: Bits, b: bool, poly: Word)
    requires |r| == |poly| >= 1
    ensures Quotient(r, m + [b], poly) == Quotient(r, m, poly) + [Steps(r, m, poly)[|r| - 1] != b]
  {
    assert (m + [b])[..|m|] == m;
  }

  lemma {:induction false} DividendGrows(r: Word, m: Bits, b: bool)
    ensures Dividend(r, m + [b]) == Xor(Dividend(r, m) + [false], Zero(|m|) + [b] + Zero(|r|))
  {
  }

  /** One more message bit shifts the identity up; the new bit and the decision balance out. */
  lemma {:induction false} BalanceOneMore(q: Bits, t: bool, d: Bits, s: Word, b: bool, poly: Word)
    requires |s| == |poly| >= 1 && d == Divisor(poly) && t == (s[|s| - 1] != b)
    ensures QuotientTimesPlus(q + [t], d, Reverse(Step(s, b, poly)))
         == Xor(QuotientTimesPlus(q, d, Reverse(s)) + [false], Zero(|q|) + [b] + Zero(|s|))
  {
    assert (q + [t])[..|q|] == q;
    BalanceBits(Times(q, d), |q|, t, s, b, poly);
  }

  lemma {:induction false} BalanceBits(product: Bits, k: nat, t: bool, s: Word, b: bool, poly: Word)
    requires |s| == |poly| >= 1 && |product| == k + |s| && t == (s[|s| - 1] != b)
    ensures Xor(Xor(product + [false], Zero(k) + if t then Divisor(poly) else Zero(|s| + 1)),
                Zero(k + 1) + Reverse(Step(s, b, poly)))
         == Xor(Xor(product, Zero(k) + Reverse(s)) + [false], Zero(k) + [b] + Zero(|s|))
  {
    var division := if t then Divisor(poly) else Zero(|s| + 1);
    var after, before, bit := [false] + Reverse(Step(s, b, poly)), Reverse(s) + [false], [b] + Zero(|s|);
    Padding(k, product, s, b, poly);
    XorPadded(product + [false], k, division, after);
    XorPadded(product + [false], k, before, bit);
    TailBalance(t, s, b, poly);
  }

  lemma {:induction false} Padding(k: nat, product: Bits, s: Word, b: bool, poly: Word)
    requires |s| == |poly| >= 1 && |product| == k + |s|
    ensures Zero(k + 1) + Reverse(Step(s, b, poly)) == Zero(k) + ([false] + Reverse(Step(s, b, poly)))
    ensures Zero(k) + [b] + Zero(|s|) == Zero(k) + ([b] + Zero(|s|))
    ensures Xor(product, Zero(k) + Reverse(s)) + [false]
         == Xor(product + [false], Zero(k) + (Reverse(s) + [false]))
  {
  }

  lemma {:induction false} XorPadded(p: Bits, k: nat, a: Bits, b: Bits)
    requires |a| == |b| && |p| == k + |a|
    ensures Xor(Xor(p, Zero(k) + a), Zero(k) + b) == Xor(p, Zero(k) + Xor(a, b))
  {
  }

  lemma {:induction false} PointwiseXor(a: Bits, b: Bits, c: Bits, d: Bits)
    requires |a| == |b| == |c| == |d| && forall j :: 0 <= j < |a| ==> (a[j] != b[j]) == (c[j] != d[j])
    ensures Xor(a, b) == Xor(c, d)
  {
  }

  lemma {:induction false} TailBalance(t: bool, s: Word, b: bool, poly: Word)
    requires |s| == |poly| >= 1 && t == (s[|s| - 1] != b)
    ensures Xor(if t then Divisor(poly) else Zero(|s| + 1), [false] + Reverse(Step(s, b, poly)))
         == Xor(Reverse(s) + [false], [b] + Zero(|s|))
  {
    hide Step, Xor, Reverse, Zero, Divisor;
    var d := if t then Divisor(poly) else Zero(|s| + 1);
    var left, right, bit := [false] + Reverse(Step(s, b, poly)), Reverse(s) + [false], [b] + Zero(|s|);
    forall j | 0 <= j <= |s| ensures (d[j] != left[j]) == (right[j] != bit[j]) {
      TailBit(t, s, b, poly, j);
    }
    PointwiseXor(d, left, right, bit);
  }

  lemma {:induction false} TailBit(t: bool, s: Word, b: bool, poly: Word, j: nat)
    requires |s| == |poly| >= 1 && t == (s[|s| - 1] != b) && j <= |s|
    ensures ((if t then Divisor(poly) else Zero(|s| + 1))[j] != ([false] + Reverse(Step(s, b, poly)))[j])
         == ((Reverse(s) + [false])[j] != ([b] + Zero(|s|))[j])
  {
    hide Step;
    if j > 0 {
      StepBit(s, b, poly, |s| - j);
    }
  }

  /** With a leading one in the divisor, the top of a product determines the quotient. */
  lemma {:induction false} QuotientUnique(p: Bits, q: Bits, d: Bits)
    requires |p| == |q| && |d| >= 2 && d[0]
    requires Times(p, d)[..|p|] == Times(q, d)[..|p|]
    ensures p == q
    decreases |p|
  {
    if p != [] {
      var k := |p| - 1;
      var tp, tq := Times(p, d), Times(q, d);
      forall i | 0 <= i < k ensures Times(p[..k], d)[i] == Times(q[..k], d)[i] {
        assert tp[..|p|][i] == tq[..|p|][i];
        assert tp[i] == (Times(p[..k], d) + [false])[i] && tq[i] == (Times(q[..k], d) + [false])[i];
      }
      QuotientUnique(p[..k], q[..k], d);
      assert tp[..|p|][k] == tq[..|p|][k];
      assert p == p[..k] + [p[k]] && q == q[..k] + [q[k]];
    }
  }

  /** The register is the remainder of the division, and no other word of its width is. */
  lemma {:induction false} RegisterIsTheRemainder(r: Word, m: Bits, q: Bits, s: Word, poly: Word)
    requires |r| == |s| == |poly| >= 1 && |q| == |m|
    ensures Dividend(r, m) == QuotientTimesPlus(q, Divisor(poly), Reverse(s))
       <==> q == Quotient(r, m, poly) && s == Steps(r, m, poly)
  {
    var d := Divisor(poly);
    var (q0, s0) := (Quotient(r, m, poly), Steps(r, m, poly));
    DivisionIdentity(r, m, poly);
    if QuotientTimesPlus(q, d, Reverse(s)) == QuotientTimesPlus(q0, d, Reverse(s0)) {
      SameSum(Times(q, d), Times(q0, d), Reverse(s), Reverse(s0), |m|);
      QuotientUnique(q, q0, d);
      SameSum(Times(q, d), Times(q, d), Reverse(s), Reverse(s0), |m|);
      ReverseTwice(s);
      ReverseTwice(s0);
    }
  }

  lemma {:induction false} SameSum(a: Bits, b: Bits, s: Bits, t: Bits, k: nat)
    requires |a| == |b| == k + |s| && |s| == |t|
    requires Xor(a, Zero(k) + s) == Xor(b, Zero(k) + t)
    ensures a[..k] == b[..k]
    ensures a == b ==> s == t
  {
    forall i | 0 <= i < k ensures a[i] == b[i] {
      assert Xor(a, Zero(k) + s)[i] == Xor(b, Zero(k) + t)[i];
    }
    if a == b {
      forall i | 0 <= i < |s| ensures s[i] == t[i] {
        assert Xor(a, Zero(k) + s)[k + i] == Xor(b, Zero(k) + t)[k + i];
      }
    }
  }
}
