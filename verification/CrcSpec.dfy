/**
 The reference register of a CRC of width |r|, on words of exactly that width: what one message
 bit does, what a run of bits does, and the algebra over GF(2) that the table-driven engines rely on.
 Message bits are sequences of bool in transmission order.
 */
module CrcSpec {
  import opened BitWords

  type Bits = seq<bool>

  /** One division step with the incoming bit compared against the top of the register. */
  function Step(r: Word, bit: bool, poly: Word): (s: Word)
    requires |r| == |poly| >= 1
    ensures |s| == |r|
  {
    if r[|r| - 1] != bit then Xor(Shl(r, 1), poly) else Shl(r, 1)
  }

  function Steps(r: Word, bits: Bits, poly: Word): (s: Word)
    requires |r| == |poly| >= 1
    ensures |s| == |r|
    decreases |bits|
  {
    if bits == [] then r else Steps(Step(r, bits[0], poly), bits[1..], poly)
  }

  /** One step of the augmented form: the bit enters at the bottom of the register. */
  function AugStep(r: Word, bit: bool, poly: Word): (s: Word)
    requires |r| == |poly| >= 1
    ensures |s| == |r|
  {
    var t := Xor(Shl(r, 1), Resize([bit], |r|));
    if r[|r| - 1] then Xor(t, poly) else t
  }

  function AugSteps(r: Word, bits: Bits, poly: Word): (s: Word)
    requires |r| == |poly| >= 1
    ensures |s| == |r|
    decreases |bits|
  {
    if bits == [] then r else AugSteps(AugStep(r, bits[0], poly), bits[1..], poly)
  }

  // Running over a concatenation.

  lemma {:induction false} StepsAppend(r: Word, a: Bits, b: Bits, poly: Word)
    requires |r| == |poly| >= 1
    ensures Steps(r, a + b, poly) == Steps(Steps(r, a, poly), b, poly)
    decreases |a|
  {
    if a == [] {
      assert a + b == b;
    } else {
      assert (a + b)[1..] == a[1..] + b;
      StepsAppend(Step(r, a[0], poly), a[1..], b, poly);
    }
  }

  lemma {:induction false} AugStepsAppend(r: Word, a: Bits, b: Bits, poly: Word)
    requires |r| == |poly| >= 1
    ensures AugSteps(r, a + b, poly) == AugSteps(AugSteps(r, a, poly), b, poly)
    decreases |a|
  {
    if a == [] {
      assert a + b == b;
    } else {
      assert (a + b)[1..] == a[1..] + b;
      AugStepsAppend(AugStep(r, a[0], poly), a[1..], b, poly);
    }
  }

  lemma {:induction false} StepsOneMore(r: Word, bits: Bits, bit: bool, poly: Word)
    requires |r| == |poly| >= 1
    ensures Steps(r, bits + [bit], poly) == Step(Steps(r, bits, poly), bit, poly)
  {
    StepsAppend(r, bits, [bit], poly);
    assert [bit][1..] == [];
  }

  // Linearity over GF(2).

  lemma {:induction false} StepLinear(r: Word, s: Word, a: bool, b: bool, poly: Word)
    requires |r| == |s| == |poly| >= 1
    ensures Step(Xor(r, s), a != b, poly) == Xor(Step(r, a, poly), Step(s, b, poly))
  {
    var sum, left, right := Step(Xor(r, s), a != b, poly), Step(r, a, poly), Step(s, b, poly);
    forall i | 0 <= i < |r| ensures sum[i] == (left[i] != right[i]) {
    }
  }

  lemma {:induction false} AugStepLinear(r: Word, s: Word, a: bool, b: bool, poly: Word)
    requires |r| == |s| == |poly| >= 1
    ensures AugStep(Xor(r, s), a != b, poly) == Xor(AugStep(r, a, poly), AugStep(s, b, poly))
  {
    hide AugStep;
    var sum, left, right := AugStep(Xor(r, s), a != b, poly), AugStep(r, a, poly), AugStep(s, b, poly);
    forall i | 0 <= i < |r| ensures sum[i] == (left[i] != right[i]) {
      AugStepBit(Xor(r, s), a != b, poly, i);
      AugStepBit(r, a, poly, i);
      AugStepBit(s, b, poly, i);
    }
  }

  lemma {:induction false} AugStepBit(r: Word, bit: bool, poly: Word, i: nat)
    requires |r| == |poly| && i < |r|
    ensures AugStep(r, bit, poly)[i] == ((if i == 0 then bit else r[i - 1]) != (r[|r| - 1] && poly[i]))
  {
    hide Xor, Shl, Resize;
  }

  lemma {:induction false} StepBit(r: Word, bit: bool, poly: Word, i: nat)
    requires |r| == |poly| && i < |r|
    ensures Step(r, bit, poly)[i] == ((i > 0 && r[i - 1]) != (r[|r| - 1] != bit && poly[i]))
  {
    hide Xor, Shl;
  }

  lemma {:induction false} StepsLinear(r: Word, s: Word, a: Bits, b: Bits, poly: Word)
    requires |r| == |s| == |poly| >= 1 && |a| == |b|
    ensures Steps(Xor(r, s), Xor(a, b), poly) == Xor(Steps(r, a, poly), Steps(s, b, poly))
    decreases |a|
  {
    if a != [] {
      StepLinear(r, s, a[0], b[0], poly);
      assert Xor(a, b)[1..] == Xor(a[1..], b[1..]);
      StepsLinear(Step(r, a[0], poly), Step(s, b[0], poly), a[1..], b[1..], poly);
    }
  }

  lemma {:induction false} AugStepsLinear(r: Word, s: Word, a: Bits, b: Bits, poly: Word)
    requires |r| == |s| == |poly| >= 1 && |a| == |b|
    ensures AugSteps(Xor(r, s), Xor(a, b), poly) == Xor(AugSteps(r, a, poly), AugSteps(s, b, poly))
    decreases |a|
  {
    if a != [] {
      AugStepLinear(r, s, a[0], b[0], poly);
      assert Xor(a, b)[1..] == Xor(a[1..], b[1..]);
      AugStepsLinear(AugStep(r, a[0], poly), AugStep(s, b[0], poly), a[1..], b[1..], poly);
    }
  }

  /** The k highest bits of r, highest first, padded with zeros when r is shorter than k. */
  function TopBits(r: Word, k: nat): (t: Bits)
    ensures |t| == k
  {
    seq(k, i requires 0 <= i => i < |r| && r[|r| - 1 - i])
  }

  /** Feeding a register its own top bits cancels every division: only the shift is left. */
  lemma {:induction false} OwnTopBitsOnlyShift(r: Word, k: nat, poly: Word)
    requires |r| == |poly| >= 1
    ensures Steps(r, TopBits(r, k), poly) == Shl(r, k)
    decreases k
  {
    if k == 0 {
      assert Shl(r, 0) == r;
    } else {
      OwnTopBitsOnlyShift(Shl(r, 1), k - 1, poly);
      TopBitsShift(r, k);
    }
  }

  lemma {:induction false} TopBitsShift(r: Word, k: nat)
    requires k >= 1
    ensures TopBits(r, k)[1..] == TopBits(Shl(r, 1), k - 1)
    ensures Shl(Shl(r, 1), k - 1) == Shl(r, k)
  {
  }

  /** The table step: k bits at once are a shift and one remainder of a zero register. */
  lemma {:induction false} ManyBitsAtOnce(r: Word, bits: Bits, poly: Word)
    requires |r| == |poly| >= 1
    ensures Steps(r, bits, poly)
         == Xor(Shl(r, |bits|), Steps(Zero(|r|), Xor(bits, TopBits(r, |bits|)), poly))
  {
    var top := TopBits(r, |bits|);
    StepsLinear(r, Zero(|r|), top, Xor(bits, top), poly);
    XorZero(r);
    XorTwice(top, bits);
    OwnTopBitsOnlyShift(r, |bits|, poly);
  }

  // The augmented form.

  lemma {:induction false} ZeroStaysZero(n: nat, k: nat, poly: Word)
    requires n == |poly| >= 1
    ensures AugSteps(Zero(n), Zero(k), poly) == Zero(n)
  {
    if k > 0 {
      ZeroStep(n, poly);
      ZeroTail(k);
      ZeroStaysZero(n, k - 1, poly);
    }
  }

  lemma {:induction false} ZeroStep(n: nat, poly: Word)
    requires n == |poly| >= 1
    ensures AugStep(Zero(n), false, poly) == Zero(n)
  {
  }

  lemma {:induction false} ZeroTail(k: nat)
    requires k >= 1
    ensures Zero(k)[1..] == Zero(k - 1)
  {
  }

  /** Without incoming ones the two forms of the register agree. */
  lemma {:induction false} ZeroBitsAgree(r: Word, k: nat, poly: Word)
    requires |r| == |poly| >= 1
    ensures AugSteps(r, Zero(k), poly) == Steps(r, Zero(k), poly)
    decreases k
  {
    if k > 0 {
      assert AugStep(r, false, poly) == Step(r, false, poly);
      ZeroTail(k);
      ZeroBitsAgree(Step(r, false, poly), k - 1, poly);
    }
  }

  /** Bits shifted into an empty register stay there, in order, as long as they fit. */
  lemma {:induction false} FillRegister(n: nat, bits: Bits, poly: Word)
    requires n == |poly| >= 1 && |bits| <= n
    ensures AugSteps(Zero(n), bits, poly) == Resize(Reverse(bits), n)
    decreases |bits|
  {
    if bits == [] {
      FillNothing(n, poly);
    } else {
      hide AugSteps, Reverse, Resize, Zero;
      SplitLast(bits);
      FillRegister(n, bits[..|bits| - 1], poly);
      FillOneMore(n, bits[..|bits| - 1], bits[|bits| - 1], poly);
    }
  }

  lemma {:induction false} FillNothing(n: nat, poly: Word)
    requires n == |poly| >= 1
    ensures AugSteps(Zero(n), [], poly) == Resize(Reverse([]), n)
  {
    assert Resize(Reverse([]), n) == Zero(n);
  }

  lemma {:induction false} FillOneMore(n: nat, bits: Bits, last: bool, poly: Word)
    requires n == |poly| >= 1 && |bits| < n
    requires AugSteps(Zero(n), bits, poly) == Resize(Reverse(bits), n)
    ensures AugSteps(Zero(n), bits + [last], poly) == Resize(Reverse(bits + [last]), n)
  {
    AugStepsAppend(Zero(n), bits, [last], poly);
    OneAugStep(Resize(Reverse(bits), n), last, poly);
    FillStep(n, bits, last, poly);
  }

  lemma {:induction false} FillStep(n: nat, bits: Bits, last: bool, poly: Word)
    requires n == |poly| && |bits| < n
    ensures AugStep(Resize(Reverse(bits), n), last, poly) == Resize(Reverse(bits + [last]), n)
  {
    hide Resize, Reverse, AugStep;
    var before, after := Resize(Reverse(bits), n), Resize(Reverse(bits + [last]), n);
    forall i | 0 <= i < n ensures AugStep(before, last, poly)[i] == after[i] {
      AugStepBit(before, last, poly, i);
    }
  }

  /** k more bits of an augmented message: a shift, the bits at the bottom, one table remainder. */
  lemma {:induction false} ManyAugmentedBits(r: Word, bits: Bits, poly: Word)
    requires |r| == |poly| >= |bits| && |r| >= 1
    ensures AugSteps(r, bits, poly)
         == Xor(Xor(Shl(r, |bits|), Resize(Reverse(bits), |r|)),
                Steps(Zero(|r|), TopBits(r, |bits|), poly))
  {
    var n, k := |r|, |bits|;
    AugStepsLinear(r, Zero(n), Zero(k), bits, poly);
    assert Xor(r, Zero(n)) == r && Xor(Zero(k), bits) == bits;
    FillRegister(n, bits, poly);
    ZeroBitsAgree(r, k, poly);
    ManyBitsAtOnce(r, Zero(k), poly);
    assert Xor(Zero(k), TopBits(r, k)) == TopBits(r, k);
  }

  /** A one at the bottom of the register climbs to bit k in k empty steps. */
  lemma {:induction false} BitClimbs(n: nat, k: nat, poly: Word)
    requires n == |poly| && k < n
    ensures AugSteps(OneBit(n, 0), Zero(k), poly) == OneBit(n, k)
  {
    if k > 0 {
      BitClimbs(n, k - 1, poly);
      ZeroSplit(k - 1);
      AugStepsAppend(OneBit(n, 0), Zero(k - 1), [false], poly);
      OneAugStep(OneBit(n, k - 1), false, poly);
      ClimbStep(n, k, poly);
    }
  }

  lemma {:induction false} ClimbStep(n: nat, k: nat, poly: Word)
    requires n == |poly| && 0 < k < n
    ensures AugStep(OneBit(n, k - 1), false, poly) == OneBit(n, k)
  {
  }

  lemma {:induction false} ZeroSplit(k: nat)
    ensures Zero(k + 1) == Zero(k) + [false] == [false] + Zero(k)
  {
  }

  /** n empty steps turn an augmented step into a plain one. */
  lemma {:induction false} DelayedStep(r: Word, bit: bool, poly: Word)
    requires |r| == |poly| >= 1
    ensures AugSteps(AugStep(r, bit, poly), Zero(|r|), poly)
         == Step(AugSteps(r, Zero(|r|), poly), bit, poly)
  {
    var n := |r|;
    var a := AugStep(r, false, poly);
    var z := AugSteps(r, Zero(n), poly);
    EmptyStepsCommute(r, n, poly);
    if bit {
      assert AugStep(r, true, poly) == Xor(a, OneBit(n, 0));
      AugStepsLinear(a, OneBit(n, 0), Zero(n), Zero(n), poly);
      XorZero(Zero(n));
      BitReachesTop(n, poly);
      assert Step(z, true, poly) == Xor(AugStep(z, false, poly), poly);
    } else {
      assert Step(z, false, poly) == AugStep(z, false, poly);
    }
  }

  lemma {:induction false} EmptyStepsCommute(r: Word, k: nat, poly: Word)
    requires |r| == |poly| >= 1
    ensures AugSteps(AugStep(r, false, poly), Zero(k), poly) == AugStep(AugSteps(r, Zero(k), poly), false, poly)
  {
    ZeroSplit(k);
    AugStepsAppend(r, [false], Zero(k), poly);
    AugStepsAppend(r, Zero(k), [false], poly);
    OneAugStep(r, false, poly);
    OneAugStep(AugSteps(r, Zero(k), poly), false, poly);
  }

  /** From the bottom, a one leaves the register after n empty steps and the polynomial is left. */
  lemma {:induction false} BitReachesTop(n: nat, poly: Word)
    requires n == |poly| >= 1
    ensures AugSteps(OneBit(n, 0), Zero(n), poly) == poly
  {
    ZeroSplit(n - 1);
    AugStepsAppend(OneBit(n, 0), Zero(n - 1), [false], poly);
    BitClimbs(n, n - 1, poly);
    OneAugStep(OneBit(n, n - 1), false, poly);
    assert AugStep(OneBit(n, n - 1), false, poly) == poly;
  }

  lemma {:induction false} OneAugStep(r: Word, bit: bool, poly: Word)
    requires |r| == |poly| >= 1
    ensures AugSteps(r, [bit], poly) == AugStep(r, bit, poly)
  {
    assert [bit][1..] == [];
  }

  /** Any message followed by n zero bits, augmented, is the plain register over the message. */
  lemma {:induction false} AugmentedIsPlain(r: Word, bits: Bits, poly: Word)
    requires |r| == |poly| >= 1
    ensures AugSteps(r, bits + Zero(|r|), poly) == Steps(AugSteps(r, Zero(|r|), poly), bits, poly)
    decreases |bits|
  {
    if bits == [] {
      assert bits + Zero(|r|) == Zero(|r|);
    } else {
      assert (bits + Zero(|r|))[1..] == bits[1..] + Zero(|r|);
      AugmentedIsPlain(AugStep(r, bits[0], poly), bits[1..], poly);
      DelayedStep(r, bits[0], poly);
    }
  }

  /** Replacing the n zero bits by c adds c to the register. */
  lemma {:induction false} AppendedBits(r: Word, bits: Bits, c: Bits, poly: Word)
    requires |r| == |poly| == |c| >= 1
    ensures AugSteps(r, bits + c, poly) == Xor(AugSteps(r, bits + Zero(|c|), poly), Reverse(c))
  {
    var s := AugSteps(r, bits, poly);
    AugStepsAppend(r, bits, c, poly);
    AugStepsAppend(r, bits, Zero(|r|), poly);
    AddedBits(s, c, poly);
  }

  lemma {:induction false} AddedBits(s: Word, c: Bits, poly: Word)
    requires |s| == |poly| == |c| >= 1
    ensures AugSteps(s, c, poly) == Xor(AugSteps(s, Zero(|c|), poly), Reverse(c))
  {
    AugStepsLinear(s, Zero(|s|), Zero(|s|), c, poly);
    XorZero(s);
    XorZero(c);
    FillRegister(|s|, c, poly);
    SameWidth(Reverse(c));
  }

  lemma {:induction false} SameWidth(w: Word)
    ensures Resize(w, |w|) == w
  {
  }

  /** A received message checks to zero exactly when the appended bits are its remainder. */
  lemma {:induction false} CheckIsZeroIffRemainder(r: Word, bits: Bits, c: Bits, poly: Word)
    requires |r| == |poly| == |c| >= 1
    ensures AugSteps(r, bits + c, poly) == Zero(|r|)
       <==> Reverse(c) == AugSteps(r, bits + Zero(|c|), poly)
  {
    AppendedBits(r, bits, c, poly);
    XorIsZero(AugSteps(r, bits + Zero(|c|), poly), Reverse(c));
  }
}
