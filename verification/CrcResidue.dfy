/**
 What a receiver finds who runs the engine over a message and the message's own checksum: the same register for every
 message, and with an odd polynomial only behind the right checksum.
 */
module CrcResidue {
  import opened BitWords
  import opened CrcSpec
  import opened CrcEngines
  import opened CrcOptimalEngine

  /** A checksum as bytes, the lowest first. */
  function LittleEndianBytes(w: Word): (bytes: seq<Byte>)
    requires |w| % 8 == 0
    ensures |bytes| == |w| / 8
  {
    if w == [] then [] else [w[..8]] + LittleEndianBytes(w[8..])
  }

  /** As it is sent: the lowest byte first where bits are sent lowest first, the highest first otherwise. */
  function SentBytes(c: Word, reflect: bool): (bytes: seq<Byte>)
    requires |c| % 8 == 0
    ensures |bytes| == |c| / 8
  {
    if reflect then LittleEndianBytes(c) else BigEndianBytes(c)
  }

  lemma {:induction false} LittleEndianBits(w: Word)
    requires |w| % 8 == 0
    ensures MessageBits(LittleEndianBytes(w), true) == w
    decreases |w|
  {
    if w != [] {
      hide Reverse, MessageBits;
      LittleEndianBits(w[8..]);
      MessageBitsAppend([w[..8]], LittleEndianBytes(w[8..]), true);
      OneByte(w[..8], true);
      assert w == w[..8] + w[8..];
    } else {
      NoMessage();
    }
  }

  lemma {:induction false} NoMessage()
    ensures MessageBits([], true) == []
  {
  }

  lemma {:induction false} SentBits(c: Word, reflect: bool)
    requires |c| % 8 == 0
    ensures MessageBits(SentBytes(c, reflect), reflect) == if reflect then c else Reverse(c)
  {
    hide MessageBits, Reverse;
    if reflect {
      LittleEndianBits(c);
    } else {
      BigEndianBits(c);
    }
  }

  // ---------- as many bits as the register has ----------

  lemma {:induction false} TopBitsAreAll(r: Word)
    ensures TopBits(r, |r|) == Reverse(r) && Shl(r, |r|) == Zero(|r|)
  {
  }

  lemma {:induction false} XorSelf(a: Bits)
    ensures Xor(a, a) == Zero(|a|)
  {
  }

  /** They act like zero bits on the register xored with them. */
  lemma {:induction false} BitsIntoRegister(r: Word, bits: Bits, poly: Word)
    requires |r| == |poly| == |bits| >= 1
    ensures Steps(r, bits, poly) == Steps(Xor(r, Reverse(bits)), Zero(|r|), poly)
  {
    hide Steps, Xor, Reverse, Zero, Shl, TopBits;
    var own := Reverse(bits);
    ReverseTwice(bits);
    TopBitsAreAll(own);
    OwnTopBitsOnlyShift(own, |own|, poly);
    StepsLinear(r, own, bits, bits, poly);
    XorSelf(bits);
    XorZero(Steps(r, bits, poly));
  }

  /** The checksum's bits cancel the register and leave what the final xor does to a zero register. */
  lemma {:induction false} OwnChecksum(r: Word, x: Bits, poly: Word)
    requires |r| == |poly| == |x| >= 1
    ensures Steps(r, Xor(Reverse(r), x), poly) == Steps(Zero(|r|), x, poly)
  {
    hide Steps, Xor, Reverse, Zero, Shl, TopBits;
    TopBitsAreAll(r);
    OwnTopBitsOnlyShift(r, |r|, poly);
    StepsLinear(r, Zero(|r|), Reverse(r), x, poly);
    XorZero(r);
    XorZero(Steps(Zero(|r|), x, poly));
  }

  lemma {:induction false} ReverseOfXor(a: Word, b: Word)
    requires |a| == |b|
    ensures Reverse(Xor(a, b)) == Xor(Reverse(a), Reverse(b))
  {
  }

  lemma {:induction false} ChecksumBits(r: Word, reflect: bool, finalXor: Word)
    requires |r| == |finalXor| && |r| % 8 == 0
    ensures MessageBits(SentBytes(ChecksumOf(r, reflect, finalXor), reflect), reflect)
         == Xor(Reverse(r), if reflect then finalXor else Reverse(finalXor))
  {
    hide MessageBits, Reverse, Xor, SentBytes;
    SentBits(ChecksumOf(r, reflect, finalXor), reflect);
    if !reflect {
      ReverseOfXor(r, finalXor);
    }
  }

  // ---------- the residue ----------

  /** What the final xor, sent like a checksum, makes of a zero register. */
  function Residue(reflect: bool, finalXor: Word, poly: Word): Word
    requires |finalXor| == |poly| >= 1
  {
    Steps(Zero(|poly|), if reflect then finalXor else Reverse(finalXor), poly)
  }

  /**
   For widths of whole bytes and equal reflect flags, a message followed by its own checksum leaves the same register,
   whatever the message and the initial remainder are.
   */
  lemma {:induction false} ChecksumLeavesResidue(initial: Word, bytes: seq<Byte>, reflect: bool, finalXor: Word,
                                                 poly: Word)
    requires |initial| == |poly| == |finalXor| >= 1 && |poly| % 8 == 0
    ensures var c := ChecksumOf(Remainder(initial, bytes, reflect, poly), reflect, finalXor);
            Remainder(initial, bytes + SentBytes(c, reflect), reflect, poly) == Residue(reflect, finalXor, poly)
  {
    hide MessageBits, Reverse, Xor, SentBytes, Steps, Zero, ChecksumOf;
    var r := Remainder(initial, bytes, reflect, poly);
    var tail := SentBytes(ChecksumOf(r, reflect, finalXor), reflect);
    MessageBitsAppend(bytes, tail, reflect);
    StepsAppend(initial, MessageBits(bytes, reflect), MessageBits(tail, reflect), poly);
    ChecksumBits(r, reflect, finalXor);
    OwnChecksum(r, if reflect then finalXor else Reverse(finalXor), poly);
  }

  // ---------- only the right checksum does ----------

  /** With the lowest bit of the polynomial set, a step can be taken back. */
  lemma {:induction false} StepInjective(r: Word, s: Word, bit: bool, poly: Word)
    requires |r| == |s| == |poly| >= 1 && poly[0] && Step(r, bit, poly) == Step(s, bit, poly)
    ensures r == s
  {
    hide Step;
    var n := |r|;
    StepBit(r, bit, poly, 0);
    StepBit(s, bit, poly, 0);
    forall i | 0 <= i < n ensures r[i] == s[i] {
      if i < n - 1 {
        StepBit(r, bit, poly, i + 1);
        StepBit(s, bit, poly, i + 1);
      }
    }
  }

  lemma {:induction false} StepsInjective(r: Word, s: Word, bits: Bits, poly: Word)
    requires |r| == |s| == |poly| >= 1 && poly[0] && Steps(r, bits, poly) == Steps(s, bits, poly)
    ensures r == s
    decreases |bits|
  {
    hide Step;
    if bits != [] {
      StepsInjective(Step(r, bits[0], poly), Step(s, bits[0], poly), bits[1..], poly);
      StepInjective(r, s, bits[0], poly);
    }
  }

  lemma {:induction false} SameXor(r: Word, a: Bits, b: Bits)
    requires |r| == |a| == |b| && Xor(r, Reverse(a)) == Xor(r, Reverse(b))
    ensures a == b
  {
    hide Xor, Reverse;
    XorBack(r, Reverse(a));
    XorBack(r, Reverse(b));
    ReverseTwice(a);
    ReverseTwice(b);
  }

  lemma {:induction false} XorBack(r: Word, a: Word)
    requires |r| == |a|
    ensures Xor(r, Xor(r, a)) == a
  {
  }

  /** From the same register, different bytes, as many as the register is wide, lead to different registers. */
  lemma {:induction false} TailInjective(r: Word, t: seq<Byte>, u: seq<Byte>, reflect: bool, poly: Word)
    requires |r| == |poly| == 8 * |t| == 8 * |u| >= 1 && poly[0]
    requires Remainder(r, t, reflect, poly) == Remainder(r, u, reflect, poly)
    ensures t == u
  {
    hide MessageBits, Reverse, Xor, Steps, Zero;
    var (a, b) := (MessageBits(t, reflect), MessageBits(u, reflect));
    BitsIntoRegister(r, a, poly);
    BitsIntoRegister(r, b, poly);
    StepsInjective(Xor(r, Reverse(a)), Xor(r, Reverse(b)), Zero(|r|), poly);
    SameXor(r, a, b);
    MessageBitsInjective(t, u, reflect);
  }

  /** With an odd polynomial, bytes behind a message leave the residue if and only if they are its checksum. */
  lemma {:induction false} ResidueOnlyBehindChecksum(initial: Word, bytes: seq<Byte>, tail: seq<Byte>, reflect: bool,
                                                     finalXor: Word, poly: Word)
    requires |initial| == |poly| == |finalXor| == 8 * |tail| >= 1 && poly[0]
    ensures Remainder(initial, bytes + tail, reflect, poly) == Residue(reflect, finalXor, poly)
       <==> tail == SentBytes(ChecksumOf(Remainder(initial, bytes, reflect, poly), reflect, finalXor), reflect)
  {
    hide Remainder, SentBytes, ChecksumOf, Residue;
    var r := Remainder(initial, bytes, reflect, poly);
    var right := SentBytes(ChecksumOf(r, reflect, finalXor), reflect);
    ChecksumLeavesResidue(initial, bytes, reflect, finalXor, poly);
    RemainderAppend(initial, bytes, tail, reflect, poly);
    RemainderAppend(initial, bytes, right, reflect, poly);
    if Remainder(initial, bytes + tail, reflect, poly) == Residue(reflect, finalXor, poly) {
      TailInjective(r, tail, right, reflect, poly);
    }
  }

  /** And every change within a stretch of a message that is as long as the register changes the remainder. */
  lemma {:induction false} BurstsAreFound(initial: Word, front: seq<Byte>, t: seq<Byte>, u: seq<Byte>, back: seq<Byte>,
                                          reflect: bool, poly: Word)
    requires |initial| == |poly| == 8 * |t| == 8 * |u| >= 1 && poly[0]
    ensures Remainder(initial, front + t + back, reflect, poly) == Remainder(initial, front + u + back, reflect, poly)
       <==> t == u
  {
    hide Steps, MessageBits;
    var r := Remainder(initial, front, reflect, poly);
    RemainderAppend(initial, front + t, back, reflect, poly);
    RemainderAppend(initial, front + u, back, reflect, poly);
    RemainderAppend(initial, front, t, reflect, poly);
    RemainderAppend(initial, front, u, reflect, poly);
    if Remainder(initial, front + t + back, reflect, poly) == Remainder(initial, front + u + back, reflect, poly) {
      StepsInjective(Remainder(r, t, reflect, poly), Remainder(r, u, reflect, poly), MessageBits(back, reflect), poly);
      TailInjective(r, t, u, reflect, poly);
    }
  }
}
