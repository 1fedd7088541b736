/**
 The CRC engines: bit by bit (crc_basic), byte by byte through a generated table (crc_optimal), and
 the augmented-message form. Registers may be wider than the CRC and may carry anything above it;
 every contract speaks of the low `bits` bits, which are all that the original promises.
 */
module CrcEngines {
  import opened BitWords
  import opened CrcSpec

  // Messages as bit sequences in transmission order.

  function ByteBits(b: Byte, lowFirst: bool): (s: Bits)
    ensures |s| == 8
  {
    if lowFirst then b else Reverse(b)
  }

  function MessageBits(bytes: seq<Byte>, lowFirst: bool): (s: Bits)
    ensures |s| == 8 * |bytes|
  {
    if bytes == [] then [] else ByteBits(bytes[0], lowFirst) + MessageBits(bytes[1..], lowFirst)
  }

  lemma {:induction false} MessageBitsAppend(a: seq<Byte>, b: seq<Byte>, lowFirst: bool)
    ensures MessageBits(a + b, lowFirst) == MessageBits(a, lowFirst) + MessageBits(b, lowFirst)
  {
    if a == [] {
      assert a + b == b;
    } else {
      assert (a + b)[1..] == a[1..] + b;
      MessageBitsAppend(a[1..], b, lowFirst);
    }
  }

  /** The remainder of a whole message from register r. */
  function Remainder(r: Word, bytes: seq<Byte>, lowFirst: bool, poly: Word): (s: Word)
    requires |r| == |poly| >= 1
    ensures |s| == |r|
  {
    Steps(r, MessageBits(bytes, lowFirst), poly)
  }

  lemma {:induction false} RemainderAppend(r: Word, a: seq<Byte>, b: seq<Byte>, lowFirst: bool, poly: Word)
    requires |r| == |poly| >= 1
    ensures Remainder(r, a + b, lowFirst, poly) == Remainder(Remainder(r, a, lowFirst, poly), b, lowFirst, poly)
  {
    MessageBitsAppend(a, b, lowFirst);
    StepsAppend(r, MessageBits(a, lowFirst), MessageBits(b, lowFirst), poly);
  }

  lemma {:induction false} RemainderOneMore(r: Word, bytes: seq<Byte>, k: nat, lowFirst: bool, poly: Word)
    requires |r| == |poly| >= 1 && k < |bytes|
    ensures Remainder(r, bytes[..k + 1], lowFirst, poly)
         == Steps(Remainder(r, bytes[..k], lowFirst, poly), ByteBits(bytes[k], lowFirst), poly)
  {
    MessageOneMore(bytes, k, lowFirst);
    StepsAppend(r, MessageBits(bytes[..k], lowFirst), ByteBits(bytes[k], lowFirst), poly);
  }

  lemma {:induction false} MessageOneMore(bytes: seq<Byte>, k: nat, lowFirst: bool)
    requires k < |bytes|
    ensures MessageBits(bytes[..k + 1], lowFirst) == MessageBits(bytes[..k], lowFirst) + ByteBits(bytes[k], lowFirst)
  {
    MessageBitsAppend(bytes[..k], [bytes[k]], lowFirst);
    OneByte(bytes[k], lowFirst);
    assert bytes[..k] + [bytes[k]] == bytes[..k + 1];
  }

  lemma {:induction false} OneByte(b: Byte, lowFirst: bool)
    ensures MessageBits([b], lowFirst) == ByteBits(b, lowFirst)
  {
    assert [b][1..] == [];
    assert ByteBits(b, lowFirst) + [] == ByteBits(b, lowFirst);
  }

  /** The checksum that belongs to a remainder: optional reflection, then the final xor. */
  function ChecksumOf(r: Word, reflectRem: bool, finalXor: Word): (c: Word)
    requires |r| == |finalXor|
    ensures |c| == |r|
  {
    Xor(if reflectRem then Reverse(r) else r, finalXor)
  }

  /** What reflect returns: the low bits in reverse order, zeros above. */
  function Reflected(x: Word, bits: nat): (w: Word)
    requires bits <= |x|
    ensures |w| == |x|
  {
    Resize(Reverse(x[..bits]), |x|)
  }

  lemma {:induction false} ReflectedByte(b: Byte)
    ensures Reflected(b, 8) == Reverse(b)
  {
    assert b[..8] == b;
  }

  lemma {:induction false} TestBit(a: Word, k: nat)
    requires k < |a|
    ensures And(a, OneBit(|a|, k)) != Zero(|a|) <==> a[k]
  {
    if a[k] {
      assert And(a, OneBit(|a|, k))[k];
    }
  }

  /** The reflection built from the i lowest bits of x alone. */
  function ReflectedPart(x: Word, bits: nat, i: nat): (w: Word)
    requires i <= bits <= |x|
    ensures |w| == |x|
    ensures forall k {:trigger w[k]} :: 0 <= k < |x| ==> w[k] == (bits - i <= k < bits && x[bits - 1 - k])
  {
    seq(|x|, k requires 0 <= k < |x| => bits - i <= k < bits && x[bits - 1 - k])
  }

  lemma {:induction false} ReflectOneMore(x: Word, bits: nat, i: nat)
    requires i < bits <= |x|
    ensures ReflectedPart(x, bits, i + 1)
         == if x[i] then Or(ReflectedPart(x, bits, i), Shl(OneBit(|x|, 0), bits - 1 - i))
            else ReflectedPart(x, bits, i)
  {
  }

  lemma {:induction false} ReflectEnds(x: Word, bits: nat)
    requires bits <= |x|
    ensures ReflectedPart(x, bits, 0) == Zero(|x|)
    ensures ReflectedPart(x, bits, bits) == Reflected(x, bits)
    ensures Shr(x, 0) == x
  {
  }

  lemma {:induction false} ShrOneMore(x: Word, i: nat)
    ensures Shr(Shr(x, i), 1) == Shr(x, i + 1)
  {
  }

  /** reflector<bits>::reflect. */
  method Reflect(x: Word, bits: nat) returns (reflection: Word)
    requires 1 <= bits <= |x|
    ensures reflection == Reflected(x, bits)
  {
    var width := |x|;
    var one := OneBit(width, 0);
    var rest := x;
    reflection := Zero(width);
    ReflectEnds(x, bits);
    for i := 0 to bits
      invariant rest == Shr(x, i)
      invariant reflection == ReflectedPart(x, bits, i)
    {
      TestBit(rest, 0);
      ReflectOneMore(x, bits, i);
      if And(rest, one) != Zero(width) {
        reflection := Or(reflection, Shl(one, bits - 1 - i));
      }
      ShrOneMore(x, i);
      rest := Shr(rest, 1);
    }
  }

  lemma {:induction false} NextBit(byte: Byte, bitCount: nat, i: nat)
    requires 0 < i <= bitCount <= 8
    ensures Shl(byte, 8 - i)[7] == Reverse(byte[..bitCount])[bitCount - i]
    ensures Shl(Shl(byte, 8 - i), 1) == Shl(byte, 8 - (i - 1))
  {
  }

  // ---------- crc_basic ----------

  class CrcBasic {
    const bits: nat
    var rem: Word
    var poly: Word
    var initial: Word
    var finalXor: Word
    var reflectIn: bool
    var reflectRem: bool

    ghost predicate Valid()
      reads this
    {
      1 <= bits <= |rem| && |poly| == |initial| == |finalXor| == |rem|
    }

    /** The register proper. */
    ghost function Register(): (r: Word)
      reads this
      requires Valid()
      ensures |r| == bits
    {
      rem[..bits]
    }

    constructor (bits: nat, truncatedPolynominal: Word, initialRemainder: Word, finalXorValue: Word,
                 reflectInput: bool, reflectRemainder: bool)
      requires 1 <= bits <= |truncatedPolynominal|
      requires |initialRemainder| == |finalXorValue| == |truncatedPolynominal|
      ensures Valid() && this.bits == bits && poly == truncatedPolynominal && initial == initialRemainder
      ensures rem == initialRemainder && finalXor == finalXorValue
      ensures reflectIn == reflectInput && reflectRem == reflectRemainder
    {
      this.bits := bits;
      rem := initialRemainder;
      poly := truncatedPolynominal;
      initial := initialRemainder;
      finalXor := finalXorValue;
      reflectIn := reflectInput;
      reflectRem := reflectRemainder;
    }

    method Reset()
      requires Valid()
      modifies this`rem
      ensures Valid() && rem == initial
    {
      rem := initial;
    }

    method ProcessBit(bit: bool)
      requires Valid()
      modifies this`rem
      ensures Valid() && |rem| == old(|rem|)
      ensures Register() == Step(old(Register()), bit, poly[..bits])
    {
      hide Shl, OneBit, And, Zero, Xor, Step;
      var highBitMask := OneBit(|rem|, bits - 1);
      DivisionBit(rem, bit, bits, poly);
      XorZero(rem);
      rem := Xor(rem, if bit then highBitMask else Zero(|rem|));
      TestBit(rem, bits - 1);
      var doPolyDiv := And(rem, highBitMask) != Zero(|rem|);
      rem := Shl(rem, 1);
      if doPolyDiv {
        rem := Xor(rem, poly);
      }
    }

    /** The low bitCount bits of the byte, highest first. */
    method ProcessBits(byte: Byte, bitCount: nat)
      requires Valid() && bitCount <= 8
      modifies this`rem
      ensures Valid() && |rem| == old(|rem|)
      ensures Register() == Steps(old(Register()), Reverse(byte[..bitCount]), poly[..bits])
    {
      hide Shl, Reverse, OneBit, And, Zero, Step;
      var rest := Shl(byte, 8 - bitCount);
      var highBitMask := OneBit(8, 7);
      ghost var before, todo := Register(), Reverse(byte[..bitCount]);
      var i := bitCount;
      while i > 0
        invariant 0 <= i <= bitCount
        invariant Valid() && |rem| == old(|rem|)
        invariant rest == Shl(byte, 8 - i)
        invariant Register() == Steps(before, todo[..bitCount - i], poly[..bits])
      {
        NextBit(byte, bitCount, i);
        TestBit(rest, 7);
        OneMoreBit(before, todo, bitCount - i, poly[..bits]);
        ProcessBit(And(rest, highBitMask) != Zero(8));
        rest := Shl(rest, 1);
        i := i - 1;
      }
      assert todo[..bitCount] == todo;
    }

    method ProcessByte(byte: Byte)
      requires Valid()
      modifies this`rem
      ensures Valid() && |rem| == old(|rem|)
      ensures Register() == Steps(old(Register()), ByteBits(byte, reflectIn), poly[..bits])
    {
      var b: Byte := byte;
      if reflectIn {
        b := Reflect(byte, 8);
        ReflectedByte(byte);
        ReverseTwice(byte);
      }
      assert b[..8] == b;
      ProcessBits(b, 8);
    }

    method ProcessBlock(block: seq<Byte>)
      requires Valid()
      modifies this`rem
      ensures Valid() && |rem| == old(|rem|)
      ensures Register() == Remainder(old(Register()), block, reflectIn, poly[..bits])
    {
      ghost var before := Register();
      for i := 0 to |block|
        invariant Valid() && |rem| == old(|rem|)
        invariant Register() == Remainder(before, block[..i], reflectIn, poly[..bits])
      {
        ProcessByte(block[i]);
        RemainderOneMore(before, block, i, reflectIn, poly[..bits]);
      }
      assert block[..|block|] == block;
    }

    method GetInterimRemainder() returns (r: Word)
      requires Valid()
      ensures r == Resize(Register(), |rem|)
    {
      r := And(rem, SignificantBits(|rem|, bits));
    }

    method Checksum() returns (c: Word)
      requires Valid()
      ensures c == Resize(ChecksumOf(Register(), reflectRem, finalXor[..bits]), |rem|)
    {
      var r := rem;
      if reflectRem {
        r := Reflect(rem, bits);
      }
      c := And(Xor(r, finalXor), SignificantBits(|rem|, bits));
    }
  }

  /** The mask of the low bits. */
  function SignificantBits(width: nat, bits: nat): (w: Word)
    ensures |w| == width && forall i {:trigger w[i]} :: 0 <= i < width ==> w[i] == (i < bits)
  {
    seq(width, i => i < bits)
  }

  // ---------- the lookup table ----------

  /** The dividend bits that a table index stands for. */
  function DividendBits(index: nat, reflect: bool): (s: Bits)
    ensures |s| == 8
  {
    ByteBits(FromNumber(index, 8), reflect)
  }

  /** An entry holds the remainder of its dividend; reflected entries have nothing above it. */
  ghost predicate GoodEntry(entry: Word, index: nat, width: nat, poly: Word, reflect: bool)
    requires 1 <= |poly| <= width
  {
    var r := Steps(Zero(|poly|), DividendBits(index, reflect), poly);
    |entry| == width && if reflect then entry == Resize(Reverse(r), width) else entry[..|poly|] == r
  }

  class CrcTable {
    const bits: nat
    const truncPoly: Word
    const reflect: bool
    const table: array<Word>
    var didInit: bool

    ghost predicate Valid()
      reads this, table
    {
      && 1 <= bits <= |truncPoly|
      && table.Length == 256
      && (didInit ==> Filled())
    }

    ghost predicate Filled()
      reads table
      requires 1 <= bits <= |truncPoly| && table.Length == 256
    {
      forall i :: 0 <= i < 256 ==> GoodAt(i)
    }

    constructor (bits: nat, truncPoly: Word, reflect: bool)
      requires 1 <= bits <= |truncPoly|
      ensures Valid() && !didInit && fresh(table)
      ensures this.bits == bits && this.truncPoly == truncPoly && this.reflect == reflect
    {
      this.bits := bits;
      this.truncPoly := truncPoly;
      this.reflect := reflect;
      var zero := Zero(|truncPoly|);
      table := new Word[256](i => zero);
      didInit := false;
    }

    /** Division by the polynomial for the dividend bit under the mask. */
    method DivideRound(dividend: Byte, mask: Byte, ghost k: nat, before: Word) returns (remainder: Word)
      requires Valid() && k < 8 && mask == OneBit(8, 7 - k) && |before| == |truncPoly|
      ensures |remainder| == |truncPoly|
      ensures remainder[..bits] == Step(before[..bits], Reverse(dividend)[k], truncPoly[..bits])
    {
      hide Shl, OneBit, And, Zero, Xor, Reverse, Step;
      var fastHiBit := OneBit(|truncPoly|, bits - 1);
      remainder := before;
      TestBit(dividend, 7 - k);
      if And(dividend, mask) != Zero(8) {
        remainder := Xor(remainder, fastHiBit);
      }
      TestBit(remainder, bits - 1);
      DivisionBit(before, Reverse(dividend)[k], bits, truncPoly);
      if And(remainder, fastHiBit) != Zero(|truncPoly|) {
        remainder := Shl(remainder, 1);
        remainder := Xor(remainder, truncPoly);
      } else {
        remainder := Shl(remainder, 1);
      }
    }

    /** The division of one dividend, its highest bit first. */
    method Divide(dividend: Byte) returns (remainder: Word)
      requires Valid()
      ensures |remainder| == |truncPoly|
      ensures remainder[..bits] == Steps(Zero(bits), Reverse(dividend), truncPoly[..bits])
    {
      ghost var todo := Reverse(dividend);
      ghost var poly := truncPoly[..bits];
      remainder := Zero(|truncPoly|);
      var mask := OneBit(8, 7);
      assert mask[7];
      ghost var k := 0;
      assert todo[..0] == [];
      assert remainder[..bits] == Zero(bits);
      while mask != Zero(8)
        invariant 0 <= k <= 8
        invariant mask == if k < 8 then OneBit(8, 7 - k) else Zero(8)
        invariant mask == Zero(8) <==> k == 8
        invariant |remainder| == |truncPoly|
        invariant remainder[..bits] == Steps(Zero(bits), todo[..k], poly)
        decreases 8 - k
      {
        assert k < 8;
        remainder := DivideRound(dividend, mask, k, remainder);
        OneMoreBit(Zero(bits), todo, k, poly);
        mask := ShiftedMask(mask, k);
        k := k + 1;
      }
      assert todo[..8] == todo;
    }

    method ShiftedMask(mask: Byte, ghost k: nat) returns (m: Byte)
      requires k < 8 && mask == OneBit(8, 7 - k)
      ensures m == if k + 1 < 8 then OneBit(8, 6 - k) else Zero(8)
      ensures m == Zero(8) <==> k + 1 == 8
    {
      m := Shr(mask, 1);
      if k + 1 < 8 {
        assert m[6 - k];
      }
    }

    /** The table index and the table entry of one dividend. */
    method EntryFor(dividend: nat) returns (index: nat, entry: Word)
      requires Valid() && dividend < 256
      ensures index == Slot(dividend, reflect) < 256
      ensures GoodEntry(entry, index, |truncPoly|, truncPoly[..bits], reflect)
    {
      var byte := FromNumber(dividend, 8);
      entry := Divide(byte);
      SlotOfByte(dividend, reflect);
      ReflectedByte(byte);
      if reflect {
        byte := Reflect(byte, 8);
        entry := Reflect(entry, bits);
      }
      index := ToNumber(byte);
    }

    ghost predicate GoodAt(i: nat)
      reads table
      requires 1 <= bits <= |truncPoly| && table.Length == 256 && i < 256
    {
      GoodEntry(table[i], i, |truncPoly|, truncPoly[..bits], reflect)
    }

    /** The remainders of the first n dividends are in their places. */
    ghost predicate FilledUpTo(n: nat)
      reads table
      requires 1 <= bits <= |truncPoly| && table.Length == 256
    {
      forall d :: 0 <= d < n ==> Slot(d, reflect) < 256 && GoodAt(Slot(d, reflect))
    }

    lemma {:induction false} AllDividends()
      requires 1 <= bits <= |truncPoly| && table.Length == 256 && FilledUpTo(256)
      ensures Filled()
    {
      forall i | 0 <= i < 256 ensures GoodAt(i) {
        SlotOfByte(i, reflect);
        assert Slot(Slot(i, reflect), reflect) == i;
      }
    }

    method FillEntry(dividend: nat)
      requires Valid() && !didInit && dividend < 256 && FilledUpTo(dividend)
      modifies table
      ensures FilledUpTo(dividend + 1)
    {
      var index, entry := EntryFor(dividend);
      SlotsDiffer(dividend, reflect);
      table[index] := entry;
      assert GoodAt(index);
    }

    method InitTable()
      requires Valid()
      modifies table, this`didInit
      ensures Valid() && didInit
      ensures old(didInit) ==> table[..] == old(table[..])
    {
      if didInit {
        return;
      }
      var dividend := 0;
      var more := true;
      ghost var done := 0;
      while more
        invariant 0 <= done <= 256 && Valid() && !didInit
        invariant more ==> dividend == done < 256
        invariant !more ==> done == 256
        invariant FilledUpTo(done)
        decreases 256 - done
      {
        FillEntry(dividend);
        done := done + 1;
        dividend := (dividend + 1) % 256;
        more := dividend != 0;
      }
      AllDividends();
      didInit := true;
    }
  }

  lemma {:induction false} SlotsDiffer(n: nat, reflect: bool)
    requires n < 256
    ensures Slot(n, reflect) < 256
    ensures forall d :: 0 <= d < n ==> Slot(d, reflect) != Slot(n, reflect)
  {
    SlotOfByte(n, reflect);
    forall d | 0 <= d < n ensures Slot(d, reflect) != Slot(n, reflect) {
      SlotOfByte(d, reflect);
      SlotOfByte(n, reflect);
    }
  }

  /** One round of the table generator is one step of the reference register. */
  lemma {:induction false} DivisionBit(r: Word, bit: bool, bits: nat, poly: Word)
    requires 1 <= bits <= |r| == |poly|
    ensures var x := if bit then Xor(r, OneBit(|r|, bits - 1)) else r;
            (if x[bits - 1] then Xor(Shl(x, 1), poly) else Shl(x, 1))[..bits] == Step(r[..bits], bit, poly[..bits])
  {
    hide Shl, Xor, OneBit;
    var x := if bit then Xor(r, OneBit(|r|, bits - 1)) else r;
    FlippedTop(r, bit, bits);
    ShiftedLow(x, bits, poly);
    ShiftedWhole(r[..bits], poly[..bits]);
    assert r[..bits][..bits - 1] == r[..bits - 1];
  }

  lemma {:induction false} FlippedTop(r: Word, bit: bool, bits: nat)
    requires 1 <= bits <= |r|
    ensures var x := if bit then Xor(r, OneBit(|r|, bits - 1)) else r;
            x[bits - 1] == (r[bits - 1] != bit) && x[..bits - 1] == r[..bits - 1]
  {
  }

  lemma {:induction false} ShiftedLow(x: Word, bits: nat, poly: Word)
    requires 1 <= bits <= |x| == |poly|
    ensures Shl(x, 1)[..bits] == [false] + x[..bits - 1]
    ensures Xor(Shl(x, 1), poly)[..bits] == Xor([false] + x[..bits - 1], poly[..bits])
  {
  }

  lemma {:induction false} ShiftedWhole(r: Word, poly: Word)
    requires |r| == |poly| >= 1
    ensures Shl(r, 1) == [false] + r[..|r| - 1]
  {
  }

  lemma {:induction false} OneMoreBit(r: Word, bits: Bits, k: nat, poly: Word)
    requires |r| == |poly| >= 1 && k < |bits|
    ensures Steps(r, bits[..k + 1], poly) == Step(Steps(r, bits[..k], poly), bits[k], poly)
  {
    assert bits[..k + 1] == bits[..k] + [bits[k]];
    StepsOneMore(r, bits[..k], bits[k], poly);
  }

  /** Where the remainder of dividend d is stored. */
  function Slot(d: nat, reflect: bool): (i: nat)
  {
    ToNumber(if reflect then Reverse(FromNumber(d, 8)) else FromNumber(d, 8))
  }

  lemma {:induction false} SlotOfByte(d: nat, reflect: bool)
    requires d < 256
    ensures Slot(d, reflect) < 256
    ensures Slot(Slot(d, reflect), reflect) == d
    ensures FromNumber(Slot(d, reflect), 8) == if reflect then Reverse(FromNumber(d, 8)) else FromNumber(d, 8)
  {
    var w := if reflect then Reverse(FromNumber(d, 8)) else FromNumber(d, 8);
    ByteIndexBound(w);
    NumberRoundTrip(w);
    assert TwoTo(8) == 256;
    WordRoundTrip(d, 8);
    ReverseTwice(FromNumber(d, 8));
  }
}
