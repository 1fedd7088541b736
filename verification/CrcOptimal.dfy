/**
 The table-driven engines: crc_optimal and augmented_crc, their agreement with the bit-by-bit
 engine, and what the augmented form says about messages and their checksums.
 */
module CrcOptimalEngine {
  import opened BitWords
  import opened CrcSpec
  import opened CrcEngines

  // ---------- crc_helper ----------

  /** The top byte of the register; a narrower register is aligned with the top of the byte. */
  function AlignMsb(rem: Word, bits: nat): (b: Byte)
    requires 1 <= bits <= |rem|
  {
    if bits > 8 then Resize(Shr(rem, bits - 8), 8) else Shl(Resize(rem, 8), 8 - bits)
  }

  function Index(rem: Word, bits: nat, reflect: bool, x: Byte): (b: Byte)
    requires 1 <= bits <= |rem|
  {
    Xor(x, if reflect then Resize(rem, 8) else AlignMsb(rem, bits))
  }

  function ShiftOut(rem: Word, reflect: bool): (w: Word)
    ensures |w| == |rem|
  {
    if reflect then Shr(rem, 8) else Shl(rem, 8)
  }

  /** The register an engine stores, seen unreflected. */
  function Unreflected(rem: Word, bits: nat, reflect: bool): (r: Word)
    requires bits <= |rem|
    ensures |r| == bits
  {
    if reflect then Reverse(rem[..bits]) else rem[..bits]
  }

  /** A reflected register must have nothing above its bits, for they would be shifted in. */
  ghost predicate CleanAbove(rem: Word, bits: nat, reflect: bool)
    requires bits <= |rem|
  {
    reflect ==> forall i :: bits <= i < |rem| ==> !rem[i]
  }

  lemma {:induction false} IndexIsDividend(rem: Word, bits: nat, reflect: bool, x: Byte)
    requires 1 <= bits <= |rem| && CleanAbove(rem, bits, reflect)
    ensures DividendBits(ToNumber(Index(rem, bits, reflect, x)), reflect)
         == Xor(ByteBits(x, reflect), TopBits(Unreflected(rem, bits, reflect), 8))
  {
    var index := Index(rem, bits, reflect, x);
    NumberRoundTrip(index);
    TopByte(rem, bits, reflect);
    XorOfReversed(x, if reflect then Resize(rem, 8) else AlignMsb(rem, bits));
  }

  lemma {:induction false} TopByte(rem: Word, bits: nat, reflect: bool)
    requires 1 <= bits <= |rem| && CleanAbove(rem, bits, reflect)
    ensures TopBits(Unreflected(rem, bits, reflect), 8)
         == if reflect then Resize(rem, 8) else Reverse(AlignMsb(rem, bits))
  {
    hide Resize, Reverse, Shl, Shr, Zero;
  }

  lemma {:induction false} XorOfReversed(a: Word, b: Word)
    requires |a| == |b|
    ensures Reverse(Xor(a, b)) == Xor(Reverse(a), Reverse(b))
  {
  }

  /** Shift and table entry, in either storage order, are shift and remainder of the register. */
  lemma {:induction false} ShiftAndEntry(rem: Word, bits: nat, reflect: bool, entry: Word, r: Word)
    requires 1 <= bits == |r| <= |rem| == |entry| && CleanAbove(rem, bits, reflect)
    requires if reflect then entry == Resize(Reverse(r), |rem|) else entry[..bits] == r
    ensures var next := Xor(ShiftOut(rem, reflect), entry);
            CleanAbove(next, bits, reflect) &&
            Unreflected(next, bits, reflect) == Xor(Shl(Unreflected(rem, bits, reflect), 8), r)
  {
    hide Resize, Reverse, Shl, Shr, Xor;
  }

  /** One table step does what eight bit steps do. */
  lemma {:induction false} TableStep(rem: Word, bits: nat, reflect: bool, entry: Word, x: Byte, poly: Word)
    requires 1 <= bits == |poly| <= |rem| && CleanAbove(rem, bits, reflect)
    requires GoodEntry(entry, ToNumber(Index(rem, bits, reflect, x)), |rem|, poly, reflect)
    ensures var next := Xor(ShiftOut(rem, reflect), entry);
            CleanAbove(next, bits, reflect) &&
            Unreflected(next, bits, reflect) == Steps(Unreflected(rem, bits, reflect), ByteBits(x, reflect), poly)
  {
    var r := Unreflected(rem, bits, reflect);
    var dividend := DividendBits(ToNumber(Index(rem, bits, reflect, x)), reflect);
    IndexIsDividend(rem, bits, reflect, x);
    ShiftAndEntry(rem, bits, reflect, entry, Steps(Zero(bits), dividend, poly));
    ManyBitsAtOnce(r, ByteBits(x, reflect), poly);
  }

  // ---------- crc_optimal ----------

  class CrcOptimal {
    const table: CrcTable
    const finalXor: Word
    const reflectRem: bool
    var rem: Word

    ghost predicate Valid()
      reads this, table, table.table
    {
      && table.Valid() && table.didInit
      && |rem| == |finalXor| == |table.truncPoly|
      && CleanAbove(rem, table.bits, table.reflect)
    }

    /** The register proper, unreflected. */
    ghost function Register(): (r: Word)
      reads this, table, table.table
      requires Valid()
      ensures |r| == table.bits
    {
      Unreflected(rem, table.bits, table.reflect)
    }

    constructor (table: CrcTable, initRem: Word, finalXor: Word, reflectRem: bool)
      requires table.Valid() && |initRem| == |finalXor| == |table.truncPoly|
      modifies table.table, table`didInit
      ensures Valid() && this.table == table && this.finalXor == finalXor && this.reflectRem == reflectRem
      ensures Register() == initRem[..table.bits]
    {
      this.table := table;
      this.finalXor := finalXor;
      this.reflectRem := reflectRem;
      var r := initRem;
      if table.reflect {
        r := Reflect(initRem, table.bits);
        assert Reverse(r[..table.bits]) == initRem[..table.bits];
      }
      rem := r;
      new;
      table.InitTable();
    }

    method Reset(newRem: Word)
      requires Valid() && |newRem| == |rem|
      modifies this`rem
      ensures Valid() && Register() == newRem[..table.bits]
    {
      rem := newRem;
      if table.reflect {
        rem := Reflect(newRem, table.bits);
        assert Reverse(rem[..table.bits]) == newRem[..table.bits];
      }
    }

    /** Index, shift and table entry for one byte. */
    method Absorb(x: Byte)
      requires Valid()
      modifies this`rem
      ensures Valid() && |rem| == old(|rem|)
      ensures Register() == Steps(old(Register()), ByteBits(x, table.reflect), table.truncPoly[..table.bits])
    {
      var byteIndex := Index(rem, table.bits, table.reflect, x);
      ByteIndexBound(byteIndex);
      assert table.GoodAt(ToNumber(byteIndex));
      TableStep(rem, table.bits, table.reflect, table.table[ToNumber(byteIndex)], x, table.truncPoly[..table.bits]);
      rem := ShiftOut(rem, table.reflect);
      rem := Xor(rem, table.table[ToNumber(byteIndex)]);
    }

    method ProcessBlock(block: seq<Byte>)
      requires Valid()
      modifies this`rem
      ensures Valid() && |rem| == old(|rem|)
      ensures Register() == Remainder(old(Register()), block, table.reflect, table.truncPoly[..table.bits])
    {
      ghost var before, poly := Register(), table.truncPoly[..table.bits];
      for i := 0 to |block|
        invariant Valid() && |rem| == old(|rem|)
        invariant Register() == Remainder(before, block[..i], table.reflect, poly)
      {
        Absorb(block[i]);
        RemainderOneMore(before, block, i, table.reflect, poly);
      }
      assert block[..|block|] == block;
    }

    method GetInterimRemainder() returns (r: Word)
      requires Valid()
      ensures r == Resize(Register(), |rem|)
    {
      r := rem;
      if table.reflect {
        r := Reflect(rem, table.bits);
      }
      r := And(r, SignificantBits(|rem|, table.bits));
    }

    /** The output is reflected when exactly one of the two reflections is asked for. */
    method Checksum() returns (c: Word)
      requires Valid()
      ensures c == Resize(ChecksumOf(Register(), reflectRem, finalXor[..table.bits]), |rem|)
    {
      var r := rem;
      if reflectRem != table.reflect {
        r := Reflect(rem, table.bits);
      }
      c := And(Xor(r, finalXor), SignificantBits(|rem|, table.bits));
    }
  }

  /**
   Both engines, built from the same parameters and fed the same blocks, report the same interim
   remainder and the same checksum, whatever the parameters carry above the CRC width and however
   much wider the word of the table-driven engine is.
   */
  method EnginesAgree(bits: nat, poly: Word, initRem: Word, finalXor: Word, reflectIn: bool,
                      reflectRem: bool, fastWidth: nat, blocks: seq<seq<Byte>>)
    returns (basicInterim: Word, optimalInterim: Word, basicSum: Word, optimalSum: Word)
    requires 1 <= bits <= |poly| <= fastWidth && |initRem| == |finalXor| == |poly|
    ensures optimalInterim == Resize(basicInterim, fastWidth)
    ensures optimalSum == Resize(basicSum, fastWidth)
    ensures basicInterim == Resize(Remainder(initRem[..bits], Concat(blocks), reflectIn, poly[..bits]), |poly|)
    ensures basicSum == Resize(ChecksumOf(Remainder(initRem[..bits], Concat(blocks), reflectIn, poly[..bits]),
                                          reflectRem, finalXor[..bits]), |poly|)
  {
    var basic := new CrcBasic(bits, poly, initRem, finalXor, reflectIn, reflectRem);
    var table := new CrcTable(bits, Resize(poly, fastWidth), reflectIn);
    var optimal := new CrcOptimal(table, Resize(initRem, fastWidth), Resize(finalXor, fastWidth), reflectRem);
    ghost var start, p := initRem[..bits], poly[..bits];
    LowBitsKept(poly, bits, fastWidth);
    LowBitsKept(initRem, bits, fastWidth);
    LowBitsKept(finalXor, bits, fastWidth);
    assert Remainder(start, Concat(blocks[..0]), reflectIn, p) == start;
    for i := 0 to |blocks|
      invariant basic.Valid() && optimal.Valid() && |basic.rem| == |poly| && |optimal.rem| == fastWidth
      invariant fresh(basic) && fresh(table) && fresh(table.table) && fresh(optimal)
      invariant basic.poly == poly && basic.finalXor == finalXor
      invariant basic.reflectIn == reflectIn && basic.reflectRem == reflectRem
      invariant basic.Register() == optimal.Register() == Remainder(start, Concat(blocks[..i]), reflectIn, p)
    {
      basic.ProcessBlock(blocks[i]);
      optimal.ProcessBlock(blocks[i]);
      ConcatOneMore(blocks, i);
      RemainderAppend(start, Concat(blocks[..i]), blocks[i], reflectIn, p);
    }
    assert blocks[..|blocks|] == blocks;
    basicInterim := basic.GetInterimRemainder();
    optimalInterim := optimal.GetInterimRemainder();
    basicSum := basic.Checksum();
    optimalSum := optimal.Checksum();
    ResizeTwice(basic.Register(), |poly|, fastWidth);
    ResizeTwice(ChecksumOf(basic.Register(), reflectRem, finalXor[..bits]), |poly|, fastWidth);
  }

  lemma {:induction false} LowBitsKept(w: Word, bits: nat, width: nat)
    requires bits <= |w| <= width
    ensures Resize(w, width)[..bits] == w[..bits]
  {
  }

  lemma {:induction false} ResizeTwice(w: Word, width: nat, wider: nat)
    requires |w| <= width <= wider
    ensures Resize(Resize(w, width), wider) == Resize(w, wider)
  {
  }

  function Concat<T>(blocks: seq<seq<T>>): seq<T>
  {
    if blocks == [] then [] else Concat(blocks[..|blocks| - 1]) + blocks[|blocks| - 1]
  }

  lemma {:induction false} ConcatOneMore<T>(blocks: seq<seq<T>>, i: nat)
    requires i < |blocks|
    ensures Concat(blocks[..i + 1]) == Concat(blocks[..i]) + blocks[i]
  {
    assert blocks[..i + 1][..i] == blocks[..i];
  }

  // ---------- augmented_crc ----------

  function AugmentedRemainder(r: Word, bytes: seq<Byte>, poly: Word): (s: Word)
    requires |r| == |poly| >= 1
    ensures |s| == |r|
  {
    AugSteps(r, MessageBits(bytes, false), poly)
  }

  lemma {:induction false} AugmentedOneMore(r: Word, bytes: seq<Byte>, k: nat, poly: Word)
    requires |r| == |poly| >= 1 && k < |bytes|
    ensures AugmentedRemainder(r, bytes[..k + 1], poly)
         == AugSteps(AugmentedRemainder(r, bytes[..k], poly), Reverse(bytes[k]), poly)
  {
    MessageOneMore(bytes, k, false);
    AugStepsAppend(r, MessageBits(bytes[..k], false), Reverse(bytes[k]), poly);
  }

  function AugmentedIndex(rem: Word, bits: nat): (b: Byte)
    requires 8 <= bits <= |rem|
  {
    Resize(Shr(rem, bits - 8), 8)
  }

  function AugmentedNext(rem: Word, x: Byte, entry: Word): (w: Word)
    requires |rem| == |entry|
    ensures |w| == |rem|
  {
    Xor(Or(Shl(rem, 8), Resize(x, |rem|)), entry)
  }

  lemma {:induction false} AugmentedTableStep(rem: Word, bits: nat, entry: Word, x: Byte, poly: Word)
    requires 8 <= bits == |poly| <= |rem|
    requires GoodEntry(entry, ToNumber(AugmentedIndex(rem, bits)), |rem|, poly, false)
    ensures AugmentedNext(rem, x, entry)[..bits] == AugSteps(rem[..bits], Reverse(x), poly)
  {
    AugmentedDividend(rem, bits);
    ManyAugmentedBits(rem[..bits], Reverse(x), poly);
    ReverseTwice(x);
    AugmentedParts(rem, bits, x, entry);
  }

  lemma {:induction false} AugmentedDividend(rem: Word, bits: nat)
    requires 8 <= bits <= |rem|
    ensures DividendBits(ToNumber(AugmentedIndex(rem, bits)), false) == TopBits(rem[..bits], 8)
  {
    hide ToNumber, FromNumber, Reverse, TopBits, AugmentedIndex;
    NumberRoundTrip(AugmentedIndex(rem, bits));
    TopOfShifted(rem, bits);
  }

  lemma {:induction false} TopOfShifted(rem: Word, bits: nat)
    requires 8 <= bits <= |rem|
    ensures Reverse(AugmentedIndex(rem, bits)) == TopBits(rem[..bits], 8)
  {
  }

  lemma {:induction false} AugmentedParts(rem: Word, bits: nat, x: Byte, entry: Word)
    requires 8 <= bits <= |rem| == |entry|
    ensures AugmentedNext(rem, x, entry)[..bits]
         == Xor(Xor(Shl(rem[..bits], 8), Resize(x, bits)), entry[..bits])
  {
  }

  method AugmentedCrc(table: CrcTable, buffer: seq<Byte>, initialRemainder: Word) returns (c: Word)
    requires table.Valid() && !table.reflect && table.bits >= 8 && |initialRemainder| == |table.truncPoly|
    modifies table.table, table`didInit
    ensures table.Valid() && table.didInit
    ensures c == Resize(AugmentedRemainder(initialRemainder[..table.bits], buffer, table.truncPoly[..table.bits]),
                        |table.truncPoly|)
  {
    var bits := table.bits;
    ghost var start, poly := initialRemainder[..bits], table.truncPoly[..bits];
    var rem := initialRemainder;
    table.InitTable();
    for i := 0 to |buffer|
      invariant table.Valid() && table.didInit
      invariant |rem| == |table.truncPoly|
      invariant rem[..bits] == AugmentedRemainder(start, buffer[..i], poly)
    {
      var byteIndex := AugmentedIndex(rem, bits);
      ByteIndexBound(byteIndex);
      assert table.GoodAt(ToNumber(byteIndex));
      AugmentedTableStep(rem, bits, table.table[ToNumber(byteIndex)], buffer[i], poly);
      AugmentedOneMore(start, buffer, i, poly);
      rem := Shl(rem, 8);
      rem := Or(rem, Resize(buffer[i], |rem|));
      rem := Xor(rem, table.table[ToNumber(byteIndex)]);
    }
    assert buffer[..|buffer|] == buffer;
    c := And(rem, SignificantBits(|rem|, bits));
  }

  const ZERO_BYTE: Byte := Zero(8)

  function ZeroBytes(k: nat): (bytes: seq<Byte>)
    ensures |bytes| == k
  {
    seq(k, i => ZERO_BYTE)
  }

  lemma {:induction false} ZeroBytesAreZeroBits(k: nat)
    ensures MessageBits(ZeroBytes(k), false) == Zero(8 * k)
  {
    if k > 0 {
      ZeroBytesAreZeroBits(k - 1);
      assert ZeroBytes(k)[1..] == ZeroBytes(k - 1);
      assert Reverse(ZERO_BYTE) == Zero(8);
      assert Zero(8) + Zero(8 * (k - 1)) == Zero(8 * k);
    }
  }

  /**
   For a width of k bytes, the augmented CRC of a message and k zero bytes is the plain, unreflected
   CRC of the message, started from what the initial remainder becomes over the zero bytes.
   */
  lemma {:induction false} AugmentedMessageIsPlainCrc(r: Word, bytes: seq<Byte>, k: nat, poly: Word)
    requires |r| == |poly| == 8 * k && k >= 1
    ensures AugmentedRemainder(r, bytes + ZeroBytes(k), poly)
         == Remainder(AugmentedRemainder(r, ZeroBytes(k), poly), bytes, false, poly)
    ensures r == Zero(8 * k) ==> AugmentedRemainder(r, bytes + ZeroBytes(k), poly) == Remainder(r, bytes, false, poly)
  {
    MessageBitsAppend(bytes, ZeroBytes(k), false);
    ZeroBytesAreZeroBits(k);
    AugmentedIsPlain(r, MessageBits(bytes, false), poly);
    ZeroStaysZero(8 * k, 8 * k, poly);
  }

  /** A register as bytes, the highest first. */
  function BigEndianBytes(w: Word): (bytes: seq<Byte>)
    requires |w| % 8 == 0
    ensures |bytes| == |w| / 8
  {
    if w == [] then [] else BigEndianBytes(w[8..]) + [w[..8]]
  }

  lemma {:induction false} BigEndianBits(w: Word)
    requires |w| % 8 == 0
    ensures MessageBits(BigEndianBytes(w), false) == Reverse(w)
    decreases |w|
  {
    if w != [] {
      hide Reverse, MessageBits;
      var high, low := w[8..], w[..8];
      BigEndianBits(high);
      MessageBitsAppend(BigEndianBytes(high), [low], false);
      OneByte(low, false);
      ReverseInParts(w, 8);
    } else {
      NoBits();
    }
  }

  lemma {:induction false} NoBits()
    ensures MessageBits([], false) == Reverse([])
  {
  }

  lemma {:induction false} ReverseInParts(w: Word, k: nat)
    requires k <= |w|
    ensures Reverse(w) == Reverse(w[k..]) + Reverse(w[..k])
  {
  }

  lemma {:induction false} SamePrefix<T>(x: seq<T>, s: seq<T>, y: seq<T>, t: seq<T>)
    requires |x| == |y| && x + s == y + t
    ensures x == y && s == t
  {
    assert x == (x + s)[..|x|] && y == (y + t)[..|x|];
    assert s == (x + s)[|x|..] && t == (y + t)[|x|..];
  }

  lemma {:induction false} ByteBitsInjective(x: Byte, y: Byte, lowFirst: bool)
    requires ByteBits(x, lowFirst) == ByteBits(y, lowFirst)
    ensures x == y
  {
    hide Reverse;
    ReverseTwice(x);
    ReverseTwice(y);
  }

  lemma {:induction false} MessageBitsInjective(a: seq<Byte>, b: seq<Byte>, lowFirst: bool)
    requires |a| == |b| && MessageBits(a, lowFirst) == MessageBits(b, lowFirst)
    ensures a == b
  {
    hide ByteBits;
    if a != [] {
      SamePrefix(ByteBits(a[0], lowFirst), MessageBits(a[1..], lowFirst),
                 ByteBits(b[0], lowFirst), MessageBits(b[1..], lowFirst));
      ByteBitsInjective(a[0], b[0], lowFirst);
      MessageBitsInjective(a[1..], b[1..], lowFirst);
      assert a == [a[0]] + a[1..] && b == [b[0]] + b[1..];
    }
  }

  /**
   The frame check: over a message and k further bytes, the augmented CRC from zero is zero exactly
   when those bytes are the message's own plain CRC, highest byte first.
   */
  lemma {:induction false} FrameCheck(bytes: seq<Byte>, tail: seq<Byte>, k: nat, poly: Word)
    requires |poly| == 8 * k && |tail| == k >= 1
    ensures AugmentedRemainder(Zero(8 * k), bytes + tail, poly) == Zero(8 * k)
       <==> tail == BigEndianBytes(Remainder(Zero(8 * k), bytes, false, poly))
  {
    var zero := Zero(8 * k);
    MessageBitsAppend(bytes, tail, false);
    MessageBitsAppend(bytes, ZeroBytes(k), false);
    ZeroBytesAreZeroBits(k);
    AugmentedMessageIsPlainCrc(zero, bytes, k, poly);
    CheckIsZeroIffRemainder(zero, MessageBits(bytes, false), MessageBits(tail, false), poly);
    TailAsNumber(tail, Remainder(zero, bytes, false, poly));
  }

  lemma {:induction false} TailAsNumber(tail: seq<Byte>, w: Word)
    requires |w| == 8 * |tail|
    ensures Reverse(MessageBits(tail, false)) == w <==> tail == BigEndianBytes(w)
  {
    BigEndianBits(w);
    ReverseTwice(MessageBits(tail, false));
    ReverseTwice(w);
    if Reverse(MessageBits(tail, false)) == w {
      MessageBitsInjective(tail, BigEndianBytes(w), false);
    }
  }
}
