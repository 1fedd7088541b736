/**
 The streaming SHA-256 object: a partial-block buffer, a multi-block transform, padding in place and
 lengths kept in 32-bit unsigned integers.
 */
module Sha256Stream {
  import opened BitWords
  import opened Sha256Spec

  const U32: nat := 0x1_0000_0000

  // The macros of the header.

  function Rotr(x: W32, n: nat): W32
    requires n <= 32
  {
    W32(Or(Shr(Resize(x.bits, 32), n), Shl(Resize(x.bits, 32), 32 - n)))
  }

  function F1(x: W32): W32 {
    Xor3(Rotr(x, 2), Rotr(x, 13), Rotr(x, 22))
  }

  function F2(x: W32): W32 {
    Xor3(Rotr(x, 6), Rotr(x, 11), Rotr(x, 25))
  }

  function F3(x: W32): W32 {
    Xor3(Rotr(x, 7), Rotr(x, 18), Shifted(x, 3))
  }

  function F4(x: W32): W32 {
    Xor3(Rotr(x, 17), Rotr(x, 19), Shifted(x, 10))
  }

  function Pack32(s: Bytes): W32
    requires |s| == 4
  {
    W32(Or(Or(Or(Resize(s[3], 32), Shl(Resize(s[2], 32), 8)), Shl(Resize(s[1], 32), 16)), Shl(Resize(s[0], 32), 24)))
  }

  lemma {:induction false} RotrRotates(x: W32, n: nat)
    requires 0 < n < 32
    ensures Rotr(x, n) == Rotated(x, n)
  {
    var (a, b) := (Rotr(x, n).bits, Rotated(x, n).bits);
    assert |a| == |b| == 32;
    forall i | 0 <= i < 32 ensures a[i] == b[i] {
    }
  }

  lemma {:induction false} MacrosAreTheStandardFunctions(x: W32)
    ensures F1(x) == BigSigma0(x) && F2(x) == BigSigma1(x)
    ensures F3(x) == SmallSigma0(x) && F4(x) == SmallSigma1(x)
  {
    RotrRotates(x, 2);
    RotrRotates(x, 13);
    RotrRotates(x, 22);
    RotrRotates(x, 6);
    RotrRotates(x, 11);
    RotrRotates(x, 25);
    RotrRotates(x, 7);
    RotrRotates(x, 18);
    RotrRotates(x, 17);
    RotrRotates(x, 19);
  }

  lemma {:induction false} PackIsWord(s: Bytes)
    requires |s| == 4
    ensures Pack32(s) == WordOf(s)
  {
    var (a, b) := (Pack32(s).bits, WordOf(s).bits);
    forall i | 0 <= i < 32 ensures a[i] == b[i] {
    }
  }

  class SHA256 {
    var mTotLen: nat
    var mLen: nat
    const mBlock: array<Byte>
    const mH: array<W32>
    ghost var fed: Bytes

    ghost predicate Arrays() {
      mBlock.Length == 128 && mH.Length == 8
    }

    /** The object has taken in `fed`: whole blocks are hashed, the rest waits in the buffer. */
    ghost predicate Valid()
      reads this, mBlock, mH
    {
      && Arrays()
      && mLen < 64 && mLen <= |fed|
      && (|fed| - mLen) % 64 == 0
      && mTotLen == (|fed| - mLen) % U32
      && mBlock[..mLen] == fed[|fed| - mLen..]
      && mH[..] == HashBlocks(fed[..|fed| - mLen])
    }

    constructor ()
      ensures Arrays() && fresh(mBlock) && fresh(mH)
    {
      mBlock := new Byte[128](i => Zero(8));
      mH := new W32[8](i => W(0));
    }

    method Init()
      requires Arrays()
      modifies this, mH
      ensures Valid() && fed == []
    {
      hide InitialHash, HashBlocks, Compress;
      SetInitialHash();
      mLen := 0;
      mTotLen := 0;
      fed := [];
      assert fed[..0] == [];
      NothingHashed();
    }

    method SetInitialHash()
      requires Arrays()
      modifies mH
      ensures mH[..] == InitialHash()
    {
      hide W;
      mH[0] := W(0x6a09e667);
      mH[1] := W(0xbb67ae85);
      mH[2] := W(0x3c6ef372);
      mH[3] := W(0xa54ff53a);
      mH[4] := W(0x510e527f);
      mH[5] := W(0x9b05688c);
      mH[6] := W(0x1f83d9ab);
      mH[7] := W(0x5be0cd19);
    }

    /** The message schedule of one block. */
    method Expand(block: Bytes) returns (w: array<W32>)
      requires |block| == 64
      ensures fresh(w) && w.Length == 64
      ensures forall t :: 0 <= t < 64 ==> w[t] == Schedule(block, t)
    {
      hide Add, F3, F4, SmallSigma0, SmallSigma1, WordOf, Pack32, Schedule, W;
      w := new W32[64](i => W(0));
      LoadWords(block, w);
      for j := 16 to 64
        invariant forall t :: 0 <= t < j ==> w[t] == Schedule(block, t)
      {
        NextWord(block, j);
        w[j] := Add(Add(Add(F4(w[j - 2]), w[j - 7]), F3(w[j - 15])), w[j - 16]);
      }
    }

    lemma {:induction false} NextWord(block: Bytes, j: nat)
      requires |block| == 64 && 16 <= j
      ensures Add(Add(Add(F4(Schedule(block, j - 2)), Schedule(block, j - 7)), F3(Schedule(block, j - 15))),
                  Schedule(block, j - 16)) == Schedule(block, j)
    {
      hide Add, F3, F4, SmallSigma0, SmallSigma1, WordOf;
      MacrosAreTheStandardFunctions(Schedule(block, j - 2));
      MacrosAreTheStandardFunctions(Schedule(block, j - 15));
    }

    method LoadWords(block: Bytes, w: array<W32>)
      requires |block| == 64 && w.Length == 64
      modifies w
      ensures forall t :: 0 <= t < 16 ==> w[t] == Schedule(block, t)
    {
      hide WordOf, Pack32;
      for j := 0 to 16
        invariant forall t :: 0 <= t < j ==> w[t] == Schedule(block, t)
      {
        PackIsWord(block[4 * j..4 * j + 4]);
        w[j] := Pack32(block[4 * j..4 * j + 4]);
      }
    }

    /** One round on the eight working variables. */
    method RoundInPlace(wv: array<W32>, k: W32, w: W32, ghost v: Working)
      requires wv.Length == 8 && wv[..] == WordsOf(v)
      modifies wv
      ensures wv[..] == WordsOf(Round(v, k, w))
    {
      hide Add, F1, F2, BigSigma0, BigSigma1, Ch, Maj;
      EightWords(wv, v);
      MacrosAreTheStandardFunctions(v.e);
      MacrosAreTheStandardFunctions(v.a);
      var t1 := Add(Add(Add(Add(wv[7], F2(wv[4])), Ch(wv[4], wv[5], wv[6])), k), w);
      var t2 := Add(F1(wv[0]), Maj(wv[0], wv[1], wv[2]));
      ShiftIn(wv, t1, t2);
    }

    lemma {:induction false} EightWords(wv: array<W32>, v: Working)
      requires wv.Length == 8 && wv[..] == WordsOf(v)
      ensures wv[0] == v.a && wv[1] == v.b && wv[2] == v.c && wv[3] == v.d
      ensures wv[4] == v.e && wv[5] == v.f && wv[6] == v.g && wv[7] == v.h
    {
      assert forall i :: 0 <= i < 8 ==> wv[i] == wv[..][i];
    }

    method ShiftIn(wv: array<W32>, t1: W32, t2: W32)
      requires wv.Length == 8
      modifies wv
      ensures wv[..] == old([Add(t1, t2), wv[0], wv[1], wv[2], Add(wv[3], t1), wv[4], wv[5], wv[6]])
    {
      hide Add;
      wv[7] := wv[6];
      wv[6] := wv[5];
      wv[5] := wv[4];
      wv[4] := Add(wv[3], t1);
      wv[3] := wv[2];
      wv[2] := wv[1];
      wv[1] := wv[0];
      wv[0] := Add(t1, t2);
    }

    method TransformBlock(block: Bytes)
      requires Arrays() && |block| == 64
      modifies mH
      ensures mH[..] == Compress(old(mH[..]), block)
    {
      hide Add, AddWords, Round, Schedule, W;
      ghost var h := mH[..];
      var w := Expand(block);
      var wv := new W32[8](i requires 0 <= i < 8 && Arrays() reads mH => mH[i]);
      assert wv[..] == WordsOf(WorkingOf(h));
      for j := 0 to 64
        invariant mH[..] == h
        invariant wv[..] == WordsOf(Rounds(h, block, j))
        invariant forall t :: 0 <= t < 64 ==> w[t] == Schedule(block, t)
      {
        RoundInPlace(wv, W(K[j]), w[j], Rounds(h, block, j));
      }
      AddInto(wv);
    }

    method AddInto(wv: array<W32>)
      requires Arrays() && wv.Length == 8 && wv != mH
      modifies mH
      ensures mH[..] == AddWords(old(mH[..]), wv[..])
    {
      hide Add;
      ghost var (h, v) := (mH[..], wv[..]);
      for j := 0 to 8
        invariant wv[..] == v
        invariant forall i :: 0 <= i < j ==> mH[i] == Add(h[i], v[i])
        invariant forall i :: j <= i < 8 ==> mH[i] == h[i]
      {
        mH[j] := Add(mH[j], wv[j]);
      }
      assert mH[..] == AddWords(h, v);
    }

    method Transform(message: Bytes, blockNb: nat)
      requires Arrays() && 64 * blockNb <= |message|
      modifies mH
      ensures mH[..] == Chain(Compress, old(mH[..]), message[..64 * blockNb])
    {
      hide Compress;
      ghost var h := mH[..];
      for i := 0 to blockNb
        invariant mH[..] == Chain(Compress, h, message[..64 * i])
      {
        var subBlock := message[64 * i..64 * i + 64];
        TransformBlock(subBlock);
        ChainOneMore(Compress, h, message, i);
      }
    }

    method CopyIn(offset: nat, bytes: Bytes)
      requires Arrays() && offset + |bytes| <= 128
      modifies mBlock
      ensures mBlock[..offset + |bytes|] == old(mBlock[..offset]) + bytes
      ensures mBlock[offset + |bytes|..] == old(mBlock[offset + |bytes|..])
    {
      forall i | 0 <= i < |bytes| {
        mBlock[offset + i] := bytes[i];
      }
    }

    /**
     Takes in one more piece of the message. Lengths below 2^31 are what the int block offset of
     transform allows; the total may be anything, for m_tot_len is only kept modulo 2^32.
     */
    method Update(message: Bytes)
      requires Valid() && |message| < 0x8000_0000
      modifies this, mBlock, mH
      ensures Valid() && fed == old(fed) + message
    {
      hide HashBlocks;
      ghost var before := fed;
      ghost var whole, tail := fed[..|fed| - mLen], fed[|fed| - mLen..];
      var len := |message|;
      var tmpLen := 64 - mLen;
      var remLen := if len < tmpLen then len else tmpLen;
      CopyIn(mLen, message[..remLen]);
      fed := fed + message;
      assert (mLen + len) % U32 == mLen + len;
      if (mLen + len) % U32 < 64 {
        assert message[..remLen] == message;
        AfterBuffering(before, mLen, message);
        mLen := (mLen + len) % U32;
        return;
      }
      TakeBlocks(before, message, remLen);
    }

    /** The two calls of transform: on the full buffer, then on the whole blocks of the message. */
    method HashBufferAnd(shifted: Bytes, blockNb: nat)
      requires Arrays() && 64 * blockNb <= |shifted|
      modifies mH
      ensures mH[..] == Chain(Compress, Chain(Compress, old(mH[..]), mBlock[..64]), shifted[..64 * blockNb])
    {
      hide Chain, Compress;
      assert mBlock[..][..64 * 1] == mBlock[..64];
      Transform(mBlock[..], 1);
      Transform(shifted, blockNb);
    }

    /** The rest of update, once the buffer is full: hash it and the whole blocks, keep what is left. */
    method TakeBlocks(ghost before: Bytes, message: Bytes, remLen: nat)
      requires Arrays() && mLen < 64 && mLen <= |before| && fed == before + message
      requires (|before| - mLen) % 64 == 0 && mTotLen == (|before| - mLen) % U32
      requires remLen == 64 - mLen <= |message|
      requires mBlock[..64] == before[|before| - mLen..] + message[..remLen]
      requires mH[..] == HashBlocks(before[..|before| - mLen])
      modifies this, mBlock, mH
      ensures Valid() && fed == old(fed)
    {
      hide HashBlocks, Chain, Compress;
      var newLen := |message| - remLen;
      var blockNb := newLen / 64;
      var rest := newLen % 64;
      var shifted := message[remLen..];
      Lengths(|before|, mLen, |message|);
      AfterBlocks(before, mLen, message, 64 * blockNb);
      HashedSoFar(before, mLen, message, 64 * blockNb);
      HashBufferAnd(shifted, blockNb);
      KeepRest(shifted[64 * blockNb..64 * blockNb + rest], (mTotLen + (blockNb + 1) * 64) % U32);
    }

    /** The bytes behind the last whole block wait at the front of the buffer. */
    method KeepRest(rest: Bytes, total: nat)
      requires Arrays() && |rest| < 64 && |rest| <= |fed| && fed[|fed| - |rest|..] == rest
      requires (|fed| - |rest|) % 64 == 0 && total == (|fed| - |rest|) % U32
      requires mH[..] == HashBlocks(fed[..|fed| - |rest|])
      modifies this, mBlock
      ensures Valid() && fed == old(fed)
    {
      hide HashBlocks;
      CopyIn(0, rest);
      mLen := |rest|;
      mTotLen := total;
    }

    /** The padding written behind the waiting bytes; returns the number of blocks it fills. */
    method PadBuffer() returns (blockNb: nat)
      requires Valid()
      modifies mBlock
      ensures blockNb == if 55 < mLen then 2 else 1
      ensures mBlock[..64 * blockNb] == fed[|fed| - mLen..] + [ONE_BIT] + ZeroBytes(64 * blockNb - 5 - mLen)
                                      + BytesOfWord(W(8 * |fed| % U32))
    {
      hide HashBlocks, BytesOfWord, ZeroBytes, W;
      blockNb := 1 + if 55 < mLen % 64 then 1 else 0;
      var lenB := (mTotLen + mLen) % U32 * 8 % U32;
      var pmLen := blockNb * 64;
      LengthField(|fed|, mLen, mTotLen);
      MarkAndClear(pmLen);
      CopyIn(pmLen - 4, BytesOfWord(W(lenB)));
    }

    /** Zero bytes up to pmLen, then the mark on the first of them. */
    method MarkAndClear(pmLen: nat)
      requires Arrays() && mLen + 5 <= pmLen <= 128
      modifies mBlock
      ensures mBlock[..pmLen - 4] == old(mBlock[..mLen]) + [ONE_BIT] + ZeroBytes(pmLen - 5 - mLen)
    {
      hide ZeroBytes;
      ghost var waiting := mBlock[..mLen];
      CopyIn(mLen, ZeroBytes(pmLen - mLen));
      ghost var cleared := mBlock[..pmLen];
      assert cleared == waiting + ZeroBytes(pmLen - mLen);
      mBlock[mLen] := ONE_BIT;
      assert mBlock[..pmLen] == cleared[mLen := ONE_BIT];
      Mark(waiting, pmLen - mLen);
      assert mBlock[..pmLen - 4] == cleared[mLen := ONE_BIT][..pmLen - 4];
    }

    /**
     Pads in place, hashes the last one or two blocks and writes the digest. The length field is a
     32-bit unsigned integer, so it is the bit length modulo 2^32.
     */
    method Final(digest: array<Byte>)
      requires Valid() && digest.Length >= 32 && digest != mBlock
      modifies this, mBlock, mH, digest
      ensures digest[..32] == DigestBytes(HashBlocks(PaddedInPlace(old(fed))))
      ensures |old(fed)| < 0x2000_0000 ==> digest[..32] == Digest(old(fed))
    {
      hide Chain, InitialHash, Compress, BytesOfWord, PaddedInPlace;
      ghost var message, waiting := fed, mLen;
      var blockNb := PadBuffer();
      ghost var buffer := mBlock[..64 * blockNb];
      PadTail(message, waiting, buffer);
      assert mBlock[..][..64 * blockNb] == buffer;
      Transform(mBlock[..], blockNb);
      ChainAppend(Compress, InitialHash(), message[..|message| - waiting], buffer);
      if |message| < 0x2000_0000 {
        PaddingIsStandard(message);
      }
      WriteDigest(digest);
      assert mH[..8] == mH[..];
    }

    method WriteDigest(digest: array<Byte>)
      requires Arrays() && digest.Length >= 32
      modifies digest
      ensures digest[..32] == DigestBytes(mH[..])
    {
      hide BytesOfWord;
      ghost var h := mH[..];
      for i := 0 to 8
        invariant mH[..] == h
        invariant digest[..4 * i] == DigestBytes(h[..i])
      {
        var bytes := BytesOfWord(mH[i]);
        ghost var before := digest[..4 * i];
        forall k | 0 <= k < 4 {
          digest[4 * i + k] := bytes[k];
        }
        assert digest[..4 * i] == before;
        assert digest[..4 * i + 4] == before + bytes;
        assert h[..i + 1][..i] == h[..i];
      }
      assert h[..8] == h;
    }
  }

  /** The padded message as `final` builds it. */
  function PaddedInPlace(message: Bytes): (p: Bytes)
    ensures |p| % 64 == 0
  {
    message + [ONE_BIT] + ZeroBytes(PadZeros(|message|)) + LengthBytes(8 * |message| % U32)
  }

  lemma {:induction false} LengthField(total: nat, waiting: nat, totLen: nat)
    requires waiting <= total && totLen == (total - waiting) % U32
    ensures (totLen + waiting) % U32 * 8 % U32 == 8 * total % U32
  {
    TotalModulo(total - waiting, waiting);
    assert total % U32 * 8 == 8 * total - U32 * (8 * (total / U32));
    MultipleDrops(8 * total, 8 * (total / U32));
  }

  lemma {:induction false} MultipleDrops(x: nat, k: nat)
    requires U32 * k <= x
    ensures (x - U32 * k) % U32 == x % U32
  {
  }

  /** The padded buffer is what follows the hashed blocks in the padded message. */
  lemma {:induction false} PadTail(message: Bytes, waiting: nat, buffer: Bytes)
    requires waiting < 64 && waiting <= |message| && (|message| - waiting) % 64 == 0
    requires |buffer| == if 55 < waiting then 128 else 64
    requires buffer == message[|message| - waiting..] + [ONE_BIT] + ZeroBytes(|buffer| - 5 - waiting)
                     + BytesOfWord(W(8 * |message| % U32))
    ensures message[..|message| - waiting] + buffer == PaddedInPlace(message)
  {
    hide BytesOfWord, LengthBytes, W, ZeroBytes, PadZeros;
    var n := PadZeros(|message|);
    PadCount(|message|, waiting);
    ShortLength(8 * |message| % U32);
    ZerosSplit(n, 4);
    Regroup(message, |message| - waiting, [ONE_BIT], ZeroBytes(n), ZeroBytes(4), BytesOfWord(W(8 * |message| % U32)));
  }

  lemma {:induction false} PadCount(length: nat, waiting: nat)
    requires waiting < 64 && waiting <= length && (length - waiting) % 64 == 0
    ensures PadZeros(length) == (if 55 < waiting then 128 else 64) - 9 - waiting
  {
  }

  lemma {:induction false} Regroup(message: Bytes, cut: nat, a: Bytes, b: Bytes, c: Bytes, d: Bytes)
    requires cut <= |message|
    ensures message[..cut] + (message[cut..] + a + (b + c) + d) == message + a + b + (c + d)
  {
  }

  lemma {:induction false} Mark(head: Bytes, k: nat)
    requires k >= 5
    ensures (head + ZeroBytes(k))[|head| := ONE_BIT][..|head| + k - 4] == head + [ONE_BIT] + ZeroBytes(k - 5)
  {
  }

  lemma {:induction false} ZerosSplit(a: nat, b: nat)
    ensures ZeroBytes(a + b) == ZeroBytes(a) + ZeroBytes(b)
  {
  }

  /** A length below 2^32 has four zero bytes and then its 32-bit word. */
  lemma {:induction false} ShortLength(n: nat)
    requires n < U32
    ensures LengthBytes(n) == ZeroBytes(4) + BytesOfWord(W(n))
  {
    hide BytesOfWord, FromNumber;
    assert n < TwoTo(32) by {
      WordValues();
    }
    LowBits(n, 32, 32);
    HighBitsZero(n, 32, 32);
    var w := FromNumber(n, 64);
    assert w[0..32] == FromNumber(n, 32) && w[32..64] == Zero(32);
    ZeroWord();
  }

  lemma {:induction false} ZeroWord()
    ensures BytesOfWord(W32(Zero(32))) == ZeroBytes(4)
  {
    forall k | 0 <= k < 4 ensures BytesOfWord(W32(Zero(32)))[k] == Zero(8) {
    }
  }

  lemma {:induction false} WordValues()
    ensures TwoTo(32) == U32 && TwoTo(64) == U32 * U32
  {
    assert TwoTo(8) == 256;
    TwoToSum(8, 8);
    TwoToSum(16, 16);
    TwoToSum(32, 32);
  }

  lemma {:induction false} WordOfBytes(w: W32)
    requires |w.bits| == 32
    ensures WordOf(BytesOfWord(w)) == w
  {
    var s := BytesOfWord(w);
    forall i | 0 <= i < 32 ensures s[3 - i / 8][i % 8] == w.bits[i] {
    }
  }

  lemma {:induction false} NothingHashed()
    ensures HashBlocks([]) == InitialHash()
  {
    hide Compress, InitialHash;
    ChainNothing(Compress, InitialHash());
  }

  /** 64-bit lengths can be read back from their bytes. */
  lemma {:induction false} LengthBytesInjective(a: nat, b: nat)
    requires a < U32 * U32 && b < U32 * U32 && LengthBytes(a) == LengthBytes(b)
    ensures a == b
  {
    hide LengthBytes;
    var v, w := FromNumber(a, 64), FromNumber(b, 64);
    HalvesInjective(a, b);
    WordValues();
    WordRoundTrip(a, 64);
    WordRoundTrip(b, 64);
  }

  lemma {:induction false} HalvesInjective(a: nat, b: nat)
    requires LengthBytes(a) == LengthBytes(b)
    ensures FromNumber(a, 64) == FromNumber(b, 64)
  {
    hide BytesOfWord, WordOf, FromNumber;
    var v, w := FromNumber(a, 64), FromNumber(b, 64);
    SameHalves(BytesOfWord(W32(v[32..64])), BytesOfWord(W32(v[0..32])),
               BytesOfWord(W32(w[32..64])), BytesOfWord(W32(w[0..32])));
    WordOfBytes(W32(v[32..64]));
    WordOfBytes(W32(w[32..64]));
    WordOfBytes(W32(v[0..32]));
    WordOfBytes(W32(w[0..32]));
    assert v == v[0..32] + v[32..64] && w == w[0..32] + w[32..64];
  }

  lemma {:induction false} SameHalves(a: Bytes, b: Bytes, c: Bytes, d: Bytes)
    requires |a| == |c| && a + b == c + d
    ensures a == c && b == d
  {
    assert a == (a + b)[..|a|] && c == (c + d)[..|a|];
    assert b == (a + b)[|a|..] && d == (c + d)[|a|..];
  }

  lemma {:induction false} LowBits(n: nat, k: nat, j: nat)
    ensures FromNumber(n, k + j)[..k] == FromNumber(n, k)
  {
    if k > 0 {
      LowBits(n / 2, k - 1, j);
    }
  }

  lemma {:induction false} HighBitsZero(n: nat, k: nat, j: nat)
    requires n < TwoTo(k)
    ensures FromNumber(n, k + j)[k..] == Zero(j)
  {
    if k > 0 {
      HighBitsZero(n / 2, k - 1, j);
    } else {
      ZeroNumber(j);
    }
  }

  lemma {:induction false} ZeroNumber(j: nat)
    ensures FromNumber(0, j) == Zero(j)
  {
    if j > 0 {
      ZeroNumber(j - 1);
    }
  }

  /** The in-place padding is the standard's exactly for messages below 2^29 bytes. */
  lemma {:induction false} PaddingIsStandard(message: Bytes)
    requires 8 * |message| < U32 * U32
    ensures PaddedInPlace(message) == Padded(message) <==> |message| < 0x2000_0000
  {
    hide LengthBytes;
    var n := 8 * |message|;
    if PaddedInPlace(message) == Padded(message) {
      assert LengthBytes(n % U32) == PaddedInPlace(message)[|Padded(message)| - 8..];
      assert LengthBytes(n) == Padded(message)[|Padded(message)| - 8..];
      LengthBytesInjective(n % U32, n);
    }
  }

  lemma {:induction false} Lengths(b: nat, waiting: nat, m: nat)
    requires waiting < 64 && waiting <= b && (b - waiting) % 64 == 0 && 64 - waiting <= m
    ensures var newLen := m - (64 - waiting);
            var (n, rest) := (newLen / 64, newLen % 64);
            && 64 * n + rest == newLen
            && (b + m - rest) % 64 == 0
            && ((b - waiting) % U32 + (n + 1) * 64) % U32 == (b + m - rest) % U32
  {
    var newLen := m - (64 - waiting);
    var n, p := newLen / 64, (b - waiting) / 64;
    assert b - waiting == 64 * p && newLen == 64 * n + newLen % 64;
    assert b + m - newLen % 64 == 64 * (p + n + 1);
    WholeBlocks(p + n + 1);
    TotalModulo(64 * p, 64 * (n + 1));
  }

  lemma {:induction false} WholeBlocks(k: nat)
    ensures (64 * k) % 64 == 0
  {
  }

  /** What the buffer and the hashed part must be when the new piece does not fill a block. */
  lemma {:induction false} AfterBuffering(fed: Bytes, waiting: nat, message: Bytes)
    requires waiting <= |fed|
    ensures var all, n := fed + message, |fed| - waiting;
            all[..n] == fed[..n] && all[n..] == fed[n..] + message
  {
  }

  /** What they must be when it fills one and n more bytes make whole blocks. */
  lemma {:induction false} AfterBlocks(fed: Bytes, waiting: nat, message: Bytes, n: nat)
    requires waiting <= |fed| && waiting < 64 && 64 - waiting + n <= |message|
    ensures var all, k, cut := fed + message, 64 - waiting, |fed| - waiting;
            all[..cut + 64 + n] == fed[..cut] + (fed[cut..] + message[..k]) + message[k..][..n] &&
            all[cut + 64 + n..] == message[k..][n..]
  {
  }

  /** The two calls of transform leave the hash of all whole blocks. */
  lemma {:induction false} HashedSoFar(fed: Bytes, waiting: nat, message: Bytes, n: nat)
    requires waiting <= |fed| && waiting < 64 && 64 - waiting + n <= |message| && n % 64 == 0
    ensures var (all, k, cut) := (fed + message, 64 - waiting, |fed| - waiting);
            Chain(Compress, Chain(Compress, HashBlocks(fed[..cut]), fed[cut..] + message[..k]), message[k..][..n])
            == HashBlocks(all[..cut + 64 + n])
  {
    hide Chain, Compress, InitialHash;
    var k, cut := 64 - waiting, |fed| - waiting;
    AfterBlocks(fed, waiting, message, n);
    ChainThreeParts(Compress, InitialHash(), fed[..cut], fed[cut..] + message[..k], message[k..][..n]);
  }

  lemma {:induction false} TotalModulo(a: nat, b: nat)
    ensures (a % U32 + b) % U32 == (a + b) % U32
  {
  }

  // ---------- the one-shot function ----------

  const HEX_DIGITS: string := "0123456789abcdef"

  /** Two lower-case hexadecimal digits a byte. */
  function HexText(bytes: Bytes): (s: string)
    ensures |s| == 2 * |bytes|
  {
    if bytes == [] then "" else HexText(bytes[..|bytes| - 1]) + HexByte(bytes[|bytes| - 1])
  }

  function HexByte(b: Byte): (s: string)
    ensures |s| == 2
  {
    ByteIndexBound(b);
    [HEX_DIGITS[ToNumber(b) / 16], HEX_DIGITS[ToNumber(b) % 16]]
  }

  /** sha256(): the hexadecimal digest of a string, the standard's one below 2^29 bytes. */
  method Sha256Hex(input: Bytes) returns (text: string)
    requires |input| < 0x8000_0000
    ensures text == HexText(DigestBytes(HashBlocks(PaddedInPlace(input))))
    ensures |input| < 0x2000_0000 ==> text == HexText(Digest(input))
  {
    hide Digest, DigestBytes, HashBlocks, PaddedInPlace, HexByte;
    var digest := DigestOf(input);
    text := "";
    for i := 0 to 32
      invariant text == HexText(digest[..i])
    {
      text := text + HexByte(digest[i]);
      assert digest[..i + 1][..i] == digest[..i];
    }
    assert digest[..32] == digest;
  }

  method DigestOf(input: Bytes) returns (digest: Bytes)
    requires |input| < 0x8000_0000
    ensures |digest| == 32 && digest == DigestBytes(HashBlocks(PaddedInPlace(input)))
    ensures |input| < 0x2000_0000 ==> digest == Digest(input)
  {
    hide HashBlocks, PaddedInPlace, Digest;
    var out := new Byte[32](i => Zero(8));
    var ctx := new SHA256();
    ctx.Init();
    ctx.Update(input);
    assert [] + input == input;
    ctx.Final(out);
    digest := out[..32];
  }

  function Concat(pieces: seq<Bytes>): Bytes
  {
    if pieces == [] then [] else Concat(pieces[..|pieces| - 1]) + pieces[|pieces| - 1]
  }

  /** A message fed in any number of pieces, cut anywhere, gives the digest of the whole message. */
  method HashPieces(pieces: seq<Bytes>) returns (digest: Bytes)
    requires forall i :: 0 <= i < |pieces| ==> |pieces[i]| < 0x8000_0000
    ensures digest == DigestBytes(HashBlocks(PaddedInPlace(Concat(pieces))))
    ensures |Concat(pieces)| < 0x2000_0000 ==> digest == Digest(Concat(pieces))
  {
    hide HashBlocks, PaddedInPlace, Digest;
    var ctx := new SHA256();
    ctx.Init();
    for i := 0 to |pieces|
      invariant fresh(ctx) && fresh(ctx.mBlock) && fresh(ctx.mH)
      invariant ctx.Valid() && ctx.fed == Concat(pieces[..i])
    {
      ctx.Update(pieces[i]);
      assert pieces[..i + 1][..i] == pieces[..i];
    }
    assert pieces[..|pieces|] == pieces;
    var out := new Byte[32](i => Zero(8));
    ctx.Final(out);
    digest := out[..32];
  }

  /** Different digests have different texts. */
  lemma {:induction false} HexIsInjective(a: Bytes, b: Bytes)
    requires |a| == |b| && HexText(a) == HexText(b)
    ensures a == b
    decreases |a|
  {
    hide HexByte;
    if a != [] {
      var a', x := a[..|a| - 1], a[|a| - 1];
      var b', y := b[..|b| - 1], b[|b| - 1];
      SplitEnds(HexText(a'), HexByte(x), HexText(b'), HexByte(y));
      HexIsInjective(a', b');
      HexByteIsFaithful(x, y);
    }
  }

  lemma {:induction false} SplitEnds(s: string, x: string, t: string, y: string)
    requires |s| == |t| && s + x == t + y
    ensures s == t && x == y
  {
    assert (s + x)[..|s|] == s && (t + y)[..|t|] == t;
    assert (s + x)[|s|..] == x && (t + y)[|t|..] == y;
  }

  lemma {:induction false} HexHasNoLineEnd(a: Bytes)
    ensures '\n' !in HexText(a)
  {
    hide HexByte;
    if a != [] {
      HexHasNoLineEnd(a[..|a| - 1]);
      HexByteIsFaithful(a[|a| - 1], a[|a| - 1]);
    }
  }

  lemma {:induction false} HexByteIsFaithful(x: Byte, y: Byte)
    ensures '\n' !in HexByte(x)
    ensures HexByte(x) == HexByte(y) ==> x == y
  {
    var m, n := ToNumber(x), ToNumber(y);
    ByteIndexBound(x);
    ByteIndexBound(y);
    HexDigitsDiffer(m / 16, n / 16);
    HexDigitsDiffer(m % 16, n % 16);
    NumberRoundTrip(x);
    NumberRoundTrip(y);
    if HexByte(x) == HexByte(y) {
      assert HexByte(x)[0] == HexByte(y)[0] && HexByte(x)[1] == HexByte(y)[1];
      assert m == 16 * (m / 16) + m % 16 && n == 16 * (n / 16) + n % 16;
    }
  }

  lemma {:induction false} HexDigitsDiffer(i: nat, j: nat)
    requires i < 16 && j < 16
    ensures HEX_DIGITS[i] == HEX_DIGITS[j] ==> i == j
    ensures HEX_DIGITS[i] != '\n'
  {
  }
}
