/**
 SHA-256 as FIPS 180-4 states it: the operations of section 2.2.2 and 3.2, the functions of section
 4.1.2, the constants of section 4.2.2, the padding of section 5.1.1, the initial hash value of
 section 5.3.3 and the computation of section 6.2.2.
 */
module Sha256Spec {
  import opened BitWords

  /** A 32-bit word; every operation below yields exactly 32 bits. */
  datatype W32 = W32(bits: Word)

  type Bytes = seq<Byte>

  type Words = seq<W32>

  const K: seq<nat> :=
    [0x428a2f98, 0x71374491, 0xb5c0fbcf, 0xe9b5dba5, 0x3956c25b, 0x59f111f1, 0x923f82a4, 0xab1c5ed5]
    + [0xd807aa98, 0x12835b01, 0x243185be, 0x550c7dc3, 0x72be5d74, 0x80deb1fe, 0x9bdc06a7, 0xc19bf174]
    + [0xe49b69c1, 0xefbe4786, 0x0fc19dc6, 0x240ca1cc, 0x2de92c6f, 0x4a7484aa, 0x5cb0a9dc, 0x76f988da]
    + [0x983e5152, 0xa831c66d, 0xb00327c8, 0xbf597fc7, 0xc6e00bf3, 0xd5a79147, 0x06ca6351, 0x14292967]
    + [0x27b70a85, 0x2e1b2138, 0x4d2c6dfc, 0x53380d13, 0x650a7354, 0x766a0abb, 0x81c2c92e, 0x92722c85]
    + [0xa2bfe8a1, 0xa81a664b, 0xc24b8b70, 0xc76c51a3, 0xd192e819, 0xd6990624, 0xf40e3585, 0x106aa070]
    + [0x19a4c116, 0x1e376c08, 0x2748774c, 0x34b0bcb5, 0x391c0cb3, 0x4ed8aa4a, 0x5b9cca4f, 0x682e6ff3]
    + [0x748f82ee, 0x78a5636f, 0x84c87814, 0x8cc70208, 0x90befffa, 0xa4506ceb, 0xbef9a3f7, 0xc67178f2]

  const H0: seq<nat> := [
    0x6a09e667, 0xbb67ae85, 0x3c6ef372, 0xa54ff53a, 0x510e527f, 0x9b05688c, 0x1f83d9ab, 0x5be0cd19]

  function W(n: nat): W32 {
    W32(FromNumber(n, 32))
  }

  function InitialHash(): (h: Words)
    ensures |h| == 8
  {
    [W(H0[0]), W(H0[1]), W(H0[2]), W(H0[3]), W(H0[4]), W(H0[5]), W(H0[6]), W(H0[7])]
  }

  /** Addition modulo 2^32. */
  function Add(a: W32, b: W32): W32 {
    W(ToNumber(a.bits) + ToNumber(b.bits))
  }

  /** Bit i of a word; zero beyond its end. */
  predicate At(x: W32, i: nat) {
    i < |x.bits| && x.bits[i]
  }

  /** The circular right shift: the n lowest bits move to the top. */
  function Rotated(x: W32, n: nat): W32
    requires n <= 32
  {
    W32(seq(32, i requires 0 <= i < 32 => At(x, (i + n) % 32)))
  }

  function Shifted(x: W32, n: nat): W32
  {
    W32(seq(32, i requires 0 <= i < 32 => At(x, i + n)))
  }

  function Xor3(a: W32, b: W32, c: W32): W32 {
    W32(seq(32, i requires 0 <= i < 32 => (At(a, i) != At(b, i)) != At(c, i)))
  }

  function Ch(x: W32, y: W32, z: W32): W32 {
    W32(seq(32, i requires 0 <= i < 32 => (At(x, i) && At(y, i)) != (!At(x, i) && At(z, i))))
  }

  function Maj(x: W32, y: W32, z: W32): W32 {
    W32(seq(32, i requires 0 <= i < 32 => ((At(x, i) && At(y, i)) != (At(x, i) && At(z, i))) != (At(y, i) && At(z, i))))
  }

  function BigSigma0(x: W32): W32 {
    Xor3(Rotated(x, 2), Rotated(x, 13), Rotated(x, 22))
  }

  function BigSigma1(x: W32): W32 {
    Xor3(Rotated(x, 6), Rotated(x, 11), Rotated(x, 25))
  }

  function SmallSigma0(x: W32): W32 {
    Xor3(Rotated(x, 7), Rotated(x, 18), Shifted(x, 3))
  }

  function SmallSigma1(x: W32): W32 {
    Xor3(Rotated(x, 17), Rotated(x, 19), Shifted(x, 10))
  }

  /** Four bytes as a word, the most significant byte first. */
  function WordOf(s: Bytes): W32
    requires |s| == 4
  {
    W32(seq(32, i requires 0 <= i < 32 => s[3 - i / 8][i % 8]))
  }

  function BytesOfWord(w: W32): (s: Bytes)
    ensures |s| == 4
  {
    seq(4, k requires 0 <= k < 4 => Resize(Shr(w.bits, 8 * (3 - k)), 8))
  }

  /** The message schedule (section 6.2.2, step 1). */
  function Schedule(block: Bytes, t: nat): W32
    requires |block| == 64
  {
    if t < 16 then
      WordOf(block[4 * t..4 * t + 4])
    else
      Add(Add(Add(SmallSigma1(Schedule(block, t - 2)), Schedule(block, t - 7)),
              SmallSigma0(Schedule(block, t - 15))), Schedule(block, t - 16))
  }

  datatype Working = Working(a: W32, b: W32, c: W32, d: W32, e: W32, f: W32, g: W32, h: W32)

  function WorkingOf(h: Words): Working
    requires |h| == 8
  {
    Working(h[0], h[1], h[2], h[3], h[4], h[5], h[6], h[7])
  }

  /** One round (section 6.2.2, step 3). */
  function Round(v: Working, k: W32, w: W32): Working {
    var t1 := Add(Add(Add(Add(v.h, BigSigma1(v.e)), Ch(v.e, v.f, v.g)), k), w);
    var t2 := Add(BigSigma0(v.a), Maj(v.a, v.b, v.c));
    Working(Add(t1, t2), v.a, v.b, v.c, Add(v.d, t1), v.e, v.f, v.g)
  }

  function Rounds(h: Words, block: Bytes, t: nat): Working
    requires |h| == 8 && |block| == 64 && t <= 64
  {
    if t == 0 then WorkingOf(h) else Round(Rounds(h, block, t - 1), W(K[t - 1]), Schedule(block, t - 1))
  }

  function WordsOf(v: Working): (s: Words)
    ensures |s| == 8
  {
    [v.a, v.b, v.c, v.d, v.e, v.f, v.g, v.h]
  }

  function AddWords(h: Words, v: Words): (r: Words)
    requires |h| == |v| == 8
    ensures |r| == 8
  {
    [Add(h[0], v[0]), Add(h[1], v[1]), Add(h[2], v[2]), Add(h[3], v[3]),
     Add(h[4], v[4]), Add(h[5], v[5]), Add(h[6], v[6]), Add(h[7], v[7])]
  }

  /** The intermediate hash value after one block of 64 bytes (section 6.2.2, step 4). */
  function Compress(h: Words, block: Bytes): Words {
    if |h| == 8 && |block| == 64 then AddWords(h, WordsOf(Rounds(h, block, 64))) else h
  }

  /** Block by block over a message of whole blocks. */
  function Chain(f: (Words, Bytes) -> Words, h: Words, message: Bytes): Words
    decreases |message|
  {
    if |message| < 64 then h
    else
      var k := |message| - 64;
      f(Chain(f, h, message[..k]), message[k..])
  }

  /** The hash value after a message of whole blocks, from the initial one. */
  function HashBlocks(message: Bytes): Words
  {
    Chain(Compress, InitialHash(), message)
  }

  /** The byte with only its highest bit set: the one bit that starts the padding. */
  const ONE_BIT: Byte := OneBit(8, 7)

  function ZeroBytes(k: nat): (s: Bytes)
    ensures |s| == k
  {
    seq(k, i => Zero(8))
  }

  /** A 64-bit number as eight bytes, the most significant first. */
  function LengthBytes(n: nat): (s: Bytes)
    ensures |s| == 8
  {
    var w := FromNumber(n, 64);
    BytesOfWord(W32(w[32..64])) + BytesOfWord(W32(w[0..32]))
  }

  /** The smallest number of zero bytes that makes the padded length a multiple of 64 bytes. */
  function PadZeros(length: nat): (k: nat)
    ensures k < 64 && (length + 1 + k + 8) % 64 == 0
  {
    (119 - length % 64) % 64
  }

  /** The padded message (section 5.1.1). */
  function Padded(message: Bytes): (p: Bytes)
    ensures |p| % 64 == 0
  {
    message + [ONE_BIT] + ZeroBytes(PadZeros(|message|)) + LengthBytes(8 * |message|)
  }

  function DigestBytes(h: Words): (s: Bytes)
    ensures |s| == 4 * |h|
  {
    if h == [] then [] else DigestBytes(h[..|h| - 1]) + BytesOfWord(h[|h| - 1])
  }

  function Digest(message: Bytes): Bytes {
    DigestBytes(HashBlocks(Padded(message)))
  }

  lemma {:induction false} ChainAppend(f: (Words, Bytes) -> Words, h: Words, a: Bytes, b: Bytes)
    requires |b| % 64 == 0
    ensures Chain(f, h, a + b) == Chain(f, Chain(f, h, a), b)
    decreases |b|
  {
    if b == [] {
      assert a + b == a;
    } else {
      var k := |b| - 64;
      ChainAppend(f, h, a, b[..k]);
      assert (a + b)[..|a + b| - 64] == a + b[..k];
      assert (a + b)[|a + b| - 64..] == b[k..];
    }
  }

  lemma {:induction false} ChainOneMore(f: (Words, Bytes) -> Words, h: Words, message: Bytes, i: nat)
    requires 64 * i + 64 <= |message|
    ensures Chain(f, h, message[..64 * (i + 1)])
         == f(Chain(f, h, message[..64 * i]), message[64 * i..64 * i + 64])
  {
    var m := message[..64 * (i + 1)];
    assert m[..|m| - 64] == message[..64 * i];
    assert m[|m| - 64..] == message[64 * i..64 * i + 64];
  }

  lemma {:induction false} ChainThreeParts(f: (Words, Bytes) -> Words, h: Words, a: Bytes, b: Bytes, c: Bytes)
    requires |b| % 64 == 0 && |c| % 64 == 0
    ensures Chain(f, Chain(f, Chain(f, h, a), b), c) == Chain(f, h, a + b + c)
  {
    hide Chain;
    ChainAppend(f, h, a, b);
    ChainAppend(f, h, a + b, c);
  }

  lemma {:induction false} ChainNothing(f: (Words, Bytes) -> Words, h: Words)
    ensures Chain(f, h, []) == h
  {
  }
}
