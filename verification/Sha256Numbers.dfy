/**
 What the words, bytes and texts of SHA-256 are worth as numbers, and what its bit operations do, apart from how they
 are computed.
 */
module Sha256Numbers {
  import opened BitWords
  import opened Sha256Spec
  import opened Sha256Stream

  /** Bytes as one number, the most significant byte first. */
  function BigEndian(s: Bytes): nat {
    if s == [] then 0 else 256 * BigEndian(s[..|s| - 1]) + ToNumber(s[|s| - 1])
  }

  /** A lower-case hexadecimal digit. */
  function HexDigitValue(c: char): int {
    if '0' <= c <= '9' then c as int - '0' as int else c as int - 'a' as int + 10
  }

  function HexValue(text: string): int {
    if text == "" then 0 else 16 * HexValue(text[..|text| - 1]) + HexDigitValue(text[|text| - 1])
  }

  lemma {:induction false} HexDigits(n: nat)
    requires n < 16
    ensures HexDigitValue(HEX_DIGITS[n]) == n
  {
    assert HEX_DIGITS == "0123456789" + "abcdef";
  }

  /** The text of a digest is its number in base 16. */
  lemma {:induction false} HexIsTheNumber(bytes: Bytes)
    ensures HexValue(HexText(bytes)) == BigEndian(bytes)
  {
    if bytes != [] {
      hide ToNumber, HexDigitValue;
      var init, last := bytes[..|bytes| - 1], bytes[|bytes| - 1];
      HexIsTheNumber(init);
      var n := ToNumber(last);
      ByteIndexBound(last);
      HexDigits(n / 16);
      HexDigits(n % 16);
      TwoMoreDigits(HexText(init), HEX_DIGITS[n / 16], HEX_DIGITS[n % 16]);
    }
  }

  lemma {:induction false} TwoMoreDigits(text: string, c: char, d: char)
    ensures HexValue(text + [c, d]) == 256 * HexValue(text) + 16 * HexDigitValue(c) + HexDigitValue(d)
  {
    assert (text + [c, d])[..|text| + 1] == text + [c] && (text + [c])[..|text|] == text;
  }

  // ---------- words ----------

  lemma {:induction false} NumberOfConcat(low: Word, high: Word)
    ensures ToNumber(low + high) == ToNumber(low) + TwoTo(|low|) * ToNumber(high)
  {
    if low == [] {
      assert low + high == high;
    } else {
      NumberOfConcat(low[1..], high);
      assert (low + high)[1..] == low[1..] + high;
      Twice(TwoTo(|low| - 1), ToNumber(high));
    }
  }

  lemma {:induction false} Twice(a: nat, b: nat)
    ensures 2 * (a * b) == (2 * a) * b
  {
  }

  lemma {:induction false} OneMoreByte(s: Bytes, b: Byte)
    ensures BigEndian(s + [b]) == 256 * BigEndian(s) + ToNumber(b)
  {
    assert (s + [b])[..|s|] == s;
  }

  lemma {:induction false} FourMoreBytes(s: Bytes, t: Bytes)
    requires |t| == 4
    ensures BigEndian(s + t) == 0x1_0000_0000 * BigEndian(s) + 0x100_0000 * ToNumber(t[0]) + 0x1_0000 * ToNumber(t[1])
                              + 256 * ToNumber(t[2]) + ToNumber(t[3])
  {
    hide BigEndian, ToNumber;
    OneMoreByte(s, t[0]);
    OneMoreByte(s + [t[0]], t[1]);
    OneMoreByte(s + [t[0]] + [t[1]], t[2]);
    OneMoreByte(s + [t[0]] + [t[1]] + [t[2]], t[3]);
    assert s + t == s + [t[0]] + [t[1]] + [t[2]] + [t[3]];
  }

  lemma {:induction false} BigEndianOfFour(s: Bytes)
    requires |s| == 4
    ensures BigEndian(s) == 0x100_0000 * ToNumber(s[0]) + 0x1_0000 * ToNumber(s[1]) + 256 * ToNumber(s[2])
                          + ToNumber(s[3])
  {
    hide ToNumber;
    FourMoreBytes([], s);
    assert [] + s == s && BigEndian([]) == 0;
  }

  lemma {:induction false} ByteValues()
    ensures TwoTo(8) == 256
  {
    assert TwoTo(4) == 16;
    TwoToSum(4, 4);
  }

  /** Four bytes make the word that they are worth as a number. */
  lemma {:induction false} WordIsTheNumber(s: Bytes)
    requires |s| == 4
    ensures ToNumber(WordOf(s).bits) == BigEndian(s)
  {
    hide ToNumber, TwoTo, BigEndian;
    var (a: Word, b: Word, c: Word, d: Word) := (s[0], s[1], s[2], s[3]);
    FourBytesOfBits(s, a, b, c, d);
    NumberOfConcat(d, c + (b + a));
    NumberOfConcat(c, b + a);
    NumberOfConcat(b, a);
    ByteValues();
    BigEndianOfFour(s);
  }

  lemma {:induction false} FourBytesOfBits(s: Bytes, a: Word, b: Word, c: Word, d: Word)
    requires |s| == 4 && s[0] == a && s[1] == b && s[2] == c && s[3] == d
    ensures WordOf(s).bits == d + (c + (b + a))
  {
    var bits := d + (c + (b + a));
    forall i | 0 <= i < 32 ensures WordOf(s).bits[i] == bits[i] {
      assert i / 8 == 0 || i / 8 == 1 || i / 8 == 2 || i / 8 == 3;
    }
  }

  /** And a word is written as the bytes that are worth it. */
  lemma {:induction false} BytesAreTheNumber(w: W32)
    requires |w.bits| == 32
    ensures BigEndian(BytesOfWord(w)) == ToNumber(w.bits)
  {
    hide ToNumber, BigEndian, WordOf, BytesOfWord;
    WordOfBytes(w);
    WordIsTheNumber(BytesOfWord(w));
  }

  lemma {:induction false} FromNumberIsModular(n: nat, k: nat)
    ensures ToNumber(FromNumber(n, k)) == n % TwoTo(k)
  {
    if k > 0 {
      FromNumberIsModular(n / 2, k - 1);
      assert FromNumber(n, k)[1..] == FromNumber(n / 2, k - 1);
      HalfRemainder(n, TwoTo(k - 1));
    }
  }

  lemma {:induction false} HalfRemainder(n: nat, m: nat)
    requires m > 0
    ensures n % (2 * m) == n % 2 + 2 * (n / 2 % m)
  {
    var q, r := n / 2 / m, n / 2 % m;
    assert n / 2 == q * m + r;
    assert n == 2 * (n / 2) + n % 2;
    assert 2 * (q * m) == q * (2 * m);
    RemainderIs(n, q, 2 * m, n % 2 + 2 * r);
  }

  lemma {:induction false} RemainderIs(n: nat, q: nat, m: nat, r: nat)
    requires n == q * m + r && r < m
    ensures n % m == r
  {
    var k := n / m - q;
    assert n == (n / m) * m + n % m;
    assert (n / m) * m - q * m == k * m;
    NoSmallMultiple(k, m);
  }

  lemma {:induction false} NoSmallMultiple(k: int, m: nat)
    ensures k >= 1 ==> k * m >= m
    ensures k <= -1 ==> k * m + m <= 0
  {
    if k >= 1 {
      assert k * m == (k - 1) * m + m && (k - 1) * m >= 0;
    } else if k <= -1 {
      assert k * m == (k + 1) * m - m && (k + 1) * m <= 0;
    }
  }

  /** Addition of words is addition modulo 2^32. */
  lemma {:induction false} AddIsModular(a: W32, b: W32)
    ensures ToNumber(Add(a, b).bits) == (ToNumber(a.bits) + ToNumber(b.bits)) % 0x1_0000_0000
  {
    hide ToNumber, FromNumber, TwoTo;
    FromNumberIsModular(ToNumber(a.bits) + ToNumber(b.bits), 32);
    WordValues();
  }

  /** The length field is worth the length, below 2^64. */
  lemma {:induction false} LengthIsTheNumber(n: nat)
    requires n < 0x1_0000_0000 * 0x1_0000_0000
    ensures BigEndian(LengthBytes(n)) == n
  {
    hide ToNumber, FromNumber, TwoTo, BigEndian, BytesOfWord;
    var v := FromNumber(n, 64);
    var low, high := v[0..32], v[32..64];
    assert v == low + high;
    NumberOfConcat(low, high);
    WordValues();
    WordRoundTrip(n, 64);
    BytesAreTheNumber(W32(low));
    BytesAreTheNumber(W32(high));
    BigEndianOfConcat(BytesOfWord(W32(high)), BytesOfWord(W32(low)));
  }

  lemma {:induction false} BigEndianOfConcat(a: Bytes, b: Bytes)
    requires |b| == 4
    ensures BigEndian(a + b) == 0x1_0000_0000 * BigEndian(a) + BigEndian(b)
  {
    hide ToNumber, BigEndian;
    FourMoreBytes(a, b);
    BigEndianOfFour(b);
  }

  // ---------- bit operations ----------

  /** A bit of the choice function is taken from y where x has a one, from z elsewhere. */
  lemma {:induction false} ChoosesBits(x: W32, y: W32, z: W32, i: nat)
    requires i < 32
    ensures At(Ch(x, y, z), i) == if At(x, i) then At(y, i) else At(z, i)
  {
  }

  /** A bit of the majority function is that of at least two of the three. */
  lemma {:induction false} MajorityVotes(x: W32, y: W32, z: W32, i: nat)
    requires i < 32
    ensures At(Maj(x, y, z), i)
       <==> (if At(x, i) then 1 else 0) + (if At(y, i) then 1 else 0) + (if At(z, i) then 1 else 0) >= 2
  {
  }

  /** Rotation moves the n lowest bits to the top, a shift loses them and brings in zeros. */
  lemma {:induction false} LowBitsMove(x: W32, n: nat)
    requires |x.bits| == 32 && n <= 32
    ensures Rotated(x, n).bits == x.bits[n..] + x.bits[..n]
    ensures Shifted(x, n).bits == x.bits[n..] + Zero(n)
  {
    var (turned, moved) := (Rotated(x, n).bits, Shifted(x, n).bits);
    forall i | 0 <= i < 32 ensures turned[i] == (x.bits[n..] + x.bits[..n])[i] {
      assert (i + n) % 32 == if i + n < 32 then i + n else i + n - 32;
    }
    forall i | 0 <= i < 32 ensures moved[i] == (x.bits[n..] + Zero(n))[i] {
      assert moved[i] == At(x, i + n);
      if i + n >= 32 {
        assert !Zero(n)[i + n - 32];
      }
    }
  }

  // ---------- the digest and the padding ----------

  /** The digest is worth the eight words, the first one highest. */
  lemma {:induction false} DigestIsTheNumber(h: Words, w: W32)
    requires |w.bits| == 32
    ensures BigEndian(DigestBytes(h + [w])) == 0x1_0000_0000 * BigEndian(DigestBytes(h)) + ToNumber(w.bits)
  {
    hide ToNumber, BigEndian, BytesOfWord;
    assert (h + [w])[..|h|] == h;
    BigEndianOfConcat(DigestBytes(h), BytesOfWord(w));
    BytesAreTheNumber(w);
  }

  /** The byte behind the message is 128, and the zero bytes are worth nothing. */
  lemma {:induction false} PaddingBytes(k: nat)
    ensures ToNumber(ONE_BIT) == 128 && BigEndian(ZeroBytes(k)) == 0
  {
    if k == 0 {
      assert ToNumber(ONE_BIT) == 128 by {
        HighestBit();
      }
    } else {
      PaddingBytes(k - 1);
      assert ZeroBytes(k)[..k - 1] == ZeroBytes(k - 1);
      NumberOfZeros(8);
    }
  }

  lemma {:induction false} NumberOfZeros(n: nat)
    ensures ToNumber(Zero(n)) == 0
  {
    if n > 0 {
      NumberOfZeros(n - 1);
      assert Zero(n)[1..] == Zero(n - 1);
    }
  }

  lemma {:induction false} HighestBit()
    ensures ToNumber(ONE_BIT) == 128
  {
    assert ONE_BIT == Zero(7) + [true];
    NumberOfConcat(Zero(7), [true]);
    NumberOfZeros(7);
    assert TwoTo(4) == 16;
    TwoToSum(4, 3);
    assert [true][1..] == [] && ToNumber([]) == 0;
  }
}
