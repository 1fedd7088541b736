/**
 Machine words of any width, as the CRC engines use them: bit i of a word is w[i], so the least
 significant bit comes first and a C++ shift to the left moves bits to higher indices.
 */
module BitWords {

  type Word = seq<bool>

  type Byte = w: seq<bool> | |w| == 8 witness [false, false, false, false, false, false, false, false]

  function Zero(width: nat): (w: Word)
    ensures |w| == width && forall i {:trigger w[i]} :: 0 <= i < width ==> !w[i]
  {
    seq(width, i => false)
  }

  /** The word (1 << k). */
  function OneBit(width: nat, k: nat): (w: Word)
    ensures |w| == width && forall i {:trigger w[i]} :: 0 <= i < width ==> w[i] == (i == k)
  {
    seq(width, i => i == k)
  }

  function Xor(a: Word, b: Word): (w: Word)
    requires |a| == |b|
    ensures |w| == |a| && forall i {:trigger w[i]} :: 0 <= i < |a| ==> w[i] == (a[i] != b[i])
  {
    seq(|a|, i requires 0 <= i < |a| => a[i] != b[i])
  }

  function And(a: Word, b: Word): (w: Word)
    requires |a| == |b|
    ensures |w| == |a| && forall i {:trigger w[i]} :: 0 <= i < |a| ==> w[i] == (a[i] && b[i])
  {
    seq(|a|, i requires 0 <= i < |a| => a[i] && b[i])
  }

  function Or(a: Word, b: Word): (w: Word)
    requires |a| == |b|
    ensures |w| == |a| && forall i {:trigger w[i]} :: 0 <= i < |a| ==> w[i] == (a[i] || b[i])
  {
    seq(|a|, i requires 0 <= i < |a| => a[i] || b[i])
  }

  function Shl(a: Word, k: nat): (w: Word)
    ensures |w| == |a| && forall i {:trigger w[i]} :: 0 <= i < |a| ==> w[i] == (k <= i && a[i - k])
  {
    seq(|a|, i requires 0 <= i < |a| => k <= i && a[i - k])
  }

  function Shr(a: Word, k: nat): (w: Word)
    ensures |w| == |a| && forall i {:trigger w[i]} :: 0 <= i < |a| ==> w[i] == (i + k < |a| && a[i + k])
  {
    seq(|a|, i requires 0 <= i < |a| => i + k < |a| && a[i + k])
  }

  /** Conversion to another width: truncation or zero extension. */
  function Resize(a: Word, width: nat): (w: Word)
    ensures |w| == width && forall i {:trigger w[i]} :: 0 <= i < width ==> w[i] == (i < |a| && a[i])
  {
    seq(width, i requires 0 <= i => i < |a| && a[i])
  }

  /** The same bits in the opposite order. */
  function Reverse(a: Word): (w: Word)
    ensures |w| == |a| && forall i {:trigger w[i]} :: 0 <= i < |a| ==> w[i] == a[|a| - 1 - i]
  {
    seq(|a|, i requires 0 <= i < |a| => a[|a| - 1 - i])
  }

  lemma {:induction false} ReverseTwice(a: Word)
    ensures Reverse(Reverse(a)) == a
  {
  }

  lemma {:induction false} XorZero(a: Word)
    ensures Xor(a, Zero(|a|)) == a && Xor(Zero(|a|), a) == a
  {
  }

  lemma {:induction false} XorTwice(a: Word, b: Word)
    requires |a| == |b|
    ensures Xor(a, Xor(b, a)) == b
  {
  }

  lemma {:induction false} XorIsZero(a: Word, b: Word)
    requires |a| == |b|
    ensures Xor(a, b) == Zero(|a|) <==> b == a
  {
    if Xor(a, b) == Zero(|a|) {
      forall i | 0 <= i < |a| ensures b[i] == a[i] {
        assert !Xor(a, b)[i];
      }
    }
  }

  // Words of a fixed width as numbers, for table indices.

  function ToNumber(a: Word): (n: nat)
  {
    if a == [] then 0 else (if a[0] then 1 else 0) + 2 * ToNumber(a[1..])
  }

  function FromNumber(n: nat, width: nat): (w: Word)
    ensures |w| == width
  {
    if width == 0 then [] else [n % 2 == 1] + FromNumber(n / 2, width - 1)
  }

  lemma {:induction false} NumberRoundTrip(a: Word)
    ensures FromNumber(ToNumber(a), |a|) == a
  {
    if a != [] {
      NumberRoundTrip(a[1..]);
    }
  }

  lemma {:induction false} ByteIndexBound(a: Word)
    requires |a| == 8
    ensures ToNumber(a) < 256
  {
    NumberBelow(a, 256, 8);
  }

  lemma {:induction false} NumberBelow(a: Word, bound: nat, k: nat)
    requires |a| == k && bound == TwoTo(k)
    ensures ToNumber(a) < bound
  {
    if k > 0 {
      NumberBelow(a[1..], TwoTo(k - 1), k - 1);
    }
  }

  function TwoTo(k: nat): (n: nat)
    ensures n > 0
  {
    if k == 0 then 1 else 2 * TwoTo(k - 1)
  }

  lemma {:induction false} TwoToSum(a: nat, b: nat)
    ensures TwoTo(a + b) == TwoTo(a) * TwoTo(b)
  {
    if a > 0 {
      TwoToSum(a - 1, b);
    }
  }

  lemma {:induction false} WordRoundTrip(n: nat, k: nat)
    requires n < TwoTo(k)
    ensures ToNumber(FromNumber(n, k)) == n
  {
    if k > 0 {
      WordRoundTrip(n / 2, k - 1);
      assert FromNumber(n, k)[1..] == FromNumber(n / 2, k - 1);
    }
  }

  lemma {:induction false} SplitLast<T>(s: seq<T>)
    requires s != []
    ensures s == s[..|s| - 1] + [s[|s| - 1]]
  {
  }
}
