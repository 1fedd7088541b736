/**
 SHA-256 once more, as recurrences over sums of whole numbers: two sequences in place of eight working variables that
 are passed on, and one remainder modulo 2^32 in place of chained additions of words.
 */
module Sha256Recurrence {
  import opened BitWords
  import opened Sha256Spec
  import opened Sha256Stream
  import opened Sha256Numbers
  import opened Sha256Constants

  function N(x: W32): nat {
    ToNumber(x.bits)
  }

  // ---------- sums ----------

  /** A word of a number is that of the number's remainder. */
  lemma {:induction false} SameRemainder(n: nat, m: nat)
    requires n % U32 == m % U32
    ensures W(n) == W(m)
  {
    hide ToNumber, FromNumber, TwoTo;
    FromNumberIsModular(n, 32);
    FromNumberIsModular(m, 32);
    WordValues();
    NumberRoundTrip(FromNumber(n, 32));
    NumberRoundTrip(FromNumber(m, 32));
  }

  lemma {:induction false} NumberOfWord(n: nat)
    ensures N(W(n)) == n % U32
  {
    hide ToNumber, FromNumber, TwoTo;
    FromNumberIsModular(n, 32);
    WordValues();
  }

  /** The word of a sum may be added on. */
  lemma {:induction false} AddToSum(n: nat, x: W32)
    ensures Add(W(n), x) == W(n + N(x)) && Add(x, W(n)) == W(n + N(x))
  {
    hide W, ToNumber;
    NumberOfWord(n);
    RemainderAdds(n, N(x));
    SameRemainder(N(W(n)) + N(x), n + N(x));
  }

  lemma {:induction false} RemainderAdds(n: nat, m: nat)
    ensures (n % U32 + m) % U32 == (n + m) % U32
  {
  }

  lemma {:induction false} AddTwo(x: W32, y: W32)
    ensures Add(x, y) == W(N(x) + N(y))
  {
  }

  // ---------- the schedule ----------

  /** The first sixteen words are the block's bytes, four at a time; every later one is a sum of four. */
  lemma {:induction false} ScheduleIsRecurrence(block: Bytes, t: nat)
    requires |block| == 64
    ensures t < 16 ==> N(Schedule(block, t)) == BigEndian(block[4 * t..4 * t + 4])
    ensures t >= 16 ==>
              Schedule(block, t) == W(N(SmallSigma1(Schedule(block, t - 2))) + N(Schedule(block, t - 7))
                                      + N(SmallSigma0(Schedule(block, t - 15))) + N(Schedule(block, t - 16)))
  {
    hide W, ToNumber, Add, SmallSigma0, SmallSigma1, WordOf, BigEndian;
    if t < 16 {
      WordIsTheNumber(block[4 * t..4 * t + 4]);
    } else {
      FourSummands(SmallSigma1(Schedule(block, t - 2)), Schedule(block, t - 7),
                   SmallSigma0(Schedule(block, t - 15)), Schedule(block, t - 16));
    }
  }

  lemma {:induction false} FourSummands(a: W32, b: W32, c: W32, d: W32)
    ensures Add(Add(Add(a, b), c), d) == W(N(a) + N(b) + N(c) + N(d))
  {
    hide W, N, Add;
    AddTwo(a, b);
    AddToSum(N(a) + N(b), c);
    AddToSum(N(a) + N(b) + N(c), d);
  }

  // ---------- the rounds ----------

  /** One member of each sequence. */
  datatype Pair = Pair(a: W32, e: W32)

  /**
   The sequences start with the hash value before the block, from its fourth word up to its first and from its eighth
   to its fifth; member i + 4 belongs to round i.
   */
  function Sequences(h: Words, block: Bytes, i: nat): Pair
    requires |h| == 8 && |block| == 64 && i < 68
  {
    if i < 4 then Pair(h[3 - i], h[7 - i])
    else
      var (p, q, r, s) := (Sequences(h, block, i - 1), Sequences(h, block, i - 2), Sequences(h, block, i - 3),
                           Sequences(h, block, i - 4));
      var t1 := N(s.e) + N(BigSigma1(p.e)) + N(Ch(p.e, q.e, r.e)) + K[i - 4] + N(Schedule(block, i - 4));
      Pair(W(t1 + N(BigSigma0(p.a)) + N(Maj(p.a, q.a, r.a))), W(t1 + N(s.a)))
  }

  lemma {:induction false} FiveSummands(a: W32, b: W32, c: W32, k: nat, w: W32)
    requires k < U32
    ensures Add(Add(Add(Add(a, b), c), W(k)), w) == W(N(a) + N(b) + N(c) + k + N(w))
  {
    hide W, N, Add;
    AddTwo(a, b);
    AddToSum(N(a) + N(b), c);
    AddToSum(N(a) + N(b) + N(c), W(k));
    NumberOfWord(k);
    AddToSum(N(a) + N(b) + N(c) + k, w);
  }

  lemma {:induction false} ConstantIsAWord(t: nat)
    requires t < 64
    ensures |K| == 64 && K[t] < U32
  {
    hide IthPrime;
    RoundConstants(t);
  }

  /** One round adds one member to each sequence. */
  lemma {:induction false} RoundIsRecurrence(v: Working, k: nat, w: W32)
    requires k < U32
    ensures var t1 := N(v.h) + N(BigSigma1(v.e)) + N(Ch(v.e, v.f, v.g)) + k + N(w);
            Round(v, W(k), w) == Working(W(t1 + N(BigSigma0(v.a)) + N(Maj(v.a, v.b, v.c))), v.a, v.b, v.c,
                                         W(t1 + N(v.d)), v.e, v.f, v.g)
  {
    hide W, N, Add, BigSigma0, BigSigma1, Ch, Maj;
    var t1 := N(v.h) + N(BigSigma1(v.e)) + N(Ch(v.e, v.f, v.g)) + k + N(w);
    var (x, y) := (BigSigma0(v.a), Maj(v.a, v.b, v.c));
    FiveSummands(v.h, BigSigma1(v.e), Ch(v.e, v.f, v.g), k, w);
    AddTwo(x, y);
    AddToSum(t1, v.d);
    SumOfSums(t1, N(x) + N(y));
  }

  lemma {:induction false} SumOfSums(n: nat, m: nat)
    ensures Add(W(n), W(m)) == W(n + m)
  {
    hide W, ToNumber, Add;
    AddToSum(n, W(m));
    NumberOfWord(m);
    RemainderAdds(m, n);
    SameRemainder(n + m % U32, n + m);
  }

  /** After t rounds the eight working variables are the last four members of the two sequences. */
  lemma {:induction false} RoundsAreRecurrence(h: Words, block: Bytes, t: nat)
    requires |h| == 8 && |block| == 64 && t <= 64
    ensures var (p, q, r, s) := (Sequences(h, block, t + 3), Sequences(h, block, t + 2), Sequences(h, block, t + 1),
                                 Sequences(h, block, t));
            Rounds(h, block, t) == Working(p.a, q.a, r.a, s.a, p.e, q.e, r.e, s.e)
  {
    hide W, N, Round, Schedule, BigSigma0, BigSigma1, Ch, Maj;
    if t > 0 {
      RoundsAreRecurrence(h, block, t - 1);
      ConstantIsAWord(t - 1);
      RoundIsRecurrence(Rounds(h, block, t - 1), K[t - 1], Schedule(block, t - 1));
    }
  }

  /** The hash value after a block is word by word the sum of the one before it and of the last members. */
  lemma {:induction false} CompressAddsUp(h: Words, block: Bytes, i: nat)
    requires |h| == 8 && |block| == 64 && i < 8
    ensures |Compress(h, block)| == 8
    ensures Compress(h, block)[i]
         == W(N(h[i]) + N(if i < 4 then Sequences(h, block, 67 - i).a else Sequences(h, block, 71 - i).e))
  {
    hide W, N, Rounds, Sequences, Add;
    RoundsAreRecurrence(h, block, 64);
    var v := WordsOf(Rounds(h, block, 64));
    AddTwo(h[i], v[i]);
  }
}
