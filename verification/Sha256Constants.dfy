/**
 The constants of SHA-256 (sections 4.2.2 and 5.3.3 of FIPS 180-4): the first 32 bits of the fractional parts of the
 cube roots of the first 64 primes, and of the square roots of the first eight.
 */
module Sha256Constants {
  import opened Sha256Spec

  ghost predicate IsPrime(n: nat) {
    n >= 2 && forall d {:trigger n % d} :: 2 <= d < n ==> n % d != 0
  }

  /** How many primes are smaller than n. */
  ghost function PrimesBelow(n: nat): nat {
    if n <= 2 then 0 else PrimesBelow(n - 1) + if IsPrime(n - 1) then 1 else 0
  }

  /** p is the i-th prime, counted from zero. */
  ghost predicate IthPrime(i: nat, p: nat) {
    IsPrime(p) && PrimesBelow(p) == i
  }

  /** The first 32 bits behind the point of the cube root of p, which is c before the point. */
  predicate CubeRootFraction(p: nat, c: nat, k: nat) {
    var x := c * 0x1_0000_0000 + k;
    && k < 0x1_0000_0000
    && x * x * x <= p * 0x1_0000_0000_0000_0000_0000_0000 < (x + 1) * (x + 1) * (x + 1)
  }

  predicate SquareRootFraction(p: nat, c: nat, h: nat) {
    var x := c * 0x1_0000_0000 + h;
    h < 0x1_0000_0000 && x * x <= p * 0x1_0000_0000_0000_0000 < (x + 1) * (x + 1)
  }

  // ---------- primes below 361 ----------

  predicate Spared(n: nat, p: nat)
    requires p >= 2
  {
    n == p || n % p != 0
  }

  /** No prime below 19 divides n, unless it is n. */
  predicate Passes(n: nat) {
    && Spared(n, 2) && Spared(n, 3) && Spared(n, 5) && Spared(n, 7) && Spared(n, 11) && Spared(n, 13)
    && Spared(n, 17)
  }

  lemma {:induction false} NoRemainder(a: nat, m: nat)
    requires a >= 2
    ensures (a * m) % a == 0
  {
    var k, r := a * m / a, a * m % a;
    assert a * m == a * k + r;
    assert a * m - a * k == a * (m - k);
    MultipleBelow(a, m - k, r);
  }

  lemma {:induction false} MultipleBelow(a: nat, j: int, r: nat)
    requires a * j == r && r < a
    ensures r == 0
  {
    Bounds(a, j);
  }

  lemma {:induction false} Bounds(a: nat, j: int)
    ensures j >= 1 ==> a * j >= a
    ensures j <= -1 ==> a * j + a <= 0
  {
    if j >= 1 {
      assert a * j == a * (j - 1) + a && a * (j - 1) >= 0;
    } else if j <= -1 {
      assert a * j == a * (j + 1) - a && a * (j + 1) <= 0;
    }
  }

  /** Every number from 2 to 18 is a multiple of a prime below 19. */
  lemma {:induction false} SmallFactorIsSeen(n: nat, d: nat, q: nat)
    requires 2 <= d < 19 && d < n && n == d * q
    ensures !Passes(n)
  {
    hide Spared;
    var a := if d % 2 == 0 then 2 else if d % 3 == 0 then 3 else d;
    assert a == 2 || a == 3 || a == 5 || a == 7 || a == 11 || a == 13 || a == 17;
    Regroup(d, a, d / a, q);
    MultipleIsNotSpared(n, a, d / a * q);
  }

  lemma {:induction false} Regroup(d: nat, a: nat, e: nat, q: nat)
    requires d == a * e
    ensures d * q == a * (e * q)
  {
    assert (a * e) * q == a * (e * q);
  }

  lemma {:induction false} MultipleIsNotSpared(n: nat, a: nat, m: nat)
    requires 2 <= a < n && n == a * m
    ensures !Spared(n, a)
  {
    NoRemainder(a, m);
  }

  lemma {:induction false} OneFactorIsSmall(d: nat, q: nat)
    requires d * q < 361
    ensures d < 19 || q < 19
  {
    LargeProduct(d, q);
  }

  lemma {:induction false} LargeProduct(d: nat, q: nat)
    ensures d >= 19 && q >= 19 ==> d * q >= 361
  {
    if d >= 19 && q >= 19 {
      assert d * q == 19 * q + (d - 19) * q && (d - 19) * q >= 0;
    }
  }

  lemma {:induction false} PassesIffPrime(n: nat)
    requires 2 <= n < 361
    ensures Passes(n) <==> IsPrime(n)
  {
    if !IsPrime(n) {
      hide Passes;
      var d :| 2 <= d < n && n % d == 0;
      FactorIsSeen(n, d);
    }
  }

  lemma {:induction false} FactorIsSeen(n: nat, d: nat)
    requires n < 361 && 2 <= d < n && n % d == 0
    ensures !Passes(n)
  {
    hide Passes;
    var q := n / d;
    assert n == d * q;
    OtherFactor(d, q);
    OneFactorIsSmall(d, q);
    if d < 19 {
      SmallFactorIsSeen(n, d, q);
    } else {
      SmallFactorIsSeen(n, q, d);
    }
  }

  lemma {:induction false} OtherFactor(d: nat, q: nat)
    requires 2 <= d < d * q
    ensures 2 <= q < d * q && d * q == q * d
  {
    SmallMultiples(d, q);
    assert d * q == 2 * q + (d - 2) * q && (d - 2) * q >= 0;
  }

  lemma {:induction false} SmallMultiples(d: nat, q: nat)
    ensures q == 0 ==> d * q == 0
    ensures q == 1 ==> d * q == d
  {
  }

  /** No number between p and q, which are at most 14 apart, passes. */
  predicate NonePasses(p: nat, q: nat) {
    && q <= p + 14
    && (p + 1 < q ==> !Passes(p + 1)) && (p + 2 < q ==> !Passes(p + 2)) && (p + 3 < q ==> !Passes(p + 3))
    && (p + 4 < q ==> !Passes(p + 4)) && (p + 5 < q ==> !Passes(p + 5)) && (p + 6 < q ==> !Passes(p + 6))
    && (p + 7 < q ==> !Passes(p + 7)) && (p + 8 < q ==> !Passes(p + 8)) && (p + 9 < q ==> !Passes(p + 9))
    && (p + 10 < q ==> !Passes(p + 10)) && (p + 11 < q ==> !Passes(p + 11)) && (p + 12 < q ==> !Passes(p + 12))
    && (p + 13 < q ==> !Passes(p + 13))
  }

  /** From one prime to the next that passes, if no number in between does. */
  lemma {:induction false} NextPrime(i: nat, p: nat, q: nat)
    requires IthPrime(i, p) && 2 <= p < q < 361 && Passes(q)
    requires NonePasses(p, q)
    ensures IthPrime(i + 1, q)
  {
    hide Passes, IsPrime;
    PassesIffPrime(q);
    CountUpTo(i, p, q);
  }

  lemma {:induction false} CountUpTo(i: nat, p: nat, q: nat)
    requires IthPrime(i, p) && 2 <= p < q < 361
    requires forall n :: p < n < q ==> !Passes(n)
    ensures PrimesBelow(q) == i + 1
    decreases q
  {
    hide Passes, IsPrime;
    if q > p + 1 {
      CountUpTo(i, p, q - 1);
      PassesIffPrime(q - 1);
    }
  }

  lemma {:induction false} FirstPrime()
    ensures IthPrime(0, 2)
  {
  }

  lemma {:induction false} Primes0To3()
    ensures IthPrime(0, 2) && IthPrime(1, 3) && IthPrime(2, 5) && IthPrime(3, 7)
  {
    hide IthPrime;
    FirstPrime();
    NextPrime(0, 2, 3);
    NextPrime(1, 3, 5);
    NextPrime(2, 5, 7);
  }

  lemma {:induction false} Primes4To7()
    ensures IthPrime(4, 11) && IthPrime(5, 13) && IthPrime(6, 17) && IthPrime(7, 19)
  {
    hide IthPrime;
    Primes0To3();
    NextPrime(3, 7, 11);
    NextPrime(4, 11, 13);
    NextPrime(5, 13, 17);
    NextPrime(6, 17, 19);
  }

  lemma {:induction false} Primes8To11()
    ensures IthPrime(8, 23) && IthPrime(9, 29) && IthPrime(10, 31) && IthPrime(11, 37)
  {
    hide IthPrime;
    Primes4To7();
    NextPrime(7, 19, 23);
    NextPrime(8, 23, 29);
    NextPrime(9, 29, 31);
    NextPrime(10, 31, 37);
  }

  lemma {:induction false} Primes12To15()
    ensures IthPrime(12, 41) && IthPrime(13, 43) && IthPrime(14, 47) && IthPrime(15, 53)
  {
    hide IthPrime;
    Primes8To11();
    NextPrime(11, 37, 41);
    NextPrime(12, 41, 43);
    NextPrime(13, 43, 47);
    NextPrime(14, 47, 53);
  }

  lemma {:induction false} Primes16To19()
    ensures IthPrime(16, 59) && IthPrime(17, 61) && IthPrime(18, 67) && IthPrime(19, 71)
  {
    hide IthPrime;
    Primes12To15();
    NextPrime(15, 53, 59);
    NextPrime(16, 59, 61);
    NextPrime(17, 61, 67);
    NextPrime(18, 67, 71);
  }

  lemma {:induction false} Primes20To23()
    ensures IthPrime(20, 73) && IthPrime(21, 79) && IthPrime(22, 83) && IthPrime(23, 89)
  {
    hide IthPrime;
    Primes16To19();
    NextPrime(19, 71, 73);
    NextPrime(20, 73, 79);
    NextPrime(21, 79, 83);
    NextPrime(22, 83, 89);
  }

  lemma {:induction false} Primes24To27()
    ensures IthPrime(24, 97) && IthPrime(25, 101) && IthPrime(26, 103) && IthPrime(27, 107)
  {
    hide IthPrime;
    Primes20To23();
    NextPrime(23, 89, 97);
    NextPrime(24, 97, 101);
    NextPrime(25, 101, 103);
    NextPrime(26, 103, 107);
  }

  lemma {:induction false} Primes28To31()
    ensures IthPrime(28, 109) && IthPrime(29, 113) && IthPrime(30, 127) && IthPrime(31, 131)
  {
    hide IthPrime;
    Primes24To27();
    NextPrime(27, 107, 109);
    NextPrime(28, 109, 113);
    NextPrime(29, 113, 127);
    NextPrime(30, 127, 131);
  }

  lemma {:induction false} Primes32To35()
    ensures IthPrime(32, 137) && IthPrime(33, 139) && IthPrime(34, 149) && IthPrime(35, 151)
  {
    hide IthPrime;
    Primes28To31();
    NextPrime(31, 131, 137);
    NextPrime(32, 137, 139);
    NextPrime(33, 139, 149);
    NextPrime(34, 149, 151);
  }

  lemma {:induction false} Primes36To39()
    ensures IthPrime(36, 157) && IthPrime(37, 163) && IthPrime(38, 167) && IthPrime(39, 173)
  {
    hide IthPrime;
    Primes32To35();
    NextPrime(35, 151, 157);
    NextPrime(36, 157, 163);
    NextPrime(37, 163, 167);
    NextPrime(38, 167, 173);
  }

  lemma {:induction false} Primes40To43()
    ensures IthPrime(40, 179) && IthPrime(41, 181) && IthPrime(42, 191) && IthPrime(43, 193)
  {
    hide IthPrime;
    Primes36To39();
    NextPrime(39, 173, 179);
    NextPrime(40, 179, 181);
    NextPrime(41, 181, 191);
    NextPrime(42, 191, 193);
  }

  lemma {:induction false} Primes44To47()
    ensures IthPrime(44, 197) && IthPrime(45, 199) && IthPrime(46, 211) && IthPrime(47, 223)
  {
    hide IthPrime;
    Primes40To43();
    NextPrime(43, 193, 197);
    NextPrime(44, 197, 199);
    NextPrime(45, 199, 211);
    NextPrime(46, 211, 223);
  }

  lemma {:induction false} Primes48To51()
    ensures IthPrime(48, 227) && IthPrime(49, 229) && IthPrime(50, 233) && IthPrime(51, 239)
  {
    hide IthPrime;
    Primes44To47();
    NextPrime(47, 223, 227);
    NextPrime(48, 227, 229);
    NextPrime(49, 229, 233);
    NextPrime(50, 233, 239);
  }

  lemma {:induction false} Primes52To55()
    ensures IthPrime(52, 241) && IthPrime(53, 251) && IthPrime(54, 257) && IthPrime(55, 263)
  {
    hide IthPrime;
    Primes48To51();
    NextPrime(51, 239, 241);
    NextPrime(52, 241, 251);
    NextPrime(53, 251, 257);
    NextPrime(54, 257, 263);
  }

  lemma {:induction false} Primes56To59()
    ensures IthPrime(56, 269) && IthPrime(57, 271) && IthPrime(58, 277) && IthPrime(59, 281)
  {
    hide IthPrime;
    Primes52To55();
    NextPrime(55, 263, 269);
    NextPrime(56, 269, 271);
    NextPrime(57, 271, 277);
    NextPrime(58, 277, 281);
  }

  lemma {:induction false} Primes60To63()
    ensures IthPrime(60, 283) && IthPrime(61, 293) && IthPrime(62, 307) && IthPrime(63, 311)
  {
    hide IthPrime;
    Primes56To59();
    NextPrime(59, 281, 283);
    NextPrime(60, 283, 293);
    NextPrime(61, 293, 307);
    NextPrime(62, 307, 311);
  }

  // ---------- the constants ----------

  /** k is the i-th round constant of section 4.2.2. */
  ghost predicate IsRoundConstant(i: nat, k: nat) {
    exists p: nat, c: nat :: IthPrime(i, p) && CubeRootFraction(p, c, k)
  }

  /** h is the i-th word of the initial hash value of section 5.3.3. */
  ghost predicate IsInitialWord(i: nat, h: nat) {
    exists p: nat, c: nat :: IthPrime(i, p) && SquareRootFraction(p, c, h)
  }

  lemma {:induction false} RoundConstants0To3()
    ensures |K| == 64 && forall i {:trigger K[i]} :: 0 <= i < 4 ==> IsRoundConstant(i, K[i])
  {
    hide IthPrime;
    Primes0To3();
    assert K[0] == 0x428a2f98 && K[1] == 0x71374491 && K[2] == 0xb5c0fbcf && K[3] == 0xe9b5dba5;
    assert CubeRootFraction(2, 1, 0x428a2f98);
    assert CubeRootFraction(3, 1, 0x71374491);
    assert CubeRootFraction(5, 1, 0xb5c0fbcf);
    assert CubeRootFraction(7, 1, 0xe9b5dba5);
  }

  lemma {:induction false} RoundConstants4To7()
    ensures |K| == 64 && forall i {:trigger K[i]} :: 4 <= i < 8 ==> IsRoundConstant(i, K[i])
  {
    hide IthPrime;
    Primes4To7();
    assert K[4] == 0x3956c25b && K[5] == 0x59f111f1 && K[6] == 0x923f82a4 && K[7] == 0xab1c5ed5;
    assert CubeRootFraction(11, 2, 0x3956c25b);
    assert CubeRootFraction(13, 2, 0x59f111f1);
    assert CubeRootFraction(17, 2, 0x923f82a4);
    assert CubeRootFraction(19, 2, 0xab1c5ed5);
  }

  lemma {:induction false} RoundConstants8To11()
    ensures |K| == 64 && forall i {:trigger K[i]} :: 8 <= i < 12 ==> IsRoundConstant(i, K[i])
  {
    hide IthPrime;
    Primes8To11();
    assert K[8] == 0xd807aa98 && K[9] == 0x12835b01 && K[10] == 0x243185be && K[11] == 0x550c7dc3;
    assert CubeRootFraction(23, 2, 0xd807aa98);
    assert CubeRootFraction(29, 3, 0x12835b01);
    assert CubeRootFraction(31, 3, 0x243185be);
    assert CubeRootFraction(37, 3, 0x550c7dc3);
  }

  lemma {:induction false} RoundConstants12To15()
    ensures |K| == 64 && forall i {:trigger K[i]} :: 12 <= i < 16 ==> IsRoundConstant(i, K[i])
  {
    hide IthPrime;
    Primes12To15();
    assert K[12] == 0x72be5d74 && K[13] == 0x80deb1fe && K[14] == 0x9bdc06a7 && K[15] == 0xc19bf174;
    assert CubeRootFraction(41, 3, 0x72be5d74);
    assert CubeRootFraction(43, 3, 0x80deb1fe);
    assert CubeRootFraction(47, 3, 0x9bdc06a7);
    assert CubeRootFraction(53, 3, 0xc19bf174);
  }

  lemma {:induction false} RoundConstants16To19()
    ensures |K| == 64 && forall i {:trigger K[i]} :: 16 <= i < 20 ==> IsRoundConstant(i, K[i])
  {
    hide IthPrime;
    Primes16To19();
    assert K[16] == 0xe49b69c1 && K[17] == 0xefbe4786 && K[18] == 0x0fc19dc6 && K[19] == 0x240ca1cc;
    assert CubeRootFraction(59, 3, 0xe49b69c1);
    assert CubeRootFraction(61, 3, 0xefbe4786);
    assert CubeRootFraction(67, 4, 0x0fc19dc6);
    assert CubeRootFraction(71, 4, 0x240ca1cc);
  }

  lemma {:induction false} RoundConstants20To23()
    ensures |K| == 64 && forall i {:trigger K[i]} :: 20 <= i < 24 ==> IsRoundConstant(i, K[i])
  {
    hide IthPrime;
    Primes20To23();
    assert K[20] == 0x2de92c6f && K[21] == 0x4a7484aa && K[22] == 0x5cb0a9dc && K[23] == 0x76f988da;
    assert CubeRootFraction(73, 4, 0x2de92c6f);
    assert CubeRootFraction(79, 4, 0x4a7484aa);
    assert CubeRootFraction(83, 4, 0x5cb0a9dc);
    assert CubeRootFraction(89, 4, 0x76f988da);
  }

  lemma {:induction false} RoundConstants24To27()
    ensures |K| == 64 && forall i {:trigger K[i]} :: 24 <= i < 28 ==> IsRoundConstant(i, K[i])
  {
    hide IthPrime;
    Primes24To27();
    assert K[24] == 0x983e5152 && K[25] == 0xa831c66d && K[26] == 0xb00327c8 && K[27] == 0xbf597fc7;
    assert CubeRootFraction(97, 4, 0x983e5152);
    assert CubeRootFraction(101, 4, 0xa831c66d);
    assert CubeRootFraction(103, 4, 0xb00327c8);
    assert CubeRootFraction(107, 4, 0xbf597fc7);
  }

  lemma {:induction false} RoundConstants28To31()
    ensures |K| == 64 && forall i {:trigger K[i]} :: 28 <= i < 32 ==> IsRoundConstant(i, K[i])
  {
    hide IthPrime;
    Primes28To31();
    assert K[28] == 0xc6e00bf3 && K[29] == 0xd5a79147 && K[30] == 0x06ca6351 && K[31] == 0x14292967;
    assert CubeRootFraction(109, 4, 0xc6e00bf3);
    assert CubeRootFraction(113, 4, 0xd5a79147);
    assert CubeRootFraction(127, 5, 0x06ca6351);
    assert CubeRootFraction(131, 5, 0x14292967);
  }

  lemma {:induction false} RoundConstants32To35()
    ensures |K| == 64 && forall i {:trigger K[i]} :: 32 <= i < 36 ==> IsRoundConstant(i, K[i])
  {
    hide IthPrime;
    Primes32To35();
    assert K[32] == 0x27b70a85 && K[33] == 0x2e1b2138 && K[34] == 0x4d2c6dfc && K[35] == 0x53380d13;
    assert CubeRootFraction(137, 5, 0x27b70a85);
    assert CubeRootFraction(139, 5, 0x2e1b2138);
    assert CubeRootFraction(149, 5, 0x4d2c6dfc);
    assert CubeRootFraction(151, 5, 0x53380d13);
  }

  lemma {:induction false} RoundConstants36To39()
    ensures |K| == 64 && forall i {:trigger K[i]} :: 36 <= i < 40 ==> IsRoundConstant(i, K[i])
  {
    hide IthPrime;
    Primes36To39();
    assert K[36] == 0x650a7354 && K[37] == 0x766a0abb && K[38] == 0x81c2c92e && K[39] == 0x92722c85;
    assert CubeRootFraction(157, 5, 0x650a7354);
    assert CubeRootFraction(163, 5, 0x766a0abb);
    assert CubeRootFraction(167, 5, 0x81c2c92e);
    assert CubeRootFraction(173, 5, 0x92722c85);
  }

  lemma {:induction false} RoundConstants40To43()
    ensures |K| == 64 && forall i {:trigger K[i]} :: 40 <= i < 44 ==> IsRoundConstant(i, K[i])
  {
    hide IthPrime;
    Primes40To43();
    assert K[40] == 0xa2bfe8a1 && K[41] == 0xa81a664b && K[42] == 0xc24b8b70 && K[43] == 0xc76c51a3;
    assert CubeRootFraction(179, 5, 0xa2bfe8a1);
    assert CubeRootFraction(181, 5, 0xa81a664b);
    assert CubeRootFraction(191, 5, 0xc24b8b70);
    assert CubeRootFraction(193, 5, 0xc76c51a3);
  }

  lemma {:induction false} RoundConstants44To47()
    ensures |K| == 64 && forall i {:trigger K[i]} :: 44 <= i < 48 ==> IsRoundConstant(i, K[i])
  {
    hide IthPrime;
    Primes44To47();
    assert K[44] == 0xd192e819 && K[45] == 0xd6990624 && K[46] == 0xf40e3585 && K[47] == 0x106aa070;
    assert CubeRootFraction(197, 5, 0xd192e819);
    assert CubeRootFraction(199, 5, 0xd6990624);
    assert CubeRootFraction(211, 5, 0xf40e3585);
    assert CubeRootFraction(223, 6, 0x106aa070);
  }

  lemma {:induction false} RoundConstants48To51()
    ensures |K| == 64 && forall i {:trigger K[i]} :: 48 <= i < 52 ==> IsRoundConstant(i, K[i])
  {
    hide IthPrime;
    Primes48To51();
    assert K[48] == 0x19a4c116 && K[49] == 0x1e376c08 && K[50] == 0x2748774c && K[51] == 0x34b0bcb5;
    assert CubeRootFraction(227, 6, 0x19a4c116);
    assert CubeRootFraction(229, 6, 0x1e376c08);
    assert CubeRootFraction(233, 6, 0x2748774c);
    assert CubeRootFraction(239, 6, 0x34b0bcb5);
  }

  lemma {:induction false} RoundConstants52To55()
    ensures |K| == 64 && forall i {:trigger K[i]} :: 52 <= i < 56 ==> IsRoundConstant(i, K[i])
  {
    hide IthPrime;
    Primes52To55();
    assert K[52] == 0x391c0cb3 && K[53] == 0x4ed8aa4a && K[54] == 0x5b9cca4f && K[55] == 0x682e6ff3;
    assert CubeRootFraction(241, 6, 0x391c0cb3);
    assert CubeRootFraction(251, 6, 0x4ed8aa4a);
    assert CubeRootFraction(257, 6, 0x5b9cca4f);
    assert CubeRootFraction(263, 6, 0x682e6ff3);
  }

  lemma {:induction false} RoundConstants56To59()
    ensures |K| == 64 && forall i {:trigger K[i]} :: 56 <= i < 60 ==> IsRoundConstant(i, K[i])
  {
    hide IthPrime;
    Primes56To59();
    assert K[56] == 0x748f82ee && K[57] == 0x78a5636f && K[58] == 0x84c87814 && K[59] == 0x8cc70208;
    assert CubeRootFraction(269, 6, 0x748f82ee);
    assert CubeRootFraction(271, 6, 0x78a5636f);
    assert CubeRootFraction(277, 6, 0x84c87814);
    assert CubeRootFraction(281, 6, 0x8cc70208);
  }

  lemma {:induction false} RoundConstants60To63()
    ensures |K| == 64 && forall i {:trigger K[i]} :: 60 <= i < 64 ==> IsRoundConstant(i, K[i])
  {
    hide IthPrime;
    Primes60To63();
    assert K[60] == 0x90befffa && K[61] == 0xa4506ceb && K[62] == 0xbef9a3f7 && K[63] == 0xc67178f2;
    assert CubeRootFraction(283, 6, 0x90befffa);
    assert CubeRootFraction(293, 6, 0xa4506ceb);
    assert CubeRootFraction(307, 6, 0xbef9a3f7);
    assert CubeRootFraction(311, 6, 0xc67178f2);
  }

  /** The shipped table holds the round constants of the standard. */
  lemma {:induction false} RoundConstants(i: nat)
    requires i < 64
    ensures |K| == 64 && IsRoundConstant(i, K[i])
  {
    hide IsRoundConstant;
    if i < 4 {
      RoundConstants0To3();
    } else if i < 8 {
      RoundConstants4To7();
    } else if i < 12 {
      RoundConstants8To11();
    } else if i < 16 {
      RoundConstants12To15();
    } else if i < 20 {
      RoundConstants16To19();
    } else if i < 24 {
      RoundConstants20To23();
    } else if i < 28 {
      RoundConstants24To27();
    } else if i < 32 {
      RoundConstants28To31();
    } else if i < 36 {
      RoundConstants32To35();
    } else if i < 40 {
      RoundConstants36To39();
    } else if i < 44 {
      RoundConstants40To43();
    } else if i < 48 {
      RoundConstants44To47();
    } else if i < 52 {
      RoundConstants48To51();
    } else if i < 56 {
      RoundConstants52To55();
    } else if i < 60 {
      RoundConstants56To59();
    } else {
      RoundConstants60To63();
    }
  }

  /** And the initial hash value holds the words of the standard. */
  lemma {:induction false} InitialWords(i: nat)
    requires i < 8
    ensures |H0| == 8 && IsInitialWord(i, H0[i])
  {
    hide IthPrime;
    Primes0To3();
    Primes4To7();
    assert SquareRootFraction(2, 1, 0x6a09e667);
    assert SquareRootFraction(3, 1, 0xbb67ae85);
    assert SquareRootFraction(5, 2, 0x3c6ef372);
    assert SquareRootFraction(7, 2, 0xa54ff53a);
    assert SquareRootFraction(11, 3, 0x510e527f);
    assert SquareRootFraction(13, 3, 0x9b05688c);
    assert SquareRootFraction(17, 4, 0x1f83d9ab);
    assert SquareRootFraction(19, 4, 0x5be0cd19);
  }
}
