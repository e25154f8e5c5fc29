/**
 * Where the constants of FIPS 180-4 come from (sections 4.2.2 and 5.3.3): the first 32 bits of the fractional parts of
 * cube roots and square roots of the first primes.
 */
module Sha256Constants {
  import opened Bytes
  import opened Sha256Standard

  /** The prime numbers in order, from number 0 on. */
  function Prime(t: nat): nat
    requires t < 64
  {
    if t < 16 then P0(t) else if t < 32 then P1(t - 16) else if t < 48 then P2(t - 32) else P3(t - 48)
  }

  function P0(t: nat): nat
    requires t < 16
  {
    [2, 3, 5, 7, 11, 13, 17, 19, 23, 29, 31, 37, 41, 43, 47, 53][t]
  }

  function P1(t: nat): nat
    requires t < 16
  {
    [59, 61, 67, 71, 73, 79, 83, 89, 97, 101, 103, 107, 109, 113, 127, 131][t]
  }

  function P2(t: nat): nat
    requires t < 16
  {
    [137, 139, 149, 151, 157, 163, 167, 173, 179, 181, 191, 193, 197, 199, 211, 223][t]
  }

  function P3(t: nat): nat
    requires t < 16
  {
    [227, 229, 233, 239, 241, 251, 257, 263, 269, 271, 277, 281, 283, 293, 307, 311][t]
  }

  ghost predicate IsPrime(n: nat) {
    n >= 2 && forall d :: 2 <= d < n ==> n % d != 0
  }

  /** A prime of at most 17 divides n, and is not n. */
  predicate Composite(n: nat) {
    || (n % 2 == 0 && n > 2) || (n % 3 == 0 && n > 3) || (n % 5 == 0 && n > 5) || (n % 7 == 0 && n > 7)
    || (n % 11 == 0 && n > 11) || (n % 13 == 0 && n > 13) || (n % 17 == 0 && n > 17)
  }

  /** A number below 324 that is no prime has a divisor of at most 17. */
  lemma CompositeIff(n: nat)
    requires 2 <= n < 324
    ensures IsPrime(n) <==> !Composite(n)
  {
    if !IsPrime(n) {
      var d :| 2 <= d < n && n % d == 0;
      var e := n / d;
      hide IsPrime, Composite;
      Quotient(n, d, e);
      SmallFactor(if d <= e then d else e, if d <= e then e else d, n);
    }
  }

  lemma Quotient(n: nat, d: nat, e: nat)
    requires 0 < d < n && n % d == 0 && e == n / d
    ensures d * e == e * d == n && e >= 2
  {
    assert d * 0 == 0 && d * 1 == d;
  }

  lemma SmallFactor(d: nat, e: nat, n: nat)
    requires 2 <= d <= e && d * e == n < 324
    ensures Composite(n)
  {
    if d > 17 {
      Product(d, e);
    }
    SmallDivisor(d, e, n);
  }

  lemma Product(d: nat, e: nat)
    requires 18 <= d <= e
    ensures d * e >= 324
  {
    assert d * e >= 18 * e;
  }

  lemma SmallDivisor(d: nat, e: nat, n: nat)
    requires 2 <= d <= 17 && d <= e && d * e == n
    ensures Composite(n)
  {
    hide Composite;
    var p := if d % 2 == 0 then 2 else if d % 3 == 0 then 3 else d;
    var k := d / p;
    Shared(d, p, k);
    Factor(p, k, e, n);
    ByPrime(p, n);
  }

  lemma Shared(d: nat, p: nat, k: nat)
    requires 2 <= d <= 17 && p == (if d % 2 == 0 then 2 else if d % 3 == 0 then 3 else d) && k == d / p
    ensures d == p * k && k >= 1 && (p == 2 || p == 3 || p == 5 || p == 7 || p == 11 || p == 13 || p == 17)
  {
    if p == d {
      assert k == 1;
    }
  }

  lemma ByPrime(p: nat, n: nat)
    requires p == 2 || p == 3 || p == 5 || p == 7 || p == 11 || p == 13 || p == 17
    requires n % p == 0 && n > p
    ensures Composite(n)
  {
  }

  lemma Factor(p: nat, k: nat, e: nat, n: nat)
    requires p >= 2 && k >= 1 && e >= p * k && (p * k) * e == n
    ensures n % p == 0 && n > p
  {
    Regroup(p, k, e);
    Split(n, p, k * e, 0);
    assert e >= 2 by {
      MulStep(p, 0, k);
    }
    MulStep(e, 0, k);
    MulComm(e, k);
    MulStep(p, 1, k * e);
  }

  lemma Regroup(p: nat, k: nat, e: nat)
    ensures (p * k) * e == p * (k * e)
  {
  }

  /** q is the prime that follows p. */
  ghost predicate NextPrime(p: nat, q: nat) {
    p < q && IsPrime(q) && forall n :: p < n < q ==> !IsPrime(n)
  }

  lemma NextIs(p: nat, q: nat)
    requires 2 <= p < q < 324 && q <= p + 14 && !Composite(q) && (p % 2 == 1 || q == p + 1)
    requires (p + 2 < q ==> Composite(p + 2)) && (p + 4 < q ==> Composite(p + 4)) && (p + 6 < q ==> Composite(p + 6))
    requires (p + 8 < q ==> Composite(p + 8)) && (p + 10 < q ==> Composite(p + 10))
    requires p + 12 < q ==> Composite(p + 12)
    ensures NextPrime(p, q)
  {
    hide Composite, IsPrime;
    forall n | p < n <= q
      ensures IsPrime(n) <==> n == q
    {
      CompositeIff(n);
      EvenComposite(n);
      if n % 2 == 1 {
        assert n == p + 2 || n == p + 4 || n == p + 6 || n == p + 8 || n == p + 10 || n == p + 12 || n == q;
      }
    }
  }

  lemma EvenComposite(n: nat)
    ensures n % 2 == 0 && n > 2 ==> Composite(n)
  {
  }

  /** The first is 2, and each is followed by the next. */
  lemma PrimesInOrder(t: nat)
    requires t < 63
    ensures Prime(0) == 2 && NextPrime(1, 2) && NextPrime(Prime(t), Prime(t + 1))
  {
    hide NextPrime;
    FirstIs2();
    match t / 4
    case 0 => Primes0(t);
    case 1 => Primes1(t);
    case 2 => Primes2(t);
    case 3 => Primes3(t);
    case 4 => Primes4(t);
    case 5 => Primes5(t);
    case 6 => Primes6(t);
    case 7 => Primes7(t);
    case 8 => Primes8(t);
    case 9 => Primes9(t);
    case 10 => Primes10(t);
    case 11 => Primes11(t);
    case 12 => Primes12(t);
    case 13 => Primes13(t);
    case 14 => Primes14(t);
    case _ => Primes15(t);
  }

  lemma FirstIs2()
    ensures NextPrime(1, 2)
  {
  }

  lemma Primes0(t: nat)
    requires 0 <= t < 4
    ensures NextPrime(Prime(t), Prime(t + 1))
  {
    hide NextPrime, IsPrime;
    NextIs(2, 3);
    NextIs(3, 5);
    NextIs(5, 7);
    NextIs(7, 11);
  }

  lemma Primes1(t: nat)
    requires 4 <= t < 8
    ensures NextPrime(Prime(t), Prime(t + 1))
  {
    hide NextPrime, IsPrime;
    NextIs(11, 13);
    NextIs(13, 17);
    NextIs(17, 19);
    NextIs(19, 23);
  }

  lemma Primes2(t: nat)
    requires 8 <= t < 12
    ensures NextPrime(Prime(t), Prime(t + 1))
  {
    hide NextPrime, IsPrime;
    NextIs(23, 29);
    NextIs(29, 31);
    NextIs(31, 37);
    NextIs(37, 41);
  }

  lemma Primes3(t: nat)
    requires 12 <= t < 16
    ensures NextPrime(Prime(t), Prime(t + 1))
  {
    hide NextPrime, IsPrime;
    NextIs(41, 43);
    NextIs(43, 47);
    NextIs(47, 53);
    NextIs(53, 59);
  }

  lemma Primes4(t: nat)
    requires 16 <= t < 20
    ensures NextPrime(Prime(t), Prime(t + 1))
  {
    hide NextPrime, IsPrime;
    NextIs(59, 61);
    NextIs(61, 67);
    NextIs(67, 71);
    NextIs(71, 73);
  }

  lemma Primes5(t: nat)
    requires 20 <= t < 24
    ensures NextPrime(Prime(t), Prime(t + 1))
  {
    hide NextPrime, IsPrime;
    NextIs(73, 79);
    NextIs(79, 83);
    NextIs(83, 89);
    NextIs(89, 97);
  }

  lemma Primes6(t: nat)
    requires 24 <= t < 28
    ensures NextPrime(Prime(t), Prime(t + 1))
  {
    hide NextPrime, IsPrime;
    NextIs(97, 101);
    NextIs(101, 103);
    NextIs(103, 107);
    NextIs(107, 109);
  }

  lemma Primes7(t: nat)
    requires 28 <= t < 32
    ensures NextPrime(Prime(t), Prime(t + 1))
  {
    hide NextPrime, IsPrime;
    NextIs(109, 113);
    NextIs(113, 127);
    NextIs(127, 131);
    NextIs(131, 137);
  }

  lemma Primes8(t: nat)
    requires 32 <= t < 36
    ensures NextPrime(Prime(t), Prime(t + 1))
  {
    hide NextPrime, IsPrime;
    NextIs(137, 139);
    NextIs(139, 149);
    NextIs(149, 151);
    NextIs(151, 157);
  }

  lemma Primes9(t: nat)
    requires 36 <= t < 40
    ensures NextPrime(Prime(t), Prime(t + 1))
  {
    hide NextPrime, IsPrime;
    NextIs(157, 163);
    NextIs(163, 167);
    NextIs(167, 173);
    NextIs(173, 179);
  }

  lemma Primes10(t: nat)
    requires 40 <= t < 44
    ensures NextPrime(Prime(t), Prime(t + 1))
  {
    hide NextPrime, IsPrime;
    NextIs(179, 181);
    NextIs(181, 191);
    NextIs(191, 193);
    NextIs(193, 197);
  }

  lemma Primes11(t: nat)
    requires 44 <= t < 48
    ensures NextPrime(Prime(t), Prime(t + 1))
  {
    hide NextPrime, IsPrime;
    NextIs(197, 199);
    NextIs(199, 211);
    NextIs(211, 223);
    NextIs(223, 227);
  }

  lemma Primes12(t: nat)
    requires 48 <= t < 52
    ensures NextPrime(Prime(t), Prime(t + 1))
  {
    hide NextPrime, IsPrime;
    NextIs(227, 229);
    NextIs(229, 233);
    NextIs(233, 239);
    NextIs(239, 241);
  }

  lemma Primes13(t: nat)
    requires 52 <= t < 56
    ensures NextPrime(Prime(t), Prime(t + 1))
  {
    hide NextPrime, IsPrime;
    NextIs(241, 251);
    NextIs(251, 257);
    NextIs(257, 263);
    NextIs(263, 269);
  }

  lemma Primes14(t: nat)
    requires 56 <= t < 60
    ensures NextPrime(Prime(t), Prime(t + 1))
  {
    hide NextPrime, IsPrime;
    NextIs(269, 271);
    NextIs(271, 277);
    NextIs(277, 281);
    NextIs(281, 283);
  }

  lemma Primes15(t: nat)
    requires 60 <= t < 63
    ensures NextPrime(Prime(t), Prime(t + 1))
  {
    hide NextPrime, IsPrime;
    NextIs(283, 293);
    NextIs(293, 307);
    NextIs(307, 311);
  }

  // ----- Roots -----

  /** The word is the first 32 bits of the fractional part of the square root of p. */
  ghost predicate SquareRootWord(p: nat, w: word) {
    exists a: nat :: SquareRoot(p, a * 0x1_0000_0000 + w as int)
  }

  /** x is the square root of p, times 2^32 and rounded down. */
  ghost predicate SquareRoot(p: nat, x: nat) {
    x * x <= p * 0x1_0000_0000_0000_0000 < (x + 1) * (x + 1)
  }

  ghost predicate CubeRootWord(p: nat, w: word) {
    exists a: nat :: CubeRoot(p, a * 0x1_0000_0000 + w as int)
  }

  ghost predicate CubeRoot(p: nat, x: nat) {
    x * x * x <= p * 0x1_0000_0000_0000_0000_0000_0000 < (x + 1) * (x + 1) * (x + 1)
  }

  lemma IsSquareRootWord(p: nat, a: nat, w: word)
    requires SquareRoot(p, a * 0x1_0000_0000 + w as int)
    ensures SquareRootWord(p, w)
  {
    hide SquareRoot;
  }

  lemma IsCubeRootWord(p: nat, a: nat, w: word)
    requires CubeRoot(p, a * 0x1_0000_0000 + w as int)
    ensures CubeRootWord(p, w)
  {
    hide CubeRoot;
  }

  /** The initial hash value: square roots of the first eight primes. */
  lemma InitialRoots()
    ensures var r := Initial();
      && SquareRootWord(Prime(0), r.a) && SquareRootWord(Prime(1), r.b) && SquareRootWord(Prime(2), r.c)
      && SquareRootWord(Prime(3), r.d) && SquareRootWord(Prime(4), r.e) && SquareRootWord(Prime(5), r.f)
      && SquareRootWord(Prime(6), r.g) && SquareRootWord(Prime(7), r.h)
  {
    hide SquareRootWord;
    var r := Initial();
    IsSquareRootWord(2, 1, r.a);
    IsSquareRootWord(3, 1, r.b);
    IsSquareRootWord(5, 2, r.c);
    IsSquareRootWord(7, 2, r.d);
    IsSquareRootWord(11, 3, r.e);
    IsSquareRootWord(13, 3, r.f);
    IsSquareRootWord(17, 4, r.g);
    IsSquareRootWord(19, 4, r.h);
  }

  /** The constants of the rounds: cube roots of the first 64 primes. */
  lemma ConstantRoots(t: nat)
    requires t < 64
    ensures CubeRootWord(Prime(t), K(t))
  {
    hide CubeRootWord;
    match t / 4
    case 0 => Roots0(t);
    case 1 => Roots1(t);
    case 2 => Roots2(t);
    case 3 => Roots3(t);
    case 4 => Roots4(t);
    case 5 => Roots5(t);
    case 6 => Roots6(t);
    case 7 => Roots7(t);
    case 8 => Roots8(t);
    case 9 => Roots9(t);
    case 10 => Roots10(t);
    case 11 => Roots11(t);
    case 12 => Roots12(t);
    case 13 => Roots13(t);
    case 14 => Roots14(t);
    case _ => Roots15(t);
  }

  lemma Roots0(t: nat)
    requires 0 <= t < 4
    ensures CubeRootWord(Prime(t), K(t))
  {
    hide CubeRootWord;
    IsCubeRootWord(2, 1, K(0));
    IsCubeRootWord(3, 1, K(1));
    IsCubeRootWord(5, 1, K(2));
    IsCubeRootWord(7, 1, K(3));
  }

  lemma Roots1(t: nat)
    requires 4 <= t < 8
    ensures CubeRootWord(Prime(t), K(t))
  {
    hide CubeRootWord;
    IsCubeRootWord(11, 2, K(4));
    IsCubeRootWord(13, 2, K(5));
    IsCubeRootWord(17, 2, K(6));
    IsCubeRootWord(19, 2, K(7));
  }

  lemma Roots2(t: nat)
    requires 8 <= t < 12
    ensures CubeRootWord(Prime(t), K(t))
  {
    hide CubeRootWord;
    IsCubeRootWord(23, 2, K(8));
    IsCubeRootWord(29, 3, K(9));
    IsCubeRootWord(31, 3, K(10));
    IsCubeRootWord(37, 3, K(11));
  }

  lemma Roots3(t: nat)
    requires 12 <= t < 16
    ensures CubeRootWord(Prime(t), K(t))
  {
    hide CubeRootWord;
    IsCubeRootWord(41, 3, K(12));
    IsCubeRootWord(43, 3, K(13));
    IsCubeRootWord(47, 3, K(14));
    IsCubeRootWord(53, 3, K(15));
  }

  lemma Roots4(t: nat)
    requires 16 <= t < 20
    ensures CubeRootWord(Prime(t), K(t))
  {
    hide CubeRootWord;
    IsCubeRootWord(59, 3, K(16));
    IsCubeRootWord(61, 3, K(17));
    IsCubeRootWord(67, 4, K(18));
    IsCubeRootWord(71, 4, K(19));
  }

  lemma Roots5(t: nat)
    requires 20 <= t < 24
    ensures CubeRootWord(Prime(t), K(t))
  {
    hide CubeRootWord;
    IsCubeRootWord(73, 4, K(20));
    IsCubeRootWord(79, 4, K(21));
    IsCubeRootWord(83, 4, K(22));
    IsCubeRootWord(89, 4, K(23));
  }

  lemma Roots6(t: nat)
    requires 24 <= t < 28
    ensures CubeRootWord(Prime(t), K(t))
  {
    hide CubeRootWord;
    IsCubeRootWord(97, 4, K(24));
    IsCubeRootWord(101, 4, K(25));
    IsCubeRootWord(103, 4, K(26));
    IsCubeRootWord(107, 4, K(27));
  }

  lemma Roots7(t: nat)
    requires 28 <= t < 32
    ensures CubeRootWord(Prime(t), K(t))
  {
    hide CubeRootWord;
    IsCubeRootWord(109, 4, K(28));
    IsCubeRootWord(113, 4, K(29));
    IsCubeRootWord(127, 5, K(30));
    IsCubeRootWord(131, 5, K(31));
  }

  lemma Roots8(t: nat)
    requires 32 <= t < 36
    ensures CubeRootWord(Prime(t), K(t))
  {
    hide CubeRootWord;
    IsCubeRootWord(137, 5, K(32));
    IsCubeRootWord(139, 5, K(33));
    IsCubeRootWord(149, 5, K(34));
    IsCubeRootWord(151, 5, K(35));
  }

  lemma Roots9(t: nat)
    requires 36 <= t < 40
    ensures CubeRootWord(Prime(t), K(t))
  {
    hide CubeRootWord;
    IsCubeRootWord(157, 5, K(36));
    IsCubeRootWord(163, 5, K(37));
    IsCubeRootWord(167, 5, K(38));
    IsCubeRootWord(173, 5, K(39));
  }

  lemma Roots10(t: nat)
    requires 40 <= t < 44
    ensures CubeRootWord(Prime(t), K(t))
  {
    hide CubeRootWord;
    IsCubeRootWord(179, 5, K(40));
    IsCubeRootWord(181, 5, K(41));
    IsCubeRootWord(191, 5, K(42));
    IsCubeRootWord(193, 5, K(43));
  }

  lemma Roots11(t: nat)
    requires 44 <= t < 48
    ensures CubeRootWord(Prime(t), K(t))
  {
    hide CubeRootWord;
    IsCubeRootWord(197, 5, K(44));
    IsCubeRootWord(199, 5, K(45));
    IsCubeRootWord(211, 5, K(46));
    IsCubeRootWord(223, 6, K(47));
  }

  lemma Roots12(t: nat)
    requires 48 <= t < 52
    ensures CubeRootWord(Prime(t), K(t))
  {
    hide CubeRootWord;
    IsCubeRootWord(227, 6, K(48));
    IsCubeRootWord(229, 6, K(49));
    IsCubeRootWord(233, 6, K(50));
    IsCubeRootWord(239, 6, K(51));
  }

  lemma Roots13(t: nat)
    requires 52 <= t < 56
    ensures CubeRootWord(Prime(t), K(t))
  {
    hide CubeRootWord;
    IsCubeRootWord(241, 6, K(52));
    IsCubeRootWord(251, 6, K(53));
    IsCubeRootWord(257, 6, K(54));
    IsCubeRootWord(263, 6, K(55));
  }

  lemma Roots14(t: nat)
    requires 56 <= t < 60
    ensures CubeRootWord(Prime(t), K(t))
  {
    hide CubeRootWord;
    IsCubeRootWord(269, 6, K(56));
    IsCubeRootWord(271, 6, K(57));
    IsCubeRootWord(277, 6, K(58));
    IsCubeRootWord(281, 6, K(59));
  }

  lemma Roots15(t: nat)
    requires 60 <= t < 64
    ensures CubeRootWord(Prime(t), K(t))
  {
    hide CubeRootWord;
    IsCubeRootWord(283, 6, K(60));
    IsCubeRootWord(293, 6, K(61));
    IsCubeRootWord(307, 6, K(62));
    IsCubeRootWord(311, 6, K(63));
  }
}
