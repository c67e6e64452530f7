/** Where the constants of SHA-256 and SHA-1 come from (sections 4.2.1, 4.2.2 and 5.3.3 of
    FIPS 180-4): roots of the first primes. */
module ShaConstants {
  import opened Arith
  import opened BigNum
  import opened Sha1
  import opened Sha256

  function Rest(n: nat, d: nat): (r: nat)
    requires d > 0
  {
    n % d
  }

  ghost predicate Prime(n: nat) {
    n >= 2 && forall d :: 2 <= d < n ==> Rest(n, d) != 0
  }

  // The primes in their order.
  ghost predicate NextPrime(p: nat, q: nat) {
    p < q && Prime(q) && forall n :: p < n < q ==> !Prime(n)
  }

  // The first 32 bits of the fraction of a root of p.
  ghost predicate CubeRoot(p: nat, k: Word) {
    exists n: nat :: Cube(n * 0x1_0000_0000 + k) <= p * 0x1_0000_0000_0000_0000_0000_0000 < Cube(n * 0x1_0000_0000 + k + 1)
  }

  ghost predicate SquareRoot(p: nat, k: Word) {
    exists n: nat :: Sqr(n * 0x1_0000_0000 + k) <= p * 0x1_0000_0000_0000_0000 < Sqr(n * 0x1_0000_0000 + k + 1)
  }

  function Cube(n: nat): (c: nat) {
    n * n * n
  }

  function Sqr(n: nat): (s: nat) {
    n * n
  }

  const PRIMES: seq<nat> :=
    [2, 3, 5, 7, 11, 13, 17, 19]
    + [23, 29, 31, 37, 41, 43, 47, 53]
    + [59, 61, 67, 71, 73, 79, 83, 89]
    + [97, 101, 103, 107, 109, 113, 127, 131]
    + [137, 139, 149, 151, 157, 163, 167, 173]
    + [179, 181, 191, 193, 197, 199, 211, 223]
    + [227, 229, 233, 239, 241, 251, 257, 263]
    + [269, 271, 277, 281, 283, 293, 307, 311]

  function PrimeAt(t: nat): (p: nat)
    requires t < 64
  {
    PRIMES[t]
  }

  function KeyAt(t: nat): (k: Word)
    requires t < 64
  {
    K[t]
  }

  // Seven divisors decide below 19 * 19.
  predicate Sieved(n: nat) {
    n % 2 != 0 && n % 3 != 0 && n % 5 != 0 && n % 7 != 0 && n % 11 != 0 && n % 13 != 0 && n % 17 != 0
  }

  lemma SievedPrime(n: nat)
    requires 17 < n < 361 && Sieved(n)
    ensures Prime(n)
  {
    forall d | 2 <= d < n
      ensures Rest(n, d) != 0
    {
      if Rest(n, d) == 0 {
        var e := n / d;
        assert n == d * e;
        SmallFactor(n, d, e);
      }
    }
  }

  // One of two factors is below 19, and then one of the seven divides it.
  lemma SmallFactor(n: nat, d: nat, e: nat)
    requires n == d * e && 2 <= d < n < 361
    ensures !Sieved(n)
  {
    if d < 19 {
      Sieve(d, e);
    } else {
      OtherSmall(d, e);
      Sieve(e, d);
      assert d * e == e * d;
    }
  }

  lemma OtherSmall(d: nat, e: nat)
    requires 19 <= d < d * e < 361
    ensures 2 <= e < 19
  {
    if e >= 19 {
      MulMono(19, e, d);
    }
    if e <= 1 {
      MulMono(e, 1, d);
    }
  }

  lemma Sieve(a: nat, b: nat)
    requires 2 <= a < 19
    ensures !Sieved(a * b)
  {
    if a % 2 == 0 {
      Multiple(a, 2, b);
    } else if a % 3 == 0 {
      Multiple(a, 3, b);
    } else if a % 5 == 0 {
      Multiple(a, 5, b);
    } else {
      Multiple(a, a, b);
    }
  }

  lemma Multiple(a: nat, d: nat, b: nat)
    requires d > 0 && a % d == 0
    ensures (a * b) % d == 0
  {
    var q := a / d;
    assert a == q * d;
    assert a * b == (q * b) * d;
    MultipleRest(q * b, d);
  }

  lemma MultipleRest(q: nat, d: nat)
    requires d > 0
    ensures (q * d) % d == 0
  {
    DivModUnique(q * d, q, 0, d);
  }

  lemma NotPrime(n: nat)
    requires n > 17 && !Sieved(n)
    ensures !Prime(n)
  {
    assert Rest(n, 2) == 0 || Rest(n, 3) == 0 || Rest(n, 5) == 0 || Rest(n, 7) == 0 || Rest(n, 11) == 0 || Rest(n, 13) == 0 || Rest(n, 17) == 0;
  }

  lemma FirstPrimes()
    ensures Prime(2) && NextPrime(2, 3) && NextPrime(3, 5) && NextPrime(5, 7) && NextPrime(7, 11) && NextPrime(11, 13) && NextPrime(13, 17)
    ensures NextPrime(17, 19)
  {
    assert Rest(4, 2) == 0 && Rest(6, 2) == 0 && Rest(8, 2) == 0 && Rest(9, 3) == 0 && Rest(10, 2) == 0 && Rest(12, 2) == 0;
    assert Rest(14, 2) == 0 && Rest(15, 3) == 0 && Rest(16, 2) == 0 && Rest(18, 2) == 0;
  }

  // None of the k odd numbers from n on is prime.
  predicate NoneFrom(n: nat, k: nat)
    decreases k, n
  {
    k == 0 || (!Sieved(n) && NoneFrom(n + 2, k - 1))
  }

  lemma {:induction false} NoneSieved(n: nat, k: nat)
    requires NoneFrom(n, k) && n % 2 == 1
    ensures forall i :: n <= i < n + 2 * k && i % 2 == 1 ==> !Sieved(i)
    decreases k
  {
    hide Sieved;
    if k > 0 {
      NoneSieved(n + 2, k - 1);
    }
  }

  lemma EvenSieved(i: nat)
    requires i % 2 == 0
    ensures !Sieved(i)
  {
  }

  // q is the next prime after p, with k odd numbers between them.
  lemma After(p: nat, n: nat, k: nat, q: nat)
    requires 17 < p && p % 2 == 1 && n == p + 2 && q == n + 2 * k && q < 361 && Sieved(q) && NoneFrom(n, k)
    ensures NextPrime(p, q)
  {
    hide Sieved, NoneFrom;
    SievedPrime(q);
    NoneSieved(n, k);
    forall i | p < i < q
      ensures !Prime(i)
    {
      if i % 2 == 0 {
        EvenSieved(i);
      }
      NotPrime(i);
    }
  }

  lemma CubeRootIs(p: nat, x: nat, k: Word)
    requires x % 0x1_0000_0000 == k && x * x * x <= p * 0x1_0000_0000_0000_0000_0000_0000 < (x + 1) * (x + 1) * (x + 1)
    ensures CubeRoot(p, k)
  {
    assert x == (x / 0x1_0000_0000) * 0x1_0000_0000 + k;
  }

  lemma SquareRootIs(p: nat, x: nat, k: Word)
    requires x % 0x1_0000_0000 == k && x * x <= p * 0x1_0000_0000_0000_0000 < (x + 1) * (x + 1)
    ensures SquareRoot(p, k)
  {
    assert x == (x / 0x1_0000_0000) * 0x1_0000_0000 + k;
  }

  lemma Row0()
    ensures PrimeAt(0) == 2
    ensures forall t :: 0 <= t < 4 ==> CubeRoot(PrimeAt(t), KeyAt(t))
    ensures forall t :: 1 <= t < 4 ==> NextPrime(PrimeAt(t - 1), PrimeAt(t))
  {
    hide CubeRoot, Cube, NextPrime;
    FirstPrimes();
    CubeRootIs(2, 0x1_428a2f98, 0x428a2f98);
    CubeRootIs(3, 0x1_71374491, 0x71374491);
    CubeRootIs(5, 0x1_b5c0fbcf, 0xb5c0fbcf);
    CubeRootIs(7, 0x1_e9b5dba5, 0xe9b5dba5);
  }

  lemma Row4()
    ensures forall t :: 4 <= t < 8 ==> CubeRoot(PrimeAt(t), KeyAt(t))
    ensures forall t :: 4 <= t < 8 ==> NextPrime(PrimeAt(t - 1), PrimeAt(t))
  {
    hide CubeRoot, Cube, NextPrime;
    FirstPrimes();
    CubeRootIs(11, 0x2_3956c25b, 0x3956c25b);
    CubeRootIs(13, 0x2_59f111f1, 0x59f111f1);
    CubeRootIs(17, 0x2_923f82a4, 0x923f82a4);
    CubeRootIs(19, 0x2_ab1c5ed5, 0xab1c5ed5);
  }

  lemma Row8()
    ensures forall t :: 8 <= t < 12 ==> CubeRoot(PrimeAt(t), KeyAt(t))
    ensures forall t :: 8 <= t < 12 ==> NextPrime(PrimeAt(t - 1), PrimeAt(t))
  {
    hide CubeRoot, Cube, NextPrime;
    CubeRootIs(23, 0x2_d807aa98, 0xd807aa98); After(19, 21, 1, 23);
    CubeRootIs(29, 0x3_12835b01, 0x12835b01); After(23, 25, 2, 29);
    CubeRootIs(31, 0x3_243185be, 0x243185be); After(29, 31, 0, 31);
    CubeRootIs(37, 0x3_550c7dc3, 0x550c7dc3); After(31, 33, 2, 37);
  }

  lemma Row12()
    ensures forall t :: 12 <= t < 16 ==> CubeRoot(PrimeAt(t), KeyAt(t))
    ensures forall t :: 12 <= t < 16 ==> NextPrime(PrimeAt(t - 1), PrimeAt(t))
  {
    hide CubeRoot, Cube, NextPrime;
    CubeRootIs(41, 0x3_72be5d74, 0x72be5d74); After(37, 39, 1, 41);
    CubeRootIs(43, 0x3_80deb1fe, 0x80deb1fe); After(41, 43, 0, 43);
    CubeRootIs(47, 0x3_9bdc06a7, 0x9bdc06a7); After(43, 45, 1, 47);
    CubeRootIs(53, 0x3_c19bf174, 0xc19bf174); After(47, 49, 2, 53);
  }

  lemma Row16()
    ensures forall t :: 16 <= t < 20 ==> CubeRoot(PrimeAt(t), KeyAt(t))
    ensures forall t :: 16 <= t < 20 ==> NextPrime(PrimeAt(t - 1), PrimeAt(t))
  {
    hide CubeRoot, Cube, NextPrime;
    CubeRootIs(59, 0x3_e49b69c1, 0xe49b69c1); After(53, 55, 2, 59);
    CubeRootIs(61, 0x3_efbe4786, 0xefbe4786); After(59, 61, 0, 61);
    CubeRootIs(67, 0x4_0fc19dc6, 0x0fc19dc6); After(61, 63, 2, 67);
    CubeRootIs(71, 0x4_240ca1cc, 0x240ca1cc); After(67, 69, 1, 71);
  }

  lemma Row20()
    ensures forall t :: 20 <= t < 24 ==> CubeRoot(PrimeAt(t), KeyAt(t))
    ensures forall t :: 20 <= t < 24 ==> NextPrime(PrimeAt(t - 1), PrimeAt(t))
  {
    hide CubeRoot, Cube, NextPrime;
    CubeRootIs(73, 0x4_2de92c6f, 0x2de92c6f); After(71, 73, 0, 73);
    CubeRootIs(79, 0x4_4a7484aa, 0x4a7484aa); After(73, 75, 2, 79);
    CubeRootIs(83, 0x4_5cb0a9dc, 0x5cb0a9dc); After(79, 81, 1, 83);
    CubeRootIs(89, 0x4_76f988da, 0x76f988da); After(83, 85, 2, 89);
  }

  lemma Row24()
    ensures forall t :: 24 <= t < 28 ==> CubeRoot(PrimeAt(t), KeyAt(t))
    ensures forall t :: 24 <= t < 28 ==> NextPrime(PrimeAt(t - 1), PrimeAt(t))
  {
    hide CubeRoot, Cube, NextPrime;
    CubeRootIs(97, 0x4_983e5152, 0x983e5152); After(89, 91, 3, 97);
    CubeRootIs(101, 0x4_a831c66d, 0xa831c66d); After(97, 99, 1, 101);
    CubeRootIs(103, 0x4_b00327c8, 0xb00327c8); After(101, 103, 0, 103);
    CubeRootIs(107, 0x4_bf597fc7, 0xbf597fc7); After(103, 105, 1, 107);
  }

  lemma Row28()
    ensures forall t :: 28 <= t < 32 ==> CubeRoot(PrimeAt(t), KeyAt(t))
    ensures forall t :: 28 <= t < 32 ==> NextPrime(PrimeAt(t - 1), PrimeAt(t))
  {
    hide CubeRoot, Cube, NextPrime;
    CubeRootIs(109, 0x4_c6e00bf3, 0xc6e00bf3); After(107, 109, 0, 109);
    CubeRootIs(113, 0x4_d5a79147, 0xd5a79147); After(109, 111, 1, 113);
    CubeRootIs(127, 0x5_06ca6351, 0x06ca6351); After(113, 115, 6, 127);
    CubeRootIs(131, 0x5_14292967, 0x14292967); After(127, 129, 1, 131);
  }

  lemma Row32()
    ensures forall t :: 32 <= t < 36 ==> CubeRoot(PrimeAt(t), KeyAt(t))
    ensures forall t :: 32 <= t < 36 ==> NextPrime(PrimeAt(t - 1), PrimeAt(t))
  {
    hide CubeRoot, Cube, NextPrime;
    CubeRootIs(137, 0x5_27b70a85, 0x27b70a85); After(131, 133, 2, 137);
    CubeRootIs(139, 0x5_2e1b2138, 0x2e1b2138); After(137, 139, 0, 139);
    CubeRootIs(149, 0x5_4d2c6dfc, 0x4d2c6dfc); After(139, 141, 4, 149);
    CubeRootIs(151, 0x5_53380d13, 0x53380d13); After(149, 151, 0, 151);
  }

  lemma Row36()
    ensures forall t :: 36 <= t < 40 ==> CubeRoot(PrimeAt(t), KeyAt(t))
    ensures forall t :: 36 <= t < 40 ==> NextPrime(PrimeAt(t - 1), PrimeAt(t))
  {
    hide CubeRoot, Cube, NextPrime;
    CubeRootIs(157, 0x5_650a7354, 0x650a7354); After(151, 153, 2, 157);
    CubeRootIs(163, 0x5_766a0abb, 0x766a0abb); After(157, 159, 2, 163);
    CubeRootIs(167, 0x5_81c2c92e, 0x81c2c92e); After(163, 165, 1, 167);
    CubeRootIs(173, 0x5_92722c85, 0x92722c85); After(167, 169, 2, 173);
  }

  lemma Row40()
    ensures forall t :: 40 <= t < 44 ==> CubeRoot(PrimeAt(t), KeyAt(t))
    ensures forall t :: 40 <= t < 44 ==> NextPrime(PrimeAt(t - 1), PrimeAt(t))
  {
    hide CubeRoot, Cube, NextPrime;
    CubeRootIs(179, 0x5_a2bfe8a1, 0xa2bfe8a1); After(173, 175, 2, 179);
    CubeRootIs(181, 0x5_a81a664b, 0xa81a664b); After(179, 181, 0, 181);
    CubeRootIs(191, 0x5_c24b8b70, 0xc24b8b70); After(181, 183, 4, 191);
    CubeRootIs(193, 0x5_c76c51a3, 0xc76c51a3); After(191, 193, 0, 193);
  }

  lemma Row44()
    ensures forall t :: 44 <= t < 48 ==> CubeRoot(PrimeAt(t), KeyAt(t))
    ensures forall t :: 44 <= t < 48 ==> NextPrime(PrimeAt(t - 1), PrimeAt(t))
  {
    hide CubeRoot, Cube, NextPrime;
    CubeRootIs(197, 0x5_d192e819, 0xd192e819); After(193, 195, 1, 197);
    CubeRootIs(199, 0x5_d6990624, 0xd6990624); After(197, 199, 0, 199);
    CubeRootIs(211, 0x5_f40e3585, 0xf40e3585); After(199, 201, 5, 211);
    CubeRootIs(223, 0x6_106aa070, 0x106aa070); After(211, 213, 5, 223);
  }

  lemma Row48()
    ensures forall t :: 48 <= t < 52 ==> CubeRoot(PrimeAt(t), KeyAt(t))
    ensures forall t :: 48 <= t < 52 ==> NextPrime(PrimeAt(t - 1), PrimeAt(t))
  {
    hide CubeRoot, Cube, NextPrime;
    CubeRootIs(227, 0x6_19a4c116, 0x19a4c116); After(223, 225, 1, 227);
    CubeRootIs(229, 0x6_1e376c08, 0x1e376c08); After(227, 229, 0, 229);
    CubeRootIs(233, 0x6_2748774c, 0x2748774c); After(229, 231, 1, 233);
    CubeRootIs(239, 0x6_34b0bcb5, 0x34b0bcb5); After(233, 235, 2, 239);
  }

  lemma Row52()
    ensures forall t :: 52 <= t < 56 ==> CubeRoot(PrimeAt(t), KeyAt(t))
    ensures forall t :: 52 <= t < 56 ==> NextPrime(PrimeAt(t - 1), PrimeAt(t))
  {
    hide CubeRoot, Cube, NextPrime;
    CubeRootIs(241, 0x6_391c0cb3, 0x391c0cb3); After(239, 241, 0, 241);
    CubeRootIs(251, 0x6_4ed8aa4a, 0x4ed8aa4a); After(241, 243, 4, 251);
    CubeRootIs(257, 0x6_5b9cca4f, 0x5b9cca4f); After(251, 253, 2, 257);
    CubeRootIs(263, 0x6_682e6ff3, 0x682e6ff3); After(257, 259, 2, 263);
  }

  lemma Row56()
    ensures forall t :: 56 <= t < 60 ==> CubeRoot(PrimeAt(t), KeyAt(t))
    ensures forall t :: 56 <= t < 60 ==> NextPrime(PrimeAt(t - 1), PrimeAt(t))
  {
    hide CubeRoot, Cube, NextPrime;
    CubeRootIs(269, 0x6_748f82ee, 0x748f82ee); After(263, 265, 2, 269);
    CubeRootIs(271, 0x6_78a5636f, 0x78a5636f); After(269, 271, 0, 271);
    CubeRootIs(277, 0x6_84c87814, 0x84c87814); After(271, 273, 2, 277);
    CubeRootIs(281, 0x6_8cc70208, 0x8cc70208); After(277, 279, 1, 281);
  }

  lemma Row60()
    ensures forall t :: 60 <= t < 64 ==> CubeRoot(PrimeAt(t), KeyAt(t))
    ensures forall t :: 60 <= t < 64 ==> NextPrime(PrimeAt(t - 1), PrimeAt(t))
  {
    hide CubeRoot, Cube, NextPrime;
    CubeRootIs(283, 0x6_90befffa, 0x90befffa); After(281, 283, 0, 283);
    CubeRootIs(293, 0x6_a4506ceb, 0xa4506ceb); After(283, 285, 4, 293);
    CubeRootIs(307, 0x6_bef9a3f7, 0xbef9a3f7); After(293, 295, 6, 307);
    CubeRootIs(311, 0x6_c67178f2, 0xc67178f2); After(307, 309, 1, 311);
  }

  // Word t is the root of the t-th prime, for every t.
  lemma KeysAreRoots(t: nat)
    requires t < 64
    ensures CubeRoot(PRIMES[t], K[t])
    ensures PRIMES[0] == 2 && (t > 0 ==> NextPrime(PRIMES[t - 1], PRIMES[t]))
  {
    hide CubeRoot, NextPrime;
    FirstPrimes();
    Row0();
    Row4();
    Row8();
    Row12();
    Row16();
    Row20();
    Row24();
    Row28();
    Row32();
    Row36();
    Row40();
    Row44();
    Row48();
    Row52();
    Row56();
    Row60();
    if t > 0 {
      assert PrimeAt(t - 1) == PRIMES[t - 1];
    }
    assert PrimeAt(0) == PRIMES[0] && PrimeAt(t) == PRIMES[t] && KeyAt(t) == K[t];
  }

  // The initial state of SHA-256 is the square roots of the first eight.
  lemma InitialIsRoots(t: nat)
    requires t < 8
    ensures SquareRoot(PRIMES[t], INITIAL[t])
  {
    hide SquareRoot, Sqr;
    SquareRootIs(2, 0x1_6a09e667, 0x6a09e667);
    SquareRootIs(3, 0x1_bb67ae85, 0xbb67ae85);
    SquareRootIs(5, 0x2_3c6ef372, 0x3c6ef372);
    SquareRootIs(7, 0x2_a54ff53a, 0xa54ff53a);
    SquareRootIs(11, 0x3_510e527f, 0x510e527f);
    SquareRootIs(13, 0x3_9b05688c, 0x9b05688c);
    SquareRootIs(17, 0x4_1f83d9ab, 0x1f83d9ab);
    SquareRootIs(19, 0x4_5be0cd19, 0x5be0cd19);
  }

  // The constants of SHA-1 are the square roots of 2, 3, 5 and 10, times 2^30.
  lemma Keys1AreRoots(t: nat)
    ensures var c := if t < 20 then 2 else if t < 40 then 3 else if t < 60 then 5 else 10;
            Sqr(K1(t)) <= c * 0x1000_0000_0000_0000 < Sqr(K1(t) + 1)
  {
  }
}
