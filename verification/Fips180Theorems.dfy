/** What the words of the module Fips180 are, bit by bit, and where its constants come from
    (FIPS 180-4, sections 4.1.2, 4.2.2 and 5.3.3). */
module Fips180Theorems {
  import opened U64
  import opened Fips180
  import opened Quotients

  // ---- Bits of a number ---------------------------------------------------------------------------

  /** Bit i of a number, the lowest being bit 0. */
  function Bit(x: nat, i: nat): nat { Shr(x, i) % 2 }

  lemma BitNext(x: nat, i: nat)
    ensures Bit(x, 0) == x % 2 && Bit(x, i + 1) == Bit(x / 2, i) && Bit(x, i) < 2
  {}

  /** A word is known by its bits. */
  lemma {:induction false} BitsDecide(x: nat, y: nat, n: nat)
    requires x < Pow2(n) && y < Pow2(n) && forall i :: 0 <= i < n ==> Bit(x, i) == Bit(y, i)
    ensures x == y
  {
    if n == 0 {
    } else {
      hide Bit;
      BitNext(x, 0); BitNext(y, 0);
      assert Bit(x, 0) == Bit(y, 0);
      forall i | 0 <= i < n - 1 ensures Bit(x / 2, i) == Bit(y / 2, i) {
        BitNext(x, i); BitNext(y, i);
        assert Bit(x, i + 1) == Bit(y, i + 1);
      }
      BitsDecide(x / 2, y / 2, n - 1);
    }
  }

  lemma XorBit(a: nat, b: nat, i: nat)
    ensures Bit(Xor(a, b), i) == (Bit(a, i) + Bit(b, i)) % 2
  {
    hide Xor, Shr;
    XorShr(a, b, i);
    XorParts(Shr(a, i), Shr(b, i));
  }

  lemma AndUnfold(a: nat, b: nat)
    ensures And(a, b) == 2 * And(a / 2, b / 2) + (a % 2) * (b % 2)
  {}

  lemma BitProduct(a: nat, b: nat)
    ensures 0 <= (a % 2) * (b % 2) < 2
  {}

  lemma AndParts(a: nat, b: nat)
    ensures And(a, b) / 2 == And(a / 2, b / 2) && And(a, b) % 2 == (a % 2) * (b % 2)
  {
    hide And;
    AndUnfold(a, b); BitProduct(a, b);
    HalfAndBit(And(a, b), And(a / 2, b / 2), (a % 2) * (b % 2));
  }

  lemma {:induction false} AndBit(a: nat, b: nat, i: nat)
    ensures Bit(And(a, b), i) == Bit(a, i) * Bit(b, i)
  {
    AndParts(a, b);
    hide And;
    if i > 0 { AndBit(a / 2, b / 2, i - 1); }
  }

  lemma {:induction false} ComplementBit(x: nat, n: nat, i: nat)
    requires x < Pow2(n) && i < n
    ensures Bit(Pow2(n) - 1 - x, i) == 1 - Bit(x, i)
  {
    var p := Pow2(n - 1);
    assert (2 * p - 1 - x) / 2 == p - 1 - x / 2;
    if i > 0 { ComplementBit(x / 2, n - 1, i - 1); }
  }

  lemma NotBit(x: u32, i: nat)
    requires i < 32
    ensures Bit(Not32(x), i) == 1 - Bit(x, i)
  {
    hide Bit, Pow2;
    PowerOf32();
    ComplementBit(x, 32, i);
  }

  lemma TwiceAdded(a: nat, c: nat)
    ensures (a + 2 * c) % 2 == a % 2 && (a + 2 * c) / 2 == a / 2 + c
  {}

  lemma TimesPower(b: nat, k: nat)
    requires k > 0
    ensures b * Pow2(k) == 2 * (b * Pow2(k - 1))
  {}

  lemma {:induction false} LowBit(a: nat, b: nat, k: nat, i: nat)
    requires i < k
    ensures Bit(a + b * Pow2(k), i) == Bit(a, i)
  {
    var c := b * Pow2(k - 1);
    TimesPower(b, k); TwiceAdded(a, c);
    if i > 0 { LowBit(a / 2, b, k - 1, i - 1); }
  }

  lemma {:induction false} HighBit(a: nat, b: nat, k: nat, i: nat)
    requires a < Pow2(k)
    ensures Bit(a + b * Pow2(k), k + i) == Bit(b, i)
  {
    if k > 0 {
      var c := b * Pow2(k - 1);
      TimesPower(b, k); TwiceAdded(a, c);
      HighBit(a / 2, b, k - 1, i);
    }
  }

  // ---- The word functions bit by bit -----------------------------------------------------------------

  lemma ShrBit(x: u32, n: nat, i: nat)
    ensures Bit(Shr32(x, n), i) == Bit(x, n + i)
  {
    ShrShr(x, n, i);
  }

  /** ROTR^n moves bit i + n, counted around the word, to place i. */
  lemma RotrBit(x: u32, n: nat, i: nat)
    requires n <= 32 && i < 32
    ensures Bit(Rotr(x, n), i) == Bit(x, (i + n) % 32)
  {
    hide Bit, Pow2;
    var p, q := Pow32At(n), Pow2(32 - n);
    var hi, lo := x / p, x % p;
    QuotientRemainder(x, p);
    RotrHalves(hi, lo, p, q, x);
    if i < 32 - n {
      LowBit(hi, lo, 32 - n, i);
      HighBit(lo, hi, n, i);
    } else {
      HighBit(hi, lo, 32 - n, i - (32 - n));
      LowBit(lo, hi, n, i - (32 - n));
    }
  }

  lemma RotrHalves(hi: nat, lo: nat, p: nat, q: nat, x: nat)
    requires p * q == M32 && x == hi * p + lo && x < M32
    ensures hi < q
  {
    if hi >= q { Larger(hi, q, p); }
  }

  /** Ch takes each bit of y where x has a one, and of z where it has a zero. */
  lemma ChBit(x: u32, y: u32, z: u32, i: nat)
    requires i < 32
    ensures Bit(Ch(x, y, z), i) == if Bit(x, i) == 1 then Bit(y, i) else Bit(z, i)
  {
    hide Bit, And, Xor;
    XorBit(And(x, y), And(Not32(x), z), i);
    AndBit(x, y, i); AndBit(Not32(x), z, i); NotBit(x, i);
    BitNext(x, i); BitNext(y, i); BitNext(z, i);
  }

  /** Maj has a one wherever at least two of the three words have one. */
  lemma MajBit(x: u32, y: u32, z: u32, i: nat)
    ensures Bit(Maj(x, y, z), i) == if Bit(x, i) + Bit(y, i) + Bit(z, i) >= 2 then 1 else 0
  {
    hide Bit, And, Xor;
    XorBit(Xor(And(x, y), And(x, z)), And(y, z), i);
    XorBit(And(x, y), And(x, z), i);
    AndBit(x, y, i); AndBit(x, z, i); AndBit(y, z, i);
    BitNext(x, i); BitNext(y, i); BitNext(z, i);
  }

  /** Exclusive-or of three words. */
  lemma XorOfThree(a: nat, b: nat, c: nat, i: nat)
    ensures Bit(Xor(Xor(a, b), c), i) == (Bit(a, i) + Bit(b, i) + Bit(c, i)) % 2
  {
    hide Bit, Xor;
    XorBit(a, b, i); XorBit(Xor(a, b), c, i);
    BitNext(a, i); BitNext(b, i); BitNext(c, i);
  }

  /** Each sigma is the parity of three bits of the word. */
  lemma SigmaBits(x: u32, i: nat)
    requires i < 32
    ensures Bit(BigSigma0(x), i) == (Bit(x, (i + 2) % 32) + Bit(x, (i + 13) % 32) + Bit(x, (i + 22) % 32)) % 2
    ensures Bit(BigSigma1(x), i) == (Bit(x, (i + 6) % 32) + Bit(x, (i + 11) % 32) + Bit(x, (i + 25) % 32)) % 2
    ensures Bit(SmallSigma0(x), i) == (Bit(x, (i + 7) % 32) + Bit(x, (i + 18) % 32) + Bit(x, i + 3)) % 2
    ensures Bit(SmallSigma1(x), i) == (Bit(x, (i + 17) % 32) + Bit(x, (i + 19) % 32) + Bit(x, i + 10)) % 2
  {
    hide Bit, Xor, Rotr, Shr32;
    RotrBit(x, 2, i); RotrBit(x, 13, i); RotrBit(x, 22, i);
    RotrBit(x, 6, i); RotrBit(x, 11, i); RotrBit(x, 25, i);
    RotrBit(x, 7, i); RotrBit(x, 18, i); ShrBit(x, 3, i);
    RotrBit(x, 17, i); RotrBit(x, 19, i); ShrBit(x, 10, i);
    XorOfThree(Rotr(x, 2), Rotr(x, 13), Rotr(x, 22), i);
    XorOfThree(Rotr(x, 6), Rotr(x, 11), Rotr(x, 25), i);
    XorOfThree(Rotr(x, 7), Rotr(x, 18), Shr32(x, 3), i);
    XorOfThree(Rotr(x, 17), Rotr(x, 19), Shr32(x, 10), i);
  }

  // ---- The constants ---------------------------------------------------------------------------------------

  const PRIMES: seq<nat> :=
    [2, 3, 5, 7, 11, 13, 17, 19, 23, 29, 31, 37, 41, 43, 47, 53] +
    [59, 61, 67, 71, 73, 79, 83, 89, 97, 101, 103, 107, 109, 113, 127, 131] +
    [137, 139, 149, 151, 157, 163, 167, 173, 179, 181, 191, 193, 197, 199, 211, 223] +
    [227, 229, 233, 239, 241, 251, 257, 263, 269, 271, 277, 281, 283, 293, 307, 311]

  ghost predicate Prime(n: nat) {
    n >= 2 && forall d :: 2 <= d < n ==> n % d != 0
  }

  /** None of the primes up to 17, except n itself, divides n. */
  predicate Sieved(n: nat) {
    && (n == 2 || n % 2 != 0) && (n == 3 || n % 3 != 0) && (n == 5 || n % 5 != 0) && (n == 7 || n % 7 != 0)
    && (n == 11 || n % 11 != 0) && (n == 13 || n % 13 != 0) && (n == 17 || n % 17 != 0)
  }

  /** Below 18 * 18 these decide. */
  lemma SmallPrime(n: nat)
    requires 2 <= n < 324
    ensures Prime(n) <==> Sieved(n)
  {
    if Prime(n) {
      hide Prime, Sieved;
      PrimeIsSieved(n);
    }
    if Sieved(n) {
      hide Sieved;
      forall d | 2 <= d < n ensures n % d != 0 {
        if d <= 17 {
          SievedMeans(n, d);
        } else if n % d == 0 {
          OtherDivisor(n, d);
          SievedMeans(n, n / d);
        }
      }
    }
  }

  lemma PrimeIsSieved(n: nat)
    requires Prime(n)
    ensures Sieved(n)
  {
    forall p | p >= 2 && n != p ensures n % p != 0 {
      if p > n { NothingAbove(n, p); }
    }
  }

  lemma NothingAbove(n: nat, p: nat)
    requires 0 < n < p
    ensures n % p != 0
  {}

  lemma SievedMeans(n: nat, d: nat)
    requires Sieved(n) && 2 <= d <= 17 && d < n
    ensures n % d != 0
  {
    if n % d == 0 {
      if d % 2 == 0 {
        FactorOfFactor(n, d, 2, d / 2);
      } else if d % 3 == 0 {
        FactorOfFactor(n, d, 3, d / 3);
      }
    }
  }

  lemma FactorOfFactor(n: nat, d: nat, p: nat, c: nat)
    requires d == p * c && d > 0 && n % d == 0
    ensures n % p == 0
  {
    var e := n / d;
    QuotientRemainder(n, d);
    assert n == p * (e * c) by { assert e * (p * c) == p * (e * c); }
    FactorDivides(n, e * c, p);
  }

  lemma OtherDivisor(n: nat, d: nat)
    requires 17 < d < n < 324 && n % d == 0
    ensures 2 <= n / d <= 17 && n / d != n && n % (n / d) == 0
  {
    QuotientRemainder(n, d);
    FactorSmall(n, d, n / d);
    FactorDivides(n, d, n / d);
  }

  lemma FactorSmall(n: nat, d: nat, e: nat)
    requires n == e * d && 17 < d < n < 324
    ensures 2 <= e <= 17 && e != n
  {
    if e >= 18 { Larger(e, 18, d); }
  }

  lemma FactorDivides(n: nat, d: nat, e: nat)
    requires n == e * d && e > 0
    ensures n % e == 0
  {
    var q, r := n / e, n % e;
    assert n == q * e + r by { QuotientRemainder(n, e); }
    assert e * d == d * e;
    SameQuotient(d, 0, q, r, e);
  }

  /** None of the g numbers p + 2, p + 4, .. that come before q is prime. */
  predicate NoneWithin(p: nat, q: nat, g: nat)
    decreases g
  {
    g == 0 || ((p + 2 * g >= q || !Sieved(p + 2 * g)) && NoneWithin(p, q, g - 1))
  }

  lemma {:induction false} NoneWithinMeans(p: nat, q: nat, g: nat, r: nat)
    requires NoneWithin(p, q, g) && 1 <= r <= g && p + 2 * r < q
    ensures !Sieved(p + 2 * r)
  {
    hide Sieved;
    if r < g { NoneWithinMeans(p, q, g - 1, r); }
  }

  predicate Follows(p: nat, q: nat) {
    p < q <= p + 14 && (q == p + 1 || (p >= 3 && p % 2 == 1)) && Sieved(q) && NoneWithin(p, q, 6)
  }

  /** q is the next prime after p. */
  lemma FollowsMeans(p: nat, q: nat)
    requires 1 <= p && q < 324 && Follows(p, q)
    ensures Prime(q) && forall r :: p < r < q ==> !Prime(r)
  {
    hide Sieved, Prime, NoneWithin;
    SmallPrime(q);
    forall r | p < r < q ensures !Prime(r) {
      if (r - p) % 2 == 0 {
        NoneWithinMeans(p, q, 6, (r - p) / 2);
        SmallPrime(r);
      } else {
        EvenIsNotPrime(r);
      }
    }
  }

  lemma EvenIsNotPrime(n: nat)
    requires n >= 3 && n % 2 == 0
    ensures !Prime(n)
  {}

  function Cube(x: nat): nat { x * x * x }

  function CubeBelow(p: nat): nat {
    if p < 8 then 1 else if p < 27 then 2 else if p < 64 then 3 else if p < 125 then 4 else if p < 216 then 5 else 6
  }

  /** c + f / 2^32 is the cube root of p, cut off after 32 binary places. */
  predicate CubeRoot(p: nat, c: nat, f: nat) {
    Cube(c * M32 + f) <= p * Cube(M32) < Cube(c * M32 + f + 1)
  }

  function Square(x: nat): nat { x * x }

  function SquareBelow(p: nat): nat {
    if p < 4 then 1 else if p < 9 then 2 else if p < 16 then 3 else 4
  }

  /** c + f / 2^32 is the square root of p, cut off after 32 binary places. */
  predicate SquareRoot(p: nat, c: nat, f: nat) {
    Square(c * M32 + f) <= p * Square(M32) < Square(c * M32 + f + 1)
  }

  /** The entry before entry t, or 1. */
  function PrimeBefore(t: nat): nat
    requires t < 64
  {
    if t == 0 then 1 else PRIMES[t - 1]
  }

  predicate Entry(t: nat)
    requires t < 64
  {
    Follows(PrimeBefore(t), PRIMES[t]) && CubeRoot(PRIMES[t], CubeBelow(PRIMES[t]), K[t])
  }

  predicate Entries(lo: nat, hi: nat)
    requires hi <= 64
    decreases hi - lo
  {
    lo >= hi || (Entry(lo) && Entries(lo + 1, hi))
  }

  lemma Entries0To4()
    ensures Entries(0, 4)
  {}

  lemma Entries4To8()
    ensures Entries(4, 8)
  {}

  lemma Entries8To12()
    ensures Entries(8, 12)
  {}

  lemma Entries12To16()
    ensures Entries(12, 16)
  {}

  lemma Entries16To20()
    ensures Entries(16, 20)
  {}

  lemma Entries20To24()
    ensures Entries(20, 24)
  {}

  lemma Entries24To28()
    ensures Entries(24, 28)
  {}

  lemma Entries28To32()
    ensures Entries(28, 32)
  {}

  lemma Entries32To36()
    ensures Entries(32, 36)
  {}

  lemma Entries36To40()
    ensures Entries(36, 40)
  {}

  lemma Entries40To44()
    ensures Entries(40, 44)
  {}

  lemma Entries44To48()
    ensures Entries(44, 48)
  {}

  lemma Entries48To52()
    ensures Entries(48, 52)
  {}

  lemma Entries52To56()
    ensures Entries(52, 56)
  {}

  lemma Entries56To60()
    ensures Entries(56, 60)
  {}

  lemma Entries60To64()
    ensures Entries(60, 64)
  {}

  lemma {:induction false} EntryAt(lo: nat, hi: nat, t: nat)
    requires lo <= t < hi <= 64 && Entries(lo, hi)
    ensures Entry(t)
    decreases hi - lo
  {
    hide Entry;
    if lo < t { EntryAt(lo + 1, hi, t); }
  }

  lemma EveryEntry(t: nat)
    requires t < 64
    ensures Entry(t)
  {
    hide Entry;
    Entries0To4(); Entries4To8(); Entries8To12(); Entries12To16();
    Entries16To20(); Entries20To24(); Entries24To28(); Entries28To32();
    Entries32To36(); Entries36To40(); Entries40To44(); Entries44To48();
    Entries48To52(); Entries52To56(); Entries56To60(); Entries60To64();
    var lo := t / 4 * 4;
    EntryAt(lo, lo + 4, t);
  }

  lemma EntryFollows(t: nat)
    requires t < 64
    ensures Follows(PrimeBefore(t), PRIMES[t]) && 1 <= PrimeBefore(t) && PRIMES[t] < 324
  {
    EveryEntry(t);
    hide CubeRoot, Follows;
    PrimesBelow(t);
    if t > 0 { PrimesBelow(t - 1); }
  }

  lemma PrimesBelow(t: nat)
    requires t < 64
    ensures 2 <= PRIMES[t] < 324
  {}

  /** PRIMES lists the first 64 primes: each is the next one after the one before it. */
  lemma PrimesInOrder(t: nat)
    requires t < 64
    ensures Prime(PRIMES[t]) && forall r :: PrimeBefore(t) < r < PRIMES[t] ==> !Prime(r)
  {
    EntryFollows(t);
    hide Prime, Follows;
    FollowsMeans(PrimeBefore(t), PRIMES[t]);
  }

  /** K[t] is the first 32 bits of the fractional part of the cube root of PRIMES[t]. */
  lemma RoundConstants(t: nat)
    requires t < 64
    ensures exists c: nat :: CubeRoot(PRIMES[t], c, K[t])
  {
    EveryEntry(t);
    hide CubeRoot, Follows;
  }

  predicate Starts(lo: nat, hi: nat)
    requires hi <= 8
    decreases hi - lo
  {
    lo >= hi || (SquareRoot(PRIMES[lo], SquareBelow(PRIMES[lo]), H_INIT[lo]) && Starts(lo + 1, hi))
  }

  lemma Starts0To4()
    ensures Starts(0, 4)
  {}

  lemma Starts4To8()
    ensures Starts(4, 8)
  {}

  lemma {:induction false} StartAt(lo: nat, hi: nat, t: nat)
    requires lo <= t < hi <= 8 && Starts(lo, hi)
    ensures SquareRoot(PRIMES[t], SquareBelow(PRIMES[t]), H_INIT[t])
    decreases hi - lo
  {
    hide SquareRoot, SquareBelow;
    if lo < t { StartAt(lo + 1, hi, t); }
  }

  /** H_INIT[t] is the first 32 bits of the fractional part of the square root of PRIMES[t]. */
  lemma InitialState(t: nat)
    requires t < 8
    ensures exists c: nat :: SquareRoot(PRIMES[t], c, H_INIT[t])
  {
    hide SquareRoot, SquareBelow;
    Starts0To4(); Starts4To8();
    var lo := t / 4 * 4;
    StartAt(lo, lo + 4, t);
  }
}
