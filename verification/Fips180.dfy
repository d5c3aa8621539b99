/** SHA-256 as FIPS 180-4 defines it: functions (section 4.1.2), padding (5.1.1) and hash
    computation (6.2), on numeric words. */
module Fips180 {
  import opened U64

  const M32: nat := 0x1_0000_0000

  /** The round constants, sixteen to a row. */
  const K: seq<u32> :=
    [0x428a2f98, 0x71374491, 0xb5c0fbcf, 0xe9b5dba5, 0x3956c25b, 0x59f111f1, 0x923f82a4, 0xab1c5ed5,
     0xd807aa98, 0x12835b01, 0x243185be, 0x550c7dc3, 0x72be5d74, 0x80deb1fe, 0x9bdc06a7, 0xc19bf174] +
    [0xe49b69c1, 0xefbe4786, 0x0fc19dc6, 0x240ca1cc, 0x2de92c6f, 0x4a7484aa, 0x5cb0a9dc, 0x76f988da,
     0x983e5152, 0xa831c66d, 0xb00327c8, 0xbf597fc7, 0xc6e00bf3, 0xd5a79147, 0x06ca6351, 0x14292967] +
    [0x27b70a85, 0x2e1b2138, 0x4d2c6dfc, 0x53380d13, 0x650a7354, 0x766a0abb, 0x81c2c92e, 0x92722c85,
     0xa2bfe8a1, 0xa81a664b, 0xc24b8b70, 0xc76c51a3, 0xd192e819, 0xd6990624, 0xf40e3585, 0x106aa070] +
    [0x19a4c116, 0x1e376c08, 0x2748774c, 0x34b0bcb5, 0x391c0cb3, 0x4ed8aa4a, 0x5b9cca4f, 0x682e6ff3,
     0x748f82ee, 0x78a5636f, 0x84c87814, 0x8cc70208, 0x90befffa, 0xa4506ceb, 0xbef9a3f7, 0xc67178f2]

  const H_INIT: seq<u32> := [
    0x6a09e667, 0xbb67ae85, 0x3c6ef372, 0xa54ff53a, 0x510e527f, 0x9b05688c, 0x1f83d9ab, 0x5be0cd19]

  // ---- Word operations ----------------------------------------------------------------------

  function And(a: nat, b: nat): (r: nat)
    ensures r <= a
  {
    if a == 0 || b == 0 then 0 else 2 * And(a / 2, b / 2) + (a % 2) * (b % 2)
  }

  function Pow32At(k: nat): (p: nat)
    requires k <= 32
    ensures 0 < p && p * Pow2(32 - k) == M32
  {
    PowersMultiply(k, 32 - k); PowerOf32();
    Pow2(k)
  }

  lemma {:induction false} PowersMultiply(j: nat, k: nat)
    ensures Pow2(j) * Pow2(k) == Pow2(j + k)
  {
    if j == 0 {
    } else {
      PowersMultiply(j - 1, k);
      assert Pow2(j) * Pow2(k) == 2 * (Pow2(j - 1) * Pow2(k));
    }
  }

  lemma PowerOf32()
    ensures Pow2(32) == M32
  {
    assert Pow2(8) == 0x100;
    PowersMultiply(8, 8); PowersMultiply(16, 16);
  }

  function Xor32(a: u32, b: u32): u32 {
    PowerOf32(); XorBound(a, b, 32);
    Xor(a, b)
  }

  function And32(a: u32, b: u32): u32 { And(a, b) }

  function Not32(a: u32): u32 { M32 - 1 - a }

  function Add32(a: u32, b: u32): u32 { (a + b) % M32 }

  /** SHR^n(x) */
  function Shr32(x: u32, n: nat): u32 {
    ShrSmaller(x, n);
    Shr(x, n)
  }

  /** ROTR^n(x): the low n bits move to the top. */
  function Rotr(x: u32, n: nat): u32
    requires n <= 32
  {
    var p, q := Pow32At(n), Pow2(32 - n);
    QuotientRemainder(x, p);
    RotrFits(x / p, x % p, p, q, x);
    x / p + x % p * q
  }

  lemma Larger(a: nat, b: nat, p: nat)
    requires a >= b
    ensures a * p >= b * p
  {
    assert (a - b) * p >= 0;
  }

  lemma QuotientRemainder(x: nat, p: nat)
    requires p > 0
    ensures x == x / p * p + x % p && x % p < p && x / p >= 0
  {}

  lemma RotrFits(hi: nat, lo: nat, p: nat, q: nat, x: nat)
    requires p * q == M32 && x == hi * p + lo && lo < p && x < M32
    ensures hi + lo * q < M32
  {
    assert hi < q by {
      if hi >= q { Larger(hi, q, p); }
    }
    assert (lo + 1) * q <= p * q by { assert (p - lo - 1) * q >= 0; }
  }

  // ---- Functions of section 4.1.2 -----------------------------------------------------------

  function Ch(x: u32, y: u32, z: u32): u32 { Xor32(And32(x, y), And32(Not32(x), z)) }

  function Maj(x: u32, y: u32, z: u32): u32 { Xor32(Xor32(And32(x, y), And32(x, z)), And32(y, z)) }

  function BigSigma0(x: u32): u32 { Xor32(Xor32(Rotr(x, 2), Rotr(x, 13)), Rotr(x, 22)) }

  function BigSigma1(x: u32): u32 { Xor32(Xor32(Rotr(x, 6), Rotr(x, 11)), Rotr(x, 25)) }

  function SmallSigma0(x: u32): u32 { Xor32(Xor32(Rotr(x, 7), Rotr(x, 18)), Shr32(x, 3)) }

  function SmallSigma1(x: u32): u32 { Xor32(Xor32(Rotr(x, 17), Rotr(x, 19)), Shr32(x, 10)) }

  // ---- Bytes and words ----------------------------------------------------------------------

  function WordOf(b0: u8, b1: u8, b2: u8, b3: u8): u32 {
    b0 * 0x100_0000 + b1 * 0x1_0000 + b2 * 0x100 + b3
  }

  /** n as w big-endian bytes, modulo 256^w. */
  function BigEndian(n: nat, w: nat): (b: seq<u8>)
    ensures |b| == w
  {
    if w == 0 then [] else BigEndian(n / 0x100, w - 1) + [n % 0x100]
  }

  // ---- Padding, section 5.1.1 ---------------------------------------------------------------

  /** The fewest zero bytes that bring a message of this length, the bit 1 and the length to a
      multiple of 64 bytes. */
  function ZeroBytes(len: nat): (z: nat)
    ensures (len + 1 + z + 8) % 64 == 0
  {
    (119 - len % 64) % 64
  }

  function Zeroes(n: nat): (z: seq<u8>)
    ensures |z| == n
  {
    seq(n, _ => 0)
  }

  function PaddedMessage(m: seq<u8>): (p: seq<u8>)
    ensures |p| % 64 == 0
  {
    m + [0x80] + Zeroes(ZeroBytes(|m|)) + BigEndian(8 * |m|, 8)
  }

  lemma ZeroBytesLeast(len: nat, z: nat)
    ensures (len + 1 + z + 8) % 64 == 0 ==> ZeroBytes(len) <= z
  {}

  // ---- Hash computation, section 6.2.2 ------------------------------------------------------

  type Block = b: seq<u8> | |b| == 64 witness Zeroes(64)
  type State = s: seq<u32> | |s| == 8 witness H_INIT

  /** The message schedule: word t of the block. */
  function Schedule(b: Block, t: nat): u32 {
    if t < 16 then WordOf(b[4 * t], b[4 * t + 1], b[4 * t + 2], b[4 * t + 3])
    else Add32(Add32(Add32(SmallSigma1(Schedule(b, t - 2)), Schedule(b, t - 7)), SmallSigma0(Schedule(b, t - 15))), Schedule(b, t - 16))
  }

  /** The working variables a..h after t rounds. */
  function Rounds(s: State, b: Block, t: nat): State
    requires t <= 64
  {
    if t == 0 then s else
      var v := Rounds(s, b, t - 1);
      var t1 := Add32(Add32(Add32(Add32(v[7], BigSigma1(v[4])), Ch(v[4], v[5], v[6])), K[t - 1]), Schedule(b, t - 1));
      var t2 := Add32(BigSigma0(v[0]), Maj(v[0], v[1], v[2]));
      [Add32(t1, t2), v[0], v[1], v[2], Add32(v[3], t1), v[4], v[5], v[6]]
  }

  function Compress(s: State, b: Block): State {
    var v := Rounds(s, b, 64);
    [Add32(v[0], s[0]), Add32(v[1], s[1]), Add32(v[2], s[2]), Add32(v[3], s[3]),
     Add32(v[4], s[4]), Add32(v[5], s[5]), Add32(v[6], s[6]), Add32(v[7], s[7])]
  }

  /** The hash value after all whole blocks of p. */
  function Fold(p: seq<u8>): State
    requires |p| % 64 == 0
  {
    if p == [] then H_INIT else
      var n := |p| - 64;
      Compress(Fold(p[..n]), p[n..])
  }

  function StateBytes(s: seq<u32>): (b: seq<u8>)
    ensures |b| == 4 * |s|
  {
    if s == [] then [] else StateBytes(s[..|s| - 1]) + BigEndian(s[|s| - 1], 4)
  }

  function Digest(m: seq<u8>): (d: seq<u8>)
    ensures |d| == 32
  {
    StateBytes(Fold(PaddedMessage(m)))
  }

  function Pow256(w: nat): (p: nat)
    ensures p > 0
  {
    if w == 0 then 1 else 0x100 * Pow256(w - 1)
  }

  /** Only the low w bytes of a number are written. */
  lemma {:induction false} BigEndianModulo(a: nat, b: nat, c: nat, w: nat)
    requires a == b + c * Pow256(w)
    ensures BigEndian(a, w) == BigEndian(b, w)
  {
    if w == 0 {
    } else {
      var e := c * Pow256(w - 1);
      assert a == b + 0x100 * e;
      ShiftedDivision(a, b, e);
      BigEndianModulo(a / 0x100, b / 0x100, c, w - 1);
    }
  }

  lemma ShiftedDivision(a: nat, b: nat, e: nat)
    requires a == b + 0x100 * e
    ensures a / 0x100 == b / 0x100 + e && a % 0x100 == b % 0x100
  {}

  /** A 64-bit length field holds 8 * n modulo 2^64, whether or not the counter wrapped. */
  lemma LengthField(n: nat, total: nat)
    requires total == n % W
    ensures BigEndian(WrappingMul(total, 8), 8) == BigEndian(8 * n, 8)
  {
    var q := n / W;
    assert Pow256(8) == W by { assert Pow256(4) == M32; }
    var t := total * 8;
    assert t == t % W + t / W * W;
    BigEndianModulo(t, t % W, t / W, 8);
    assert 8 * n == t + 8 * q * W;
    BigEndianModulo(8 * n, t, 8 * q, 8);
  }

  lemma FoldBlock(p: seq<u8>, b: Block)
    requires |p| % 64 == 0
    ensures Fold(p + b) == Compress(Fold(p), b)
  {
    assert (p + b)[..|p|] == p && (p + b)[|p|..] == b;
  }

  /** The number that big-endian bytes denote. */
  function NumberOf(b: seq<u8>): nat {
    if b == [] then 0 else 0x100 * NumberOf(b[..|b| - 1]) + b[|b| - 1]
  }

  lemma {:induction false} NumberFits(b: seq<u8>)
    ensures NumberOf(b) < Pow256(|b|)
  {
    if b == [] {
    } else {
      NumberFits(b[..|b| - 1]);
    }
  }

  /** Writing a number in enough bytes and reading it back. */
  lemma {:induction false} NumberOfBigEndian(n: nat, w: nat)
    requires n < Pow256(w)
    ensures NumberOf(BigEndian(n, w)) == n
  {
    if w == 0 {
    } else {
      NumberOfBigEndian(n / 0x100, w - 1);
      assert BigEndian(n, w)[..w - 1] == BigEndian(n / 0x100, w - 1);
    }
  }
}
