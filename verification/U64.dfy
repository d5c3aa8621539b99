/** Unsigned 64-bit arithmetic on numeric values: exclusive-or, right shift and wrapping
    multiplication, with the inverses that make hash mixing injective. */
module U64 {
  const W: nat := 0x1_0000_0000_0000_0000

  type u64 = n: nat | n < W
  type u32 = n: nat | n < 0x1_0000_0000
  type u8 = n: nat | n < 0x100

  /** Bitwise exclusive-or of two numbers. */
  function Xor(a: nat, b: nat): nat {
    if a == 0 && b == 0 then 0 else 2 * Xor(a / 2, b / 2) + (a % 2 + b % 2) % 2
  }

  /** a >> k */
  function Shr(a: nat, k: nat): nat {
    if k == 0 then a else Shr(a / 2, k - 1)
  }

  function Pow2(k: nat): (p: nat)
    ensures p > 0
  {
    if k == 0 then 1 else 2 * Pow2(k - 1)
  }

  lemma {:induction false} ShrOfSmall(a: nat, k: nat)
    requires a < Pow2(k)
    ensures Shr(a, k) == 0
  {
    if k == 0 {
    } else {
      ShrOfSmall(a / 2, k - 1);
    }
  }

  lemma {:induction false} ShrShr(a: nat, j: nat, k: nat)
    ensures Shr(Shr(a, j), k) == Shr(a, j + k)
  {
    if j == 0 {
    } else {
      ShrShr(a / 2, j - 1, k);
    }
  }

  lemma {:induction false} XorSimple(a: nat, b: nat)
    ensures Xor(a, b) == Xor(b, a)
    ensures Xor(a, 0) == a
    ensures Xor(a, a) == 0
  {
    if a == 0 && b == 0 {
    } else {
      XorSimple(a / 2, b / 2);
      XorParts(a, b); XorParts(b, a); XorParts(a, 0); XorParts(a, a);
      hide Xor;
    }
  }

  lemma ParityAssoc(x: nat, y: nat, z: nat)
    requires x < 2 && y < 2 && z < 2
    ensures (x + (y + z) % 2) % 2 == ((x + y) % 2 + z) % 2
  {}

  lemma SameParts(l: nat, r: nat)
    requires l / 2 == r / 2 && l % 2 == r % 2
    ensures l == r
  {}

  lemma HalfAndBit(n: nat, q: nat, bit: nat)
    requires n == 2 * q + bit && bit < 2
    ensures n / 2 == q && n % 2 == bit
  {}

  lemma XorUnfold(a: nat, b: nat)
    ensures Xor(a, b) == 2 * Xor(a / 2, b / 2) + (a % 2 + b % 2) % 2
  {}

  lemma XorParts(a: nat, b: nat)
    ensures Xor(a, b) == 2 * Xor(a / 2, b / 2) + (a % 2 + b % 2) % 2
    ensures Xor(a, b) / 2 == Xor(a / 2, b / 2)
    ensures Xor(a, b) % 2 == (a % 2 + b % 2) % 2
  {
    hide Xor;
    XorUnfold(a, b);
    HalfAndBit(Xor(a, b), Xor(a / 2, b / 2), (a % 2 + b % 2) % 2);
  }

  lemma XorHalf(a: nat, b: nat)
    ensures Xor(a, b) / 2 == Xor(a / 2, b / 2)
  {
    XorParts(a, b);
  }

  lemma AssocBit(a: nat, b: nat, c: nat)
    ensures Xor(a, Xor(b, c)) % 2 == Xor(Xor(a, b), c) % 2
  {
    hide Xor;
    XorParts(b, c); XorParts(a, b); XorParts(a, Xor(b, c)); XorParts(Xor(a, b), c);
    ParityAssoc(a % 2, b % 2, c % 2);
  }

  lemma {:induction false} XorAssoc(a: nat, b: nat, c: nat)
    ensures Xor(a, Xor(b, c)) == Xor(Xor(a, b), c)
  {
    if a == 0 && b == 0 && c == 0 {
    } else {
      XorAssoc(a / 2, b / 2, c / 2);
      hide Xor;
      var p, q := Xor(b, c), Xor(a, b);
      assert Xor(a, p) / 2 == Xor(q, c) / 2 by {
        XorHalf(b, c); XorHalf(a, b); XorHalf(a, p); XorHalf(q, c);
      }
      AssocBit(a, b, c);
      SameParts(Xor(a, p), Xor(q, c));
    }
  }

  lemma XorLaws(a: nat, b: nat, c: nat)
    ensures Xor(a, b) == Xor(b, a)
    ensures Xor(a, Xor(b, c)) == Xor(Xor(a, b), c)
    ensures Xor(a, 0) == a
    ensures Xor(a, a) == 0
  {
    XorSimple(a, b); XorAssoc(a, b, c);
  }

  lemma {:induction false} XorShr(a: nat, b: nat, k: nat)
    ensures Shr(Xor(a, b), k) == Xor(Shr(a, k), Shr(b, k))
  {
    if k == 0 {
    } else {
      XorParts(a, b);
      XorShr(a / 2, b / 2, k - 1);
    }
  }

  lemma {:induction false} XorBound(a: nat, b: nat, k: nat)
    requires a < Pow2(k) && b < Pow2(k)
    ensures Xor(a, b) < Pow2(k)
  {
    if k == 0 {
    } else {
      XorParts(a, b);
      XorBound(a / 2, b / 2, k - 1);
    }
  }

  lemma Pow2At64()
    ensures Pow2(64) == W
  {
    assert Pow2(8) == 0x100 && Pow2(16) == 0x1_0000 && Pow2(24) == 0x100_0000;
    assert Pow2(32) == 0x1_0000_0000 && Pow2(40) == 0x100_0000_0000 && Pow2(48) == 0x1_0000_0000_0000;
    assert Pow2(56) == 0x100_0000_0000_0000;
  }

  function Xor64(a: u64, b: u64): u64 {
    Pow2At64(); XorBound(a, b, 64);
    Xor(a, b)
  }

  /** z ^ (z >> k) */
  function XorShift(z: u64, k: nat): u64 {
    ShrSmaller(z, k);
    Xor64(z, Shr(z, k))
  }

  lemma {:induction false} ShrSmaller(a: nat, k: nat)
    ensures Shr(a, k) <= a
  {
    if k == 0 {
    } else {
      ShrSmaller(a / 2, k - 1);
    }
  }

  function WrappingMul(a: u64, b: u64): u64 { a * b % W }

  function WrappingAdd(a: u64, b: u64): u64 { (a + b) % W }

  lemma XorCancel(h: nat, a: nat, b: nat, t: nat)
    requires Xor(Xor(h, a), t) == Xor(Xor(h, b), t)
    ensures a == b
  {
    XorBack(h, a, t); XorBack(h, b, t);
  }

  lemma XorBack(h: nat, a: nat, t: nat)
    ensures Xor(h, Xor(Xor(Xor(h, a), t), t)) == a
  {
    XorLaws(Xor(h, a), t, t); XorLaws(t, t, 0); XorLaws(Xor(h, a), 0, 0);
    XorLaws(h, h, a); XorLaws(0, a, 0); XorLaws(a, 0, 0);
    hide Xor;
  }

  /** z ^ (z >> k) can be undone when three shifts exhaust the word. */
  lemma XorShiftUndone(x: u64, k: nat)
    requires 64 <= 3 * k
    ensures var y := XorShift(x, k); Xor(Xor(y, Shr(y, k)), Shr(y, 2 * k)) == x
  {
    var a, b, c := Shr(x, k), Shr(x, 2 * k), Shr(x, 3 * k);
    hide Xor, Shr, Pow2;
    Pow2At64();
    ShrShr(x, k, k); ShrShr(x, k, 2 * k); ShrShr(x, 64, 3 * k - 64);
    ShrOfSmall(x, 64); ShrOfZero(3 * k - 64);
    XorShr(x, a, k); XorShr(x, a, 2 * k);
    // y = x ^ a, y >> k = a ^ b, y >> 2k = b
    XorLaws(b, c, 0);
    Telescope(x, a, b);
  }

  lemma Telescope(x: nat, a: nat, b: nat)
    ensures Xor(Xor(Xor(x, a), Xor(a, b)), b) == x
  {
    hide Xor;
    XorAssoc(Xor(x, a), a, b); XorAssoc(x, a, a); XorAssoc(x, b, b);
    XorSimple(a, a); XorSimple(b, b); XorSimple(x, x);
  }

  lemma {:induction false} ShrOfZero(k: nat)
    ensures Shr(0, k) == 0
  {
    if k == 0 {
    } else {
      ShrOfZero(k - 1);
    }
  }

  lemma XorShiftInjective(x: u64, y: u64, k: nat)
    requires 64 <= 3 * k && XorShift(x, k) == XorShift(y, k)
    ensures x == y
  {
    XorShiftUndone(x, k); XorShiftUndone(y, k);
  }

  /** Multiplying by an odd constant, given with its inverse, can be undone. */
  lemma WrappingMulInjective(x: u64, y: u64, m: u64, inv: u64)
    requires m * inv % W == 1
    requires WrappingMul(x, m) == WrappingMul(y, m)
    ensures x == y
  {
    MulUndone(x, m, inv); MulUndone(y, m, inv);
  }

  lemma MulUndone(x: u64, m: u64, inv: u64)
    requires m * inv % W == 1
    ensures WrappingMul(x, m) * inv % W == x
  {
    var q, r := x * m / W, x * m % W;
    var s := m * inv / W;
    assert x * m == q * W + r && m * inv == s * W + 1;
    assert r * inv == x * (m * inv) - q * W * inv by {
      assert (x * m) * inv == x * (m * inv);
      assert (q * W + r) * inv == q * W * inv + r * inv;
    }
    assert x * (m * inv) == x * s * W + x;
    assert r * inv == x + (x * s - q * inv) * W;
    ModOfMultiple(x, x * s - q * inv);
  }

  lemma ModOfMultiple(x: u64, t: int)
    ensures (x + t * W) % W == x
  {}

  lemma WrappingAddInjective(x: u64, y: u64, c: u64)
    requires WrappingAdd(x, c) == WrappingAdd(y, c)
    ensures x == y
  {}
}
