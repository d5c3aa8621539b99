/** The finite field GF(2^8) in which holofs codes: a byte is a polynomial over GF(2) of
    degree below 8, addition is exclusive-or, multiplication is taken modulo
    x^8 + x^4 + x^3 + x^2 + 1. The log/exp tables of class Gf (Gf.dfy) are proved
    against the definitions of this module.

    Most proofs `hide` the bit-level definitions once the algebraic laws they need have been
    collected, so that the solver reasons about a commutative ring and not about bits. */
module Field {

  type Byte = bv8

  function Add(a: Byte, b: Byte): Byte { a ^ b }

  /** Multiplication by x: shift, and subtract the modulus when degree 8 is reached. */
  function Xtime(a: Byte): Byte {
    if a & 0x80 == 0 then a << 1 else (a << 1) ^ 0x1d
  }

  /** The product, by Horner's rule over the coefficients of `b`. */
  function Mul(a: Byte, b: Byte): Byte
    decreases b
  {
    if b == 0 then 0
    else if b & 1 == 0 then Xtime(Mul(a, b >> 1))
    else Add(a, Xtime(Mul(a, b >> 1)))
  }

  // ---- Laws of addition ---------------------------------------------------

  lemma AddLaws(a: Byte, b: Byte, c: Byte)
    ensures Add(a, b) == Add(b, a)
    ensures Add(a, Add(b, c)) == Add(Add(a, b), c)
    ensures Add(a, 0) == a
    ensures Add(a, a) == 0
  {}

  lemma AddSwap(a: Byte, b: Byte, c: Byte, d: Byte)
    ensures Add(Add(a, b), Add(c, d)) == Add(Add(a, c), Add(b, d))
  {
    AddLaws(Add(a, b), c, d); AddLaws(a, b, c); AddLaws(b, c, d);
    AddLaws(a, c, b); AddLaws(Add(a, c), b, d);
    hide *;
  }

  /** Adding the same byte twice cancels; hence a sum is zero only for equal terms. */
  lemma AddCancel(a: Byte, b: Byte)
    ensures Add(Add(a, b), b) == a
    ensures Add(b, Add(b, a)) == a
    ensures Add(0, a) == a
    ensures Add(a, b) == 0 <==> a == b
  {
    AddLaws(a, b, b); AddLaws(b, b, a); AddLaws(0, a, 0); AddLaws(b, 0, 0);
    hide *;
    if Add(a, b) == 0 { assert a == Add(0, b); AddLaws(0, b, 0); AddLaws(b, 0, 0); }
  }

  // ---- Multiplication by x ------------------------------------------------

  lemma BitsAdd(a: Byte, b: Byte)
    ensures (a ^ b) >> 1 == (a >> 1) ^ (b >> 1)
    ensures (a ^ b) & 1 == (a & 1) ^ (b & 1)
  {}

  lemma Bit0(a: Byte)
    ensures a & 1 == 0 || a & 1 == 1
  {}

  lemma HalveAdd(a: Byte, b: Byte)
    ensures Add(a, b) >> 1 == Add(a >> 1, b >> 1)
    ensures Add(a, b) & 1 == 0 <==> (a & 1 == 0 <==> b & 1 == 0)
  {
    BitsAdd(a, b); Bit0(a); Bit0(b);
  }

  /** Every byte is its constant term plus x times the rest. */
  lemma Halve(b: Byte)
    ensures b == if b & 1 == 0 then Xtime(b >> 1) else Add(1, Xtime(b >> 1))
  {
    assert (b >> 1) & 0x80 == 0;
    Bit0(b);
    if b & 1 == 0 {
      assert (b >> 1) << 1 == b;
    } else {
      assert 1 ^ ((b >> 1) << 1) == b;
    }
  }

  lemma XtimeAdd(a: Byte, b: Byte)
    ensures Xtime(Add(a, b)) == Add(Xtime(a), Xtime(b))
  {
    var c := a ^ b;
    if a & 0x80 == 0 {
      if b & 0x80 == 0 { assert c & 0x80 == 0; } else { assert c & 0x80 != 0; }
    } else {
      assert a & 0x80 == 0x80;
      if b & 0x80 == 0 { assert c & 0x80 != 0; } else { assert c & 0x80 == 0; }
    }
  }

  lemma XtimeNonzero(a: Byte)
    ensures Xtime(0) == 0
    ensures a != 0 ==> Xtime(a) != 0
  {}

  // ---- Ring laws ----------------------------------------------------------

  lemma MulStep(a: Byte, b: Byte)
    ensures Mul(a, b) == if b & 1 == 0 then Xtime(Mul(a, b >> 1)) else Add(a, Xtime(Mul(a, b >> 1)))
  {
    if b == 0 {
      assert (0 as bv8) >> 1 == 0 && (0 as bv8) & 1 == 0;
      assert Mul(a, 0) == 0 && Xtime(0) == 0;
    }
  }

  lemma Regroup(bit0: bool, bit1: bool, a: Byte, x: Byte, y: Byte)
    ensures (if bit0 == bit1 then Add(x, y) else Add(a, Add(x, y)))
         == Add(if bit0 then Add(a, x) else x, if bit1 then Add(a, y) else y)
  {
    AddSwap(a, x, a, y); AddLaws(a, x, y); AddLaws(x, a, y); AddLaws(a, a, 0);
    AddLaws(Add(x, y), 0, 0); AddLaws(x, a, 0);
    hide *;
  }

  lemma {:induction false} MulAddRight(a: Byte, b: Byte, c: Byte)
    ensures Mul(a, Add(b, c)) == Add(Mul(a, b), Mul(a, c))
    decreases b, c
  {
    if b == 0 {
      AddLaws(c, 0, 0); AddLaws(Mul(a, c), 0, 0);
      assert Mul(a, 0) == 0;
    } else {
      MulAddRight(a, b >> 1, c >> 1);
      MulStep(a, b); MulStep(a, c); MulStep(a, Add(b, c));
      HalveAdd(b, c);
      XtimeAdd(Mul(a, b >> 1), Mul(a, c >> 1));
      Regroup(b & 1 != 0, c & 1 != 0, a, Xtime(Mul(a, b >> 1)), Xtime(Mul(a, c >> 1)));
      hide *;
    }
  }

  lemma {:induction false} MulAddLeft(a: Byte, b: Byte, c: Byte)
    ensures Mul(Add(a, b), c) == Add(Mul(a, c), Mul(b, c))
    decreases c
  {
    if c == 0 {
      AddLaws(0, 0, 0);
    } else {
      var h := c >> 1;
      MulAddLeft(a, b, h);
      XtimeAdd(Mul(a, h), Mul(b, h));
      MulStep(a, c); MulStep(b, c); MulStep(Add(a, b), c);
      AddSwap(a, b, Xtime(Mul(a, h)), Xtime(Mul(b, h)));
      hide *;
    }
  }

  lemma {:induction false} MulXtimeLeft(a: Byte, b: Byte)
    ensures Mul(Xtime(a), b) == Xtime(Mul(a, b))
    decreases b
  {
    if b == 0 {
      XtimeNonzero(0);
    } else {
      MulXtimeLeft(a, b >> 1);
      MulStep(a, b); MulStep(Xtime(a), b);
      XtimeAdd(a, Xtime(Mul(a, b >> 1)));
      hide *;
    }
  }

  lemma {:induction false} MulOneZero(a: Byte)
    ensures Mul(1, a) == a
    ensures Mul(0, a) == 0
    decreases a
  {
    if a == 0 {
    } else {
      MulOneZero(a >> 1); MulStep(1, a); MulStep(0, a); Halve(a);
      AddLaws(0, 0, 0); XtimeNonzero(0);
      hide *;
    }
  }

  lemma {:induction false} MulComm(a: Byte, b: Byte)
    ensures Mul(a, b) == Mul(b, a)
    decreases b
  {
    MulOneZero(a);
    if b == 0 {
    } else {
      MulComm(a, b >> 1); MulStep(a, b); Halve(b);
      MulXtimeLeft(b >> 1, a);
      MulAddLeft(1, Xtime(b >> 1), a);
      hide *;
    }
  }

  lemma {:induction false} MulAssoc(a: Byte, b: Byte, c: Byte)
    ensures Mul(Mul(a, b), c) == Mul(a, Mul(b, c))
    decreases c
  {
    if c == 0 {
    } else {
      var h := c >> 1;
      MulAssoc(a, b, h);
      MulStep(Mul(a, b), c); MulStep(b, c);
      MulAddRight(a, b, Xtime(Mul(b, h)));
      MulComm(a, Xtime(Mul(b, h))); MulXtimeLeft(Mul(b, h), a); MulComm(a, Mul(b, h));
      hide *;
    }
  }

  // ---- The product as a remainder -----------------------------------------

  /** The modulus x^8 + x^4 + x^3 + x^2 + 1. */
  const POLY: bv16 := 0x11d

  function PolyAdd(p: bv16, q: bv16): bv16 { p ^ q }

  function PolyShift(p: bv16): bv16 { p << 1 }

  function Widen(a: Byte): bv16 { a as bv16 }

  /** Product of two polynomials over GF(2) with no reduction (carry-less product). */
  function PolyMul(p: bv16, b: Byte): bv16
    decreases b
  {
    if b == 0 then 0
    else if b & 1 == 0 then PolyShift(PolyMul(p, b >> 1))
    else PolyAdd(p, PolyShift(PolyMul(p, b >> 1)))
  }

  function Double(q: Byte, carry: bool): Byte { if carry then (q << 1) | 1 else q << 1 }

  lemma PolyAssoc(p: bv16, q: bv16, r: bv16)
    ensures PolyAdd(p, PolyAdd(q, r)) == PolyAdd(PolyAdd(p, q), r)
  {}

  lemma PolyLaws(p: bv16, q: bv16)
    ensures PolyAdd(p, q) == PolyAdd(q, p)
    ensures PolyShift(PolyAdd(p, q)) == PolyAdd(PolyShift(p), PolyShift(q))
  {}

  lemma WidenAdd(a: Byte, b: Byte)
    ensures Widen(Add(a, b)) == PolyAdd(Widen(a), Widen(b))
  {}

  lemma PolyMulStep(p: bv16, b: Byte)
    ensures PolyMul(p, b) == if b & 1 == 0 then PolyShift(PolyMul(p, b >> 1))
                             else PolyAdd(p, PolyShift(PolyMul(p, b >> 1)))
  {
    if b == 0 {
      assert (0 as bv8) >> 1 == 0 && (0 as bv8) & 1 == 0;
      assert PolyMul(p, 0) == 0 && PolyShift(0) == 0;
    }
  }

  lemma DoubleFacts(q: Byte, carry: bool)
    requires q < 0x80
    ensures Double(q, carry) >> 1 == q
    ensures Double(q, carry) & 1 == 0 <==> !carry
    ensures q == 0 && !carry <==> Double(q, carry) == 0
  {
    if carry {} else {}
  }

  lemma PolyMulDouble(p: bv16, q: Byte, carry: bool)
    requires q < 0x80
    ensures PolyMul(p, Double(q, carry))
         == if carry then PolyAdd(p, PolyShift(PolyMul(p, q))) else PolyShift(PolyMul(p, q))
  {
    DoubleFacts(q, carry);
    PolyMulStep(p, Double(q, carry));
    hide *;
  }

  /** Multiplying by x without reduction differs from Xtime by at most one modulus. */
  lemma Wrap(m: Byte)
    ensures PolyShift(Widen(m)) == if m & 0x80 == 0 then Widen(Xtime(m)) else PolyAdd(POLY, Widen(Xtime(m)))
  {}

  lemma RegroupPoly(a: bv16, s: bv16, m: bv16, x: bv16, carry: bool)
    requires PolyShift(m) == if carry then PolyAdd(POLY, x) else x
    ensures PolyShift(PolyAdd(s, m)) == PolyAdd(if carry then PolyAdd(POLY, PolyShift(s)) else PolyShift(s), x)
    ensures PolyAdd(a, PolyShift(PolyAdd(s, m)))
         == PolyAdd(if carry then PolyAdd(POLY, PolyShift(s)) else PolyShift(s), PolyAdd(a, x))
  {
    var t := PolyShift(s);
    PolyLaws(s, m); PolyLaws(t, POLY); PolyAssoc(POLY, t, x); PolyAssoc(t, POLY, x);
    PolyLaws(a, PolyAdd(POLY, t)); PolyAssoc(a, PolyAdd(POLY, t), x); PolyAssoc(PolyAdd(POLY, t), a, x);
    PolyLaws(a, t); PolyAssoc(a, t, x); PolyAssoc(t, a, x);
    hide *;
  }

  lemma QuotientBound(a: Byte, q: Byte, b: Byte)
    requires b != 0
    requires q < (b >> 1) || q == b >> 1 == 0
    ensures Double(q, Mul(a, b >> 1) & 0x80 != 0) < b
    ensures q < 0x80
  {
    if b >> 1 == 0 { assert Mul(a, 0) == 0; }
  }

  lemma RemainderStep(a: Byte, b: Byte, s: Byte)
    requires s < 0x80
    requires PolyMul(Widen(a), b >> 1) == PolyAdd(PolyMul(POLY, s), Widen(Mul(a, b >> 1)))
    ensures PolyMul(Widen(a), b)
         == PolyAdd(PolyMul(POLY, Double(s, Mul(a, b >> 1) & 0x80 != 0)), Widen(Mul(a, b)))
  {
    var m := Mul(a, b >> 1);
    PolyMulDouble(POLY, s, m & 0x80 != 0);
    Wrap(m);
    RegroupPoly(Widen(a), PolyMul(POLY, s), Widen(m), Widen(Xtime(m)), m & 0x80 != 0);
    WidenAdd(a, Xtime(m));
    MulStep(a, b);
    PolyMulStep(Widen(a), b);
    hide *;
    if b & 1 == 0 {
      assert PolyMul(Widen(a), b) == PolyShift(PolyMul(Widen(a), b >> 1));
    } else {
      assert PolyMul(Widen(a), b) == PolyAdd(Widen(a), PolyShift(PolyMul(Widen(a), b >> 1)));
    }
  }

  /** Mul(a, b) is the remainder of the carry-less product of `a` and `b` modulo the
      polynomial: their difference is a multiple q of it. (A byte is below degree 8, so the
      remainder is unique.) */
  lemma {:induction false} MulIsRemainder(a: Byte, b: Byte) returns (q: Byte)
    ensures PolyMul(Widen(a), b) == PolyAdd(PolyMul(POLY, q), Widen(Mul(a, b)))
    ensures q < b || q == b == 0
    decreases b
  {
    if b == 0 {
      q := 0;
    } else {
      var s := MulIsRemainder(a, b >> 1);
      QuotientBound(a, s, b);
      RemainderStep(a, b, s);
      hide *;
      q := Double(s, Mul(a, b >> 1) & 0x80 != 0);
    }
  }

  // ---- The generator ------------------------------------------------------

  /** The i-th power of x, the generator the tables are built from. */
  function Alpha(i: nat): Byte {
    if i == 0 then 1 else Xtime(Alpha(i - 1))
  }

  lemma {:induction false} AlphaAdd(i: nat, j: nat)
    ensures Alpha(i + j) == Mul(Alpha(i), Alpha(j))
  {
    if i == 0 {
      MulOneZero(Alpha(j));
    } else {
      AlphaAdd(i - 1, j);
      MulXtimeLeft(Alpha(i - 1), Alpha(j));
      hide Mul, Xtime;
    }
  }

  lemma {:induction false} AlphaNonzero(i: nat)
    ensures Alpha(i) != 0
  {
    if i == 0 {
    } else {
      AlphaNonzero(i - 1);
      XtimeNonzero(Alpha(i - 1));
      hide Xtime;
    }
  }

  function Times4(a: Byte): Byte { Xtime(Xtime(Xtime(Xtime(a)))) }

  function Times17(a: Byte): Byte { Xtime(Times4(Times4(Times4(Times4(a))))) }

  lemma AlphaStep4(i: nat)
    ensures Alpha(i + 4) == Times4(Alpha(i))
  {
    hide Xtime;
    assert Alpha(i + 2) == Xtime(Xtime(Alpha(i)));
    assert Alpha(i + 4) == Xtime(Xtime(Alpha(i + 2)));
  }

  lemma AlphaStep17(i: nat)
    ensures Alpha(i + 17) == Times17(Alpha(i))
  {
    hide Xtime, Times4;
    AlphaStep4(i); AlphaStep4(i + 4); AlphaStep4(i + 8); AlphaStep4(i + 12);
  }

  lemma Times17Values()
    ensures Times17(0x1) == 0x98 && Times17(0x98) == 0x4e && Times17(0x4e) == 0xa && Times17(0xa) == 0x99 && Times17(0x99) == 0xd6 &&
            Times17(0xd6) == 0x44 && Times17(0x44) == 0x93 && Times17(0x93) == 0x4f && Times17(0x4f) == 0x92 && Times17(0x92) == 0xd7 &&
            Times17(0xd7) == 0xdc && Times17(0xdc) == 0xdd && Times17(0xdd) == 0x45 && Times17(0x45) == 0xb && Times17(0xb) == 0x1
  {}

  lemma AlphaSmall()
    ensures Alpha(1) == 2 && Alpha(3) == 8 && Alpha(5) == 0x20 && Alpha(15) == 0x26
  {
    assert Alpha(5) == 0x20;
    assert Alpha(10) == 0x74;
  }

  lemma AlphaAt85()
    ensures Alpha(17) == 0x98 && Alpha(51) == 0x0a && Alpha(85) == 0xd6
  {
    Times17Values();
    assert Alpha(0) == 1;
    hide Xtime, Times17, Alpha;
    AlphaStep17(0); AlphaStep17(17); AlphaStep17(34); AlphaStep17(51); AlphaStep17(68);
  }

  lemma AlphaAt255()
    ensures Alpha(255) == 1
  {
    Times17Values(); AlphaAt85();
    hide Xtime, Times17, Alpha;
    AlphaStep17(85); AlphaStep17(102); AlphaStep17(119); AlphaStep17(136); AlphaStep17(153);
    AlphaStep17(170); AlphaStep17(187); AlphaStep17(204); AlphaStep17(221); AlphaStep17(238);
  }

  lemma DivisorOf255(d: nat)
    requires 0 < d < 255 && 255 % d == 0
    ensures d in {1, 3, 5, 15, 17, 51, 85}
  {
    var q := 255 / d;
    assert q * d == 255;
    if q <= 15 {
      SmallDivisor(q, d);
    } else {
      assert 16 * d <= q * d;
      SmallDivisor(d, q);
    }
  }

  lemma SmallDivisor(a: nat, b: nat)
    requires 0 < a <= 15 && a * b == 255
    ensures (a == 1 && b == 255) || (a == 3 && b == 85) || (a == 5 && b == 51) || (a == 15 && b == 17)
  {
    assert a == 1 || a == 2 || a == 3 || a == 4 || a == 5 || a == 6 || a == 7 || a == 8 ||
           a == 9 || a == 10 || a == 11 || a == 12 || a == 13 || a == 14 || a == 15;
  }

  lemma {:induction false} AlphaMultiple(d: nat, q: nat)
    requires Alpha(d) == 1
    ensures Alpha(q * d) == 1
  {
    if q == 0 {
    } else {
      AlphaMultiple(d, q - 1);
      assert q * d == d + (q - 1) * d;
      AlphaAdd(d, (q - 1) * d);
      MulOneZero(1);
    }
  }

  /** The order of x is exactly 255. */
  lemma {:induction false} AlphaNotOne(d: nat)
    requires 0 < d < 255
    ensures Alpha(d) != 1
  {
    if Alpha(d) == 1 {
      AlphaAt255();
      var r := 255 % d;
      var q := 255 / d;
      assert 255 == q * d + r;
      AlphaMultiple(d, q);
      AlphaAdd(q * d, r);
      MulOneZero(Alpha(r));
      if r == 0 { DivisorOf255(d); AlphaSmall(); AlphaAt85(); } else { AlphaNotOne(r); }
    }
  }

  lemma AlphaDistinct(i: nat, j: nat)
    requires i < j < 255
    ensures Alpha(i) != Alpha(j)
  {
    if Alpha(i) == Alpha(j) {
      AlphaAdd(255 - i, i); AlphaAdd(255 - i, j); AlphaAdd(255, j - i);
      AlphaAt255();
      MulOneZero(Alpha(j - i));
      AlphaNotOne(j - i);
    }
  }

  // ---- Every nonzero byte is a power --------------------------------------

  ghost function Powers(n: nat): set<int> { set i | 0 <= i < n :: Alpha(i) as int }

  lemma {:induction false} PowersSize(n: nat)
    requires n <= 255
    ensures |Powers(n)| == n
  {
    if n == 0 {
    } else {
      PowersSize(n - 1);
      PowersStep(n);
      hide Powers, Alpha;
    }
  }

  lemma PowersStep(n: nat)
    requires 0 < n <= 255
    ensures Powers(n) == Powers(n - 1) + {Alpha(n - 1) as int} && Alpha(n - 1) as int !in Powers(n - 1)
  {
    hide Alpha;
    forall i | 0 <= i < n - 1 ensures Alpha(i) as int != Alpha(n - 1) as int {
      AlphaDistinct(i, n - 1);
    }
  }

  ghost function Interval(n: nat): set<int> { if n == 0 then {} else Interval(n - 1) + {n} }

  lemma {:induction false} IntervalSize(n: nat)
    ensures |Interval(n)| == n
    ensures forall k :: k in Interval(n) <==> 1 <= k <= n
  {
    if n == 0 {
    } else {
      IntervalSize(n - 1);
    }
  }

  lemma SubsetOfSameSize<T>(a: set<T>, b: set<T>)
    requires a <= b && |a| == |b|
    ensures a == b
  {
    assert b == a + (b - a);
  }

  lemma AlphaOnto(a: Byte)
    requires a != 0
    ensures exists i: nat :: i < 255 && Alpha(i) == a
  {
    var nonzero := Interval(255);
    PowersSize(255); IntervalSize(255);
    forall v | v in Powers(255) ensures v in nonzero {
      var i :| 0 <= i < 255 && v == Alpha(i) as int;
      AlphaNonzero(i);
    }
    SubsetOfSameSize(Powers(255), nonzero);
    assert a as int in Powers(255);
    var i: nat :| i < 255 && Alpha(i) as int == a as int;
    assert Alpha(i) == a;
  }

  /** The discrete logarithm to base x. */
  ghost function Log(a: Byte): (i: nat)
    requires a != 0
    ensures i < 255 && Alpha(i) == a
  {
    AlphaOnto(a);
    var i: nat :| i < 255 && Alpha(i) == a;
    i
  }

  ghost function Inv(a: Byte): (b: Byte)
    requires a != 0
    ensures Mul(a, b) == 1
    ensures b != 0
  {
    AlphaAdd(Log(a), 255 - Log(a));
    AlphaAt255();
    AlphaNonzero(255 - Log(a));
    Alpha(255 - Log(a))
  }

  /** A field has no zero divisors, so a nonzero factor can be cancelled. */
  lemma MulCancel(a: Byte, b: Byte)
    requires a != 0
    ensures Mul(a, b) == 0 <==> b == 0
    ensures Mul(Inv(a), Mul(a, b)) == b
  {
    hide Mul;
    MulComm(Inv(a), a); MulAssoc(Inv(a), a, b); MulOneZero(b);
    MulComm(a, 0); MulOneZero(a); MulComm(Inv(a), 0); MulOneZero(Inv(a));
  }
}
