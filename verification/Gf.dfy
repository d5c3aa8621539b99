/** The log/exp tables of crates/holofs-core/src/gf.rs, proved to implement module Field. */
module GfTables {
  import opened Field

  class Gf {
    var exp: array<Byte>  // exp[i] = x^i, doubled to 512 entries
    var log: array<nat>   // log[x^i] = i; one byte each in the source, all entries are below 255

    ghost predicate Valid()
      reads this, exp, log
    {
      && exp.Length == 512 && log.Length == 256
      && (forall i :: 0 <= i < 512 ==> exp[i] == Alpha(i))
      && (forall i: nat :: i < 255 ==> log[Index(Alpha(i))] == i)
      && log[0] == 0
    }

    /** What an operation must not write if the tables are to stay valid. */
    ghost function Tables(): set<object>
      reads this
    {
      {this, exp, log}
    }

    constructor ()
      ensures Valid() && fresh(exp) && fresh(log)
    {
      exp := new Byte[512](_ => 0);
      log := new nat[256](_ => 0);
      new;
      FillPowers(exp, log);
      DoubleTable(exp);
    }

    /** One pass over the 255 powers fills both tables; `x` is 16 bits wide as in the source. */
    static method FillPowers(exp: array<Byte>, log: array<nat>)
      requires exp.Length == 512 && log.Length == 256 && log[0] == 0
      modifies exp, log
      ensures forall j :: 0 <= j < 255 ==> exp[j] == Alpha(j)
      ensures forall j: nat :: j < 255 ==> log[Index(Alpha(j))] == j
      ensures log[0] == 0
    {
      hide Xtime, Widen, Narrow, NextPower, Index, Alpha;
      var x: bv16 := 1;
      PowersStart();
      for i := 0 to 255
        invariant x == Widen(Alpha(i))
        invariant forall j :: 0 <= j < i ==> exp[j] == Alpha(j)
        invariant forall j: nat :: j < i ==> log[Index(Alpha(j))] == j
        invariant log[0] == 0
      {
        NarrowWiden(Alpha(i)); NextPowerIsXtime(i); FreshPower(i);
        exp[i] := Narrow(x);
        log[Index(Narrow(x))] := i;
        x := NextPower(x);
      }
    }

    /** The upper half repeats the powers, so that exponents need no reduction. */
    static method DoubleTable(exp: array<Byte>)
      requires exp.Length == 512
      requires forall j :: 0 <= j < 255 ==> exp[j] == Alpha(j)
      modifies exp
      ensures forall j :: 0 <= j < 512 ==> exp[j] == Alpha(j)
    {
      hide Alpha;
      for i := 255 to 512
        invariant forall j :: 0 <= j < i ==> exp[j] == Alpha(j)
      {
        AlphaAdd(255, i - 255); AlphaAt255(); MulOneZero(Alpha(i - 255));
        exp[i] := exp[i - 255];
      }
    }

    /** Two table lookups give the field product, for all 65536 pairs of bytes. */
    function Mul(a: Byte, b: Byte): (r: Byte)
      requires Valid()
      reads this, exp, log
      ensures r == Field.Mul(a, b)
    {
      assert (a == 0 ==> Field.Mul(a, b) == 0) && (b == 0 ==> Field.Mul(a, b) == 0) by {
        MulOneZero(b); MulComm(a, b);
      }
      if a == 0 || b == 0 then 0
      else
        LogCorrect(a); LogCorrect(b); AlphaAdd(log[Index(a)], log[b as int]);
        exp[log[Index(a)] + log[b as int]]
    }

    /** A true inverse of every nonzero byte; for 0 the source documents a garbage value, which is 1. */
    function Inv(a: Byte): (r: Byte)
      requires Valid()
      reads this, exp, log
      ensures a != 0 ==> r != 0 && Field.Mul(a, r) == 1
      ensures a == 0 ==> r == 1
    {
      AlphaAt255();
      if a == 0 then
        exp[255 - log[0]]
      else
        LogCorrect(a); AlphaAdd(log[Index(a)], 255 - log[Index(a)]); AlphaNonzero(255 - log[Index(a)]);
        exp[255 - log[Index(a)]]
    }

    lemma LogCorrect(a: Byte)
      requires Valid() && a != 0
      ensures log[Index(a)] < 255 && Alpha(log[Index(a)]) == a
    {
      AlphaOnto(a);
    }
  }

  /** A byte used as a table index. */
  function Index(a: Byte): (n: nat)
    ensures n < 256
  {
    a as int
  }

  function Narrow(x: bv16): Byte { (x & 0xff) as Byte }

  lemma NarrowWiden(a: Byte)
    ensures Narrow(Widen(a)) == a
  {}

  /** One turn of the table loop: shift the 16-bit register, subtract 0x11d on overflow. */
  function NextPower(x: bv16): bv16 {
    if (x << 1) & 0x100 != 0 then (x << 1) ^ 0x11d else x << 1
  }

  lemma NextPowerIsXtime(i: nat)
    ensures NextPower(Widen(Alpha(i))) == Widen(Alpha(i + 1))
  {}

  lemma PowersStart()
    ensures Widen(Alpha(0)) == 1
  {}

  /** The i-th power has not been entered in the log table before. */
  lemma FreshPower(i: nat)
    requires i < 255
    ensures Index(Alpha(i)) != 0
    ensures forall j: nat :: j < i ==> Index(Alpha(j)) != Index(Alpha(i))
  {
    AlphaNonzero(i);
    forall j: nat | j < i ensures Index(Alpha(j)) != Index(Alpha(i)) { AlphaDistinct(j, i); }
  }
}
