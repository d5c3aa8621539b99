/** What a score and a start position depend on, and a known value of the mixing function. */
module PlacementTheorems {
  import opened U64
  import opened Quotients
  import opened Placement

  // ---- Scores ---------------------------------------------------------------------------------

  /** The three fields can be read off the word. */
  lemma WordFields(key: ShardKey)
    ensures KeyWord(key) / 0x1_0000 == key.shardIdx
    ensures KeyWord(key) / 0x100 % 0x100 == key.channel
    ensures KeyWord(key) % 0x100 == key.layer
  {
    var s: nat, c: nat, l: nat := key.shardIdx, key.channel, key.layer;
    SplitAt(KeyWord(key), s, c * 0x100 + l, 0x1_0000);
    SplitAt(KeyWord(key), s * 0x100 + c, l, 0x100);
    SplitAt(s * 0x100 + c, s, c, 0x100);
  }

  lemma SplitAt(n: nat, q: nat, r: nat, p: nat)
    requires n == q * p + r && r < p
    ensures n / p == q && n % p == r
  {
    SameQuotient(n / p, n % p, q, r, p);
  }

  lemma XorCancelLeft(h: nat, a: nat, b: nat)
    requires Xor(h, a) == Xor(h, b)
    ensures a == b
  {
    hide Xor;
    XorLaws(h, h, a); XorLaws(h, h, b); XorLaws(0, a, 0); XorLaws(0, b, 0); XorLaws(a, 0, 0); XorLaws(b, 0, 0);
  }

  /** For one object and one node, different positions score differently. */
  lemma ScoreOfPosition(a: ShardKey, b: ShardKey, node: u64)
    requires a.objectId == b.objectId && Score(a, node) == Score(b, node)
    ensures a == b
  {
    WordFields(a);
    WordFields(b);
    hide Mix64, WrappingMul, KeyWord, Xor;
    var h := Xor64(Mix64(a.objectId), Mix64(WrappingMul(node, GOLDEN)));
    Mix64Injective(Xor64(h, Mix64(KeyWord(a))), Xor64(h, Mix64(KeyWord(b))));
    XorCancelLeft(h, Mix64(KeyWord(a)), Mix64(KeyWord(b)));
    Mix64Injective(KeyWord(a), KeyWord(b));
  }

  /** For one position and one node, different objects score differently. */
  lemma ScoreOfObject(key: ShardKey, a: u64, b: u64, node: u64)
    requires Score(key.(objectId := a), node) == Score(key.(objectId := b), node)
    ensures a == b
  {
    hide Mix64, WrappingMul, Xor;
    var g, t := Mix64(WrappingMul(node, GOLDEN)), Mix64(KeyWord(key));
    assert KeyWord(key.(objectId := a)) == KeyWord(key) == KeyWord(key.(objectId := b));
    hide KeyWord;
    Mix64Injective(Xor64(Xor64(Mix64(a), g), t), Xor64(Xor64(Mix64(b), g), t));
    XorLaws(Mix64(a), g, 0); XorLaws(Mix64(b), g, 0);
    XorCancel(g, Mix64(a), Mix64(b), t);
    Mix64Injective(a, b);
  }

  /** Object, node and position are mixed alike and combined by exclusive-or: two equal ones cancel. */
  lemma ScoreCancels(key: ShardKey, node: u64)
    ensures key.objectId == WrappingMul(node, GOLDEN) ==> Score(key, node) == Mix64(Mix64(KeyWord(key)))
    ensures key.objectId == KeyWord(key) ==> Score(key, node) == Mix64(Mix64(WrappingMul(node, GOLDEN)))
    ensures KeyWord(key) == WrappingMul(node, GOLDEN) ==> Score(key, node) == Mix64(Mix64(key.objectId))
  {
    hide Mix64, WrappingMul, KeyWord, Xor;
    var h, g, t := Mix64(key.objectId), Mix64(WrappingMul(node, GOLDEN)), Mix64(KeyWord(key));
    XorLaws(h, g, t); XorLaws(g, t, 0); XorLaws(h, h, 0); XorLaws(0, t, 0); XorLaws(t, 0, 0); XorLaws(h, 0, 0);
    XorLaws(g, h, h); XorLaws(g, 0, 0); XorLaws(g, g, 0);
  }

  // ---- Round robin ----------------------------------------------------------------------------

  /** The next shard of a layer starts one node further, short of the wrap of the 64-bit sum. */
  lemma NextStart(key: ShardKey, next: ShardKey, total: nat)
    requires key.shardIdx + 1 < 0x1_0000_0000 && next == key.(shardIdx := key.shardIdx + 1) && total > 0
    ensures RoundRobinStart(key, total) == RoundRobinStart(key, W) % total
    ensures RoundRobinStart(key, W) + 1 < W ==> RoundRobinStart(next, total) == (RoundRobinStart(key, total) + 1) % total
  {
    hide Mix64, Xor64;
    var seed := Mix64(Xor64(Xor64(key.objectId, key.channel * 0x1_0000), key.layer * 0x100));
    var s := WrappingAdd(seed, key.shardIdx);
    assert s % W == s;
    if s + 1 < W {
      assert WrappingAdd(seed, next.shardIdx) == s + 1;
      OneFurther(s, total);
    }
  }

  lemma OneFurther(s: nat, total: nat)
    requires total > 0
    ensures (s % total + 1) % total == (s + 1) % total
  {
    var q, r := s / total, s % total;
    assert s == total * q + r;
    if r + 1 == total {
      assert s + 1 == total * (q + 1);
      Multiple(q + 1, total);
      Multiple(1, total);
    } else {
      Remainder(q, r + 1, total);
    }
  }

  lemma Multiple(q: nat, total: nat)
    requires total > 0
    ensures (total * q) % total == 0
  {
    Remainder(q, 0, total);
  }

  lemma Remainder(q: nat, r: nat, total: nat)
    requires r < total
    ensures (total * q + r) % total == r && r % total == r
  {
    var n := total * q + r;
    assert n == n / total * total + n % total && q * total == total * q;
    SameQuotient(n / total, n % total, q, r, total);
    SameQuotient(r / total, r % total, 0, r, total);
  }

  /** Before the reduction, layers of one object start at different places. */
  lemma StartOfLayer(a: ShardKey, b: ShardKey)
    requires a.objectId == b.objectId && a.shardIdx == b.shardIdx && RoundRobinStart(a, W) == RoundRobinStart(b, W)
    ensures a == b
  {
    hide Mix64, Xor;
    var x, y := Xor64(a.objectId, a.channel * 0x1_0000), Xor64(b.objectId, b.channel * 0x1_0000);
    var sa, sb := Mix64(Xor64(x, a.layer * 0x100)), Mix64(Xor64(y, b.layer * 0x100));
    WrappingAddInjective(sa, sb, a.shardIdx);
    Mix64Injective(Xor64(x, a.layer * 0x100), Xor64(y, b.layer * 0x100));
    XorLaws(a.objectId, a.channel * 0x1_0000, a.layer * 0x100);
    XorLaws(b.objectId, b.channel * 0x1_0000, b.layer * 0x100);
    XorCancelLeft(a.objectId, Xor(a.channel * 0x1_0000, a.layer * 0x100), Xor(b.channel * 0x1_0000, b.layer * 0x100));
    FieldsApart(a.channel, a.layer);
    FieldsApart(b.channel, b.layer);
  }

  /** Fields that do not overlap add up. */
  lemma FieldsApart(channel: u8, layer: u8)
    ensures Xor(channel * 0x1_0000, layer * 0x100) == channel * 0x1_0000 + layer * 0x100
  {
    hide Xor;
    ShiftedXor(channel * 0x100, layer, 8);
    assert Pow2(8) == 0x100;
    DisjointXor(channel, layer, 8);
  }

  lemma {:induction false} ShiftedXor(a: nat, b: nat, k: nat)
    ensures Xor(a * Pow2(k), b * Pow2(k)) == Xor(a, b) * Pow2(k)
  {
    hide Xor;
    if k == 0 {
    } else {
      ShiftedXor(a, b, k - 1);
      var p := Pow2(k - 1);
      Doubled(a, p);
      Doubled(b, p);
      Doubled(Xor(a, b), p);
      XorUnfold(2 * (a * p), 2 * (b * p));
    }
  }

  lemma Doubled(a: nat, p: nat)
    ensures a * (2 * p) == 2 * (a * p)
  {}

  lemma {:induction false} DisjointXor(a: nat, b: nat, k: nat)
    requires b < Pow2(k)
    ensures Xor(a * Pow2(k), b) == a * Pow2(k) + b
  {
    hide Xor;
    if k == 0 {
      XorLaws(a, 0, 0);
    } else {
      var p := Pow2(k - 1);
      DisjointXor(a, b / 2, k - 1);
      Doubled(a, p);
      XorUnfold(2 * (a * p), b);
    }
  }

  // ---- A known value of the mixing function ------------------------------------------------------

  function Value(x: bv8): (v: nat)
    ensures v < 0x100
  {
    x as nat
  }

  datatype Word = Word(b7: bv8, b6: bv8, b5: bv8, b4: bv8, b3: bv8, b2: bv8, b1: bv8, b0: bv8)

  function Append(n: nat, x: bv8): nat { 0x100 * n + Value(x) }

  function Number(w: Word): nat {
    Append(Append(Append(Append(Append(Append(Append(Value(w.b7), w.b6), w.b5), w.b4), w.b3), w.b2), w.b1), w.b0)
  }

  lemma {:induction false} GrowBits(a: nat, b: nat, x: nat, y: nat, k: nat)
    requires x < Pow2(k) && y < Pow2(k)
    ensures Xor(a * Pow2(k) + x, b * Pow2(k) + y) == Xor(a, b) * Pow2(k) + Xor(x, y)
  {
    hide Xor, Pow2;
    if k == 0 {
      PowerStep(1);
      XorLaws(0, 0, 0);
    } else {
      PowerStep(k);
      GrowBits(a, b, x / 2, y / 2, k - 1);
      var p := Pow2(k - 1);
      GrowOnce(a, b, x, y, p);
      Doubled(a, p);
      Doubled(b, p);
      Doubled(Xor(a, b), p);
    }
  }

  lemma GrowOnce(a: nat, b: nat, x: nat, y: nat, p: nat)
    requires Xor(a * p + x / 2, b * p + y / 2) == Xor(a, b) * p + Xor(x / 2, y / 2)
    ensures Xor(2 * (a * p) + x, 2 * (b * p) + y) == 2 * (Xor(a, b) * p) + Xor(x, y)
  {
    hide Xor;
    XorOfHalves(2 * (a * p) + x, 2 * (b * p) + y, a * p + x / 2, b * p + y / 2, x % 2, y % 2);
    XorOfHalves(x, y, x / 2, y / 2, x % 2, y % 2);
  }

  lemma HalfByte(x: bv8)
    ensures Value(x) == 2 * Value(x >> 1) + Value(x & 1) && Value(x & 1) < 2
  {}

  lemma LowBit(x: bv8, y: bv8)
    ensures Value((x ^ y) & 1) == (Value(x & 1) + Value(y & 1)) % 2
    ensures (x ^ y) >> 1 == (x >> 1) ^ (y >> 1)
  {}

  lemma ZeroByte(x: bv8)
    ensures Value(x) == 0 <==> x == 0
  {}

  lemma XorOfHalves(a: nat, b: nat, h: nat, i: nat, x: nat, y: nat)
    requires a == 2 * h + x && b == 2 * i + y && x < 2 && y < 2
    ensures Xor(a, b) == 2 * Xor(h, i) + (x + y) % 2
  {
    hide Xor;
    XorUnfold(a, b);
    assert a / 2 == h && a % 2 == x && b / 2 == i && b % 2 == y;
  }

  lemma PowerStep(n: nat)
    requires n > 0
    ensures Pow2(n) == 2 * Pow2(n - 1) && Pow2(0) == 1
  {}

  /** On bytes it is the machine's exclusive-or. */
  lemma {:induction false} XorOfBytes(x: bv8, y: bv8, n: nat)
    requires Value(x) < Pow2(n) && Value(y) < Pow2(n)
    ensures Xor(Value(x), Value(y)) == Value(x ^ y)
    decreases n
  {
    hide Xor, Value, Pow2;
    if n == 0 {
      PowerStep(1);
      XorOfNoBits(x, y);
    } else {
      PowerStep(n);
      HalfByte(x);
      HalfByte(y);
      XorOfBytes(x >> 1, y >> 1, n - 1);
      XorOneMoreBit(x, y);
    }
  }

  lemma XorOfNoBits(x: bv8, y: bv8)
    requires Value(x) == Value(y) == 0
    ensures Xor(Value(x), Value(y)) == Value(x ^ y)
  {
    hide Xor, Value;
    ZeroByte(x);
    ZeroByte(y);
    ZeroByte(x ^ y);
    XorLaws(0, 0, 0);
  }

  lemma XorOneMoreBit(x: bv8, y: bv8)
    requires Xor(Value(x >> 1), Value(y >> 1)) == Value((x >> 1) ^ (y >> 1))
    ensures Xor(Value(x), Value(y)) == Value(x ^ y)
  {
    hide Xor, Value;
    HalfByte(x);
    HalfByte(y);
    HalfByte(x ^ y);
    LowBit(x, y);
    XorOfHalves(Value(x), Value(y), Value(x >> 1), Value(y >> 1), Value(x & 1), Value(y & 1));
  }

  lemma GrowByte(a: nat, b: nat, x: nat, y: nat)
    requires x < 0x100 && y < 0x100
    ensures Xor(0x100 * a + x, 0x100 * b + y) == 0x100 * Xor(a, b) + Xor(x, y)
  {
    hide Xor, Pow2;
    Pow2At8();
    GrowBits(a, b, x, y, 8);
  }

  lemma XorAppend(a: nat, b: nat, x: bv8, y: bv8)
    ensures Xor(Append(a, x), Append(b, y)) == Append(Xor(a, b), x ^ y)
  {
    XorOfAnyBytes(x, y);
    AppendIs(a, x);
    AppendIs(b, y);
    AppendIs(Xor(a, b), x ^ y);
    hide *;
    JoinParts(a, b, Xor(a, b), Value(x), Value(y), Value(x ^ y), Append(a, x), Append(b, y), Append(Xor(a, b), x ^ y));
  }

  lemma JoinParts(a: nat, b: nat, c: nat, x: nat, y: nat, z: nat, p: nat, q: nat, r: nat)
    requires x < 0x100 && y < 0x100 && Xor(a, b) == c && Xor(x, y) == z
    requires p == 0x100 * a + x && q == 0x100 * b + y && r == 0x100 * c + z
    ensures Xor(p, q) == r
  {
    hide Xor;
    GrowByte(a, b, x, y);
  }

  lemma AppendIs(n: nat, x: bv8)
    ensures Append(n, x) == 0x100 * n + Value(x)
  {}

  lemma Pow2At8()
    ensures Pow2(8) == 0x100
  {}

  lemma XorOfAnyBytes(x: bv8, y: bv8)
    ensures Xor(Value(x), Value(y)) == Value(x ^ y)
  {
    hide Xor, Value, Pow2;
    Pow2At8();
    XorOfBytes(x, y, 8);
  }

  function XorWords(a: Word, b: Word): Word {
    Word(a.b7 ^ b.b7, a.b6 ^ b.b6, a.b5 ^ b.b5, a.b4 ^ b.b4, a.b3 ^ b.b3, a.b2 ^ b.b2, a.b1 ^ b.b1, a.b0 ^ b.b0)
  }

  /** Exclusive-or works byte by byte. */
  lemma XorOfWords(a: Word, b: Word)
    ensures Xor(Number(a), Number(b)) == Number(XorWords(a, b))
  {
    hide Xor, Append, Value;
    var a7, b7 := Value(a.b7), Value(b.b7);
    var a6, b6 := Append(a7, a.b6), Append(b7, b.b6);
    var a5, b5 := Append(a6, a.b5), Append(b6, b.b5);
    var a4, b4 := Append(a5, a.b4), Append(b5, b.b4);
    var a3, b3 := Append(a4, a.b3), Append(b4, b.b3);
    var a2, b2 := Append(a3, a.b2), Append(b3, b.b2);
    var a1, b1 := Append(a2, a.b1), Append(b2, b.b1);
    XorOfAnyBytes(a.b7, b.b7);
    XorAppend(a7, b7, a.b6, b.b6);
    XorAppend(a6, b6, a.b5, b.b5);
    XorAppend(a5, b5, a.b4, b.b4);
    XorAppend(a4, b4, a.b3, b.b3);
    XorAppend(a3, b3, a.b2, b.b2);
    XorAppend(a2, b2, a.b1, b.b1);
    XorAppend(a1, b1, a.b0, b.b0);
  }

  lemma {:induction false} ShrDivides(a: nat, k: nat)
    ensures Shr(a, k) == a / Pow2(k)
  {
    if k == 0 {
    } else {
      ShrDivides(a / 2, k - 1);
      HalfFirst(a, Pow2(k - 1));
    }
  }

  lemma HalfFirst(a: nat, p: nat)
    requires p > 0
    ensures a / 2 / p == a / (2 * p)
  {
    var h, q := a / 2, a / (2 * p);
    assert a == 2 * h + a % 2;
    assert a == q * (2 * p) + a % (2 * p);
    var r := a % (2 * p);
    assert h == q * p + r / 2 by { assert q * (2 * p) == 2 * (q * p); }
    SameQuotient(h / p, h % p, q, r / 2, p);
  }

  lemma FirstMix()
    ensures Xor(0x9E37_79B9_7F4A_7C15, 0x0000_0002_78DD_E6E5) == 0x9E37_79BB_0797_9AF0
  {
    hide Xor;
    var a, b := Word(0x9E, 0x37, 0x79, 0xB9, 0x7F, 0x4A, 0x7C, 0x15), Word(0x00, 0x00, 0x00, 0x02, 0x78, 0xDD, 0xE6, 0xE5);
    assert XorWords(a, b) == Word(0x9E, 0x37, 0x79, 0xBB, 0x07, 0x97, 0x9A, 0xF0);
    XorOfWords(a, b);
    assert Number(a) == 0x9E37_79B9_7F4A_7C15 && Number(b) == 0x0000_0002_78DD_E6E5;
    assert Number(XorWords(a, b)) == 0x9E37_79BB_0797_9AF0;
  }

  lemma SecondMix()
    ensures Xor(0x6F68_261B_57E7_A770, 0x0000_000D_ED04_C36A) == 0x6F68_2616_BAE3_641A
  {
    hide Xor;
    var a, b := Word(0x6F, 0x68, 0x26, 0x1B, 0x57, 0xE7, 0xA7, 0x70), Word(0x00, 0x00, 0x00, 0x0D, 0xED, 0x04, 0xC3, 0x6A);
    assert XorWords(a, b) == Word(0x6F, 0x68, 0x26, 0x16, 0xBA, 0xE3, 0x64, 0x1A);
    XorOfWords(a, b);
    assert Number(a) == 0x6F68_261B_57E7_A770 && Number(b) == 0x0000_000D_ED04_C36A;
    assert Number(XorWords(a, b)) == 0x6F68_2616_BAE3_641A;
  }

  lemma ThirdMix()
    ensures Xor(0xE220_A838_BF5C_9DDE, 0x0000_0001_C441_5071) == 0xE220_A839_7B1D_CDAF
  {
    hide Xor;
    var a, b := Word(0xE2, 0x20, 0xA8, 0x38, 0xBF, 0x5C, 0x9D, 0xDE), Word(0x00, 0x00, 0x00, 0x01, 0xC4, 0x41, 0x50, 0x71);
    assert XorWords(a, b) == Word(0xE2, 0x20, 0xA8, 0x39, 0x7B, 0x1D, 0xCD, 0xAF);
    XorOfWords(a, b);
    assert Number(a) == 0xE220_A838_BF5C_9DDE && Number(b) == 0x0000_0001_C441_5071;
    assert Number(XorWords(a, b)) == 0xE220_A839_7B1D_CDAF;
  }

  /** The published first output of SplitMix64 for the seed 0. */
  lemma Mix64OfZero()
    ensures Mix64(0) == 0xE220_A839_7B1D_CDAF
  {
    hide Xor, Shr;
    assert Pow2(8) == 0x100 && Pow2(16) == 0x1_0000 && Pow2(24) == 0x100_0000;
    assert Pow2(27) == 0x800_0000 && Pow2(30) == 0x4000_0000 && Pow2(31) == 0x8000_0000;
    ShrDivides(0x9E37_79B9_7F4A_7C15, 30);
    FirstMix();
    assert WrappingMul(0x9E37_79BB_0797_9AF0, FACTOR1) == 0x6F68_261B_57E7_A770;
    ShrDivides(0x6F68_261B_57E7_A770, 27);
    SecondMix();
    assert WrappingMul(0x6F68_2616_BAE3_641A, FACTOR2) == 0xE220_A838_BF5C_9DDE;
    ShrDivides(0xE220_A838_BF5C_9DDE, 31);
    ThirdMix();
  }
}
