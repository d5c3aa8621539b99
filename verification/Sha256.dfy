/** The streaming hasher of crates/holofs-core/src/hash.rs. */
module Sha256 {
  import opened U64
  import opened Fips180

  /** Adding in another order. */
  lemma AddsCommute(a: u32, b: u32, c: u32, d: u32)
    ensures Add32(Add32(Add32(a, b), c), d) == (a + b + c + d) % M32
  {
    AddMod(a + b, c); AddMod(a + b + c, d);
  }

  lemma AddMod(a: nat, c: nat)
    ensures (a % M32 + c) % M32 == (a + c) % M32
  {}

  lemma ScheduleFirst(b: Block, t: nat)
    requires t < 16
    ensures Schedule(b, t) == WordOf(b[4 * t], b[4 * t + 1], b[4 * t + 2], b[4 * t + 3])
  {}

  /** The schedule with the sum in the order the source takes it. */
  lemma ScheduleNext(b: Block, t: nat)
    requires t >= 16
    ensures Schedule(b, t)
         == Add32(Add32(Add32(Schedule(b, t - 16), SmallSigma0(Schedule(b, t - 15))), Schedule(b, t - 7)), SmallSigma1(Schedule(b, t - 2)))
  {
    hide SmallSigma0, SmallSigma1, Add32;
    var s0, s1 := SmallSigma0(Schedule(b, t - 15)), SmallSigma1(Schedule(b, t - 2));
    AddsCommute(Schedule(b, t - 16), s0, Schedule(b, t - 7), s1);
    AddsCommute(s1, Schedule(b, t - 7), s0, Schedule(b, t - 16));
  }

  class Hasher {
    const h: array<u32>
    const buf: array<u8>
    var bufLen: nat
    var totalLen: u64
    ghost var message: seq<u8>   // everything given to Update so far

    /** The state is that of the message: its whole blocks are folded in, the rest is buffered. */
    ghost predicate Valid()
      reads this, h, buf
    {
      && Holding(message, bufLen) && bufLen < 64 && totalLen == |message| % W
    }

    /** n bytes of m are buffered, all before them are folded into the hash value. */
    ghost predicate Holding(m: seq<u8>, n: nat)
      reads h, buf
    {
      && h.Length == 8 && buf.Length == 64 && h as object != buf
      && n <= 64 && n <= |m| && (|m| - n) % 64 == 0
      && buf[..n] == m[|m| - n..]
      && h[..] == Fold(m[..|m| - n])
    }

    constructor ()
      ensures Valid() && message == [] && fresh(h) && fresh(buf)
    {
      h := new u32[8](i requires 0 <= i < 8 => H_INIT[i]);
      buf := new u8[64](_ => 0);
      bufLen := 0;
      totalLen := 0;
      message := [];
      new;
      assert h[..] == H_INIT;
    }

    /** The message schedule of the buffered block. */
    method PrepareSchedule(block: Block) returns (w: array<u32>)
      ensures fresh(w) && w.Length == 64
      ensures forall t :: 0 <= t < 64 ==> w[t] == Schedule(block, t)
    {
      hide WordOf, SmallSigma0, SmallSigma1, Add32, Schedule;
      w := new u32[64](_ => 0);
      for i := 0 to 16
        invariant forall t :: 0 <= t < i ==> w[t] == Schedule(block, t)
      {
        ScheduleFirst(block, i);
        w[i] := WordOf(block[i * 4], block[i * 4 + 1], block[i * 4 + 2], block[i * 4 + 3]);
      }
      for i := 16 to 64
        invariant forall t :: 0 <= t < i ==> w[t] == Schedule(block, t)
      {
        var s0 := SmallSigma0(w[i - 15]);
        var s1 := SmallSigma1(w[i - 2]);
        ScheduleNext(block, i);
        w[i] := Add32(Add32(Add32(w[i - 16], s0), w[i - 7]), s1);
      }
    }

    method ProcessBlock(block: Block)
      requires h.Length == 8
      modifies h
      ensures h[..] == Compress(old(h[..]), block)
    {
      hide Schedule, BigSigma0, BigSigma1, Ch, Maj, Add32;
      var w := PrepareSchedule(block);
      ghost var s: State := h[..];
      var a, b, c, d := h[0], h[1], h[2], h[3];
      var e, f, g, hh := h[4], h[5], h[6], h[7];
      for i := 0 to 64
        invariant h[..] == s
        invariant [a, b, c, d, e, f, g, hh] == Rounds(s, block, i)
      {
        var s1 := BigSigma1(e);
        var ch := Ch(e, f, g);
        var t1 := Add32(Add32(Add32(Add32(hh, s1), ch), K[i]), w[i]);
        var s0 := BigSigma0(a);
        var maj := Maj(a, b, c);
        var t2 := Add32(s0, maj);
        ghost var v := Rounds(s, block, i);
        assert v[0] == a && v[1] == b && v[2] == c && v[3] == d && v[4] == e && v[5] == f && v[6] == g && v[7] == hh;
        hh := g;
        g := f;
        f := e;
        e := Add32(d, t1);
        d := c;
        c := b;
        b := a;
        a := Add32(t1, t2);
      }
      ghost var v := Rounds(s, block, 64);
      assert v[0] == a && v[1] == b && v[2] == c && v[3] == d && v[4] == e && v[5] == f && v[6] == g && v[7] == hh;
      AddWorking(a, b, c, d, e, f, g, hh);
    }

    method AddWorking(a: u32, b: u32, c: u32, d: u32, e: u32, f: u32, g: u32, hh: u32)
      requires h.Length == 8
      modifies h
      ensures var s := old(h[..]); h[..] == [Add32(a, s[0]), Add32(b, s[1]), Add32(c, s[2]), Add32(d, s[3]),
        Add32(e, s[4]), Add32(f, s[5]), Add32(g, s[6]), Add32(hh, s[7])]
    {
      h[0] := Add32(h[0], a);
      h[1] := Add32(h[1], b);
      h[2] := Add32(h[2], c);
      h[3] := Add32(h[3], d);
      h[4] := Add32(h[4], e);
      h[5] := Add32(h[5], f);
      h[6] := Add32(h[6], g);
      h[7] := Add32(h[7], hh);
    }
  
    /** The full buffer is folded in. */
    method Flush(ghost m: seq<u8>)
      requires Holding(m, 64)
      modifies h
      ensures Holding(m, 0)
    {
      hide Compress, Fold;
      ghost var before := m[..|m| - 64];
      var block: Block := buf[..];
      assert block == m[|m| - 64..] && m == before + block;
      ProcessBlock(block);
      FoldBlock(before, block);
      assert m[..|m|] == m;
    }

    method Append(b: u8, n: nat, ghost m: seq<u8>)
      requires Holding(m, n) && n < 64
      modifies buf
      ensures Holding(m + [b], n + 1)
    {
      hide Fold;
      buf[n] := b;
      assert (m + [b])[..|m| - n] == m[..|m| - n];
      assert buf[..n + 1] == m[|m| - n..] + [b] == (m + [b])[|m| - n..];
    }

    /** copy_from_slice into the free part of the buffer. */
    method Fill(chunk: seq<u8>, n: nat, ghost m: seq<u8>)
      requires Holding(m, n) && n + |chunk| <= 64
      modifies buf
      ensures Holding(m + chunk, n + |chunk|)
    {
      hide Holding;
      assert m + chunk[..0] == m;
      for j := 0 to |chunk|
        invariant Holding(m + chunk[..j], n + j)
      {
        Append(chunk[j], n + j, m + chunk[..j]);
        assert m + chunk[..j] + [chunk[j]] == m + chunk[..j + 1];
      }
      assert chunk[..|chunk|] == chunk;
    }

    method ZeroFill(from: nat, to: nat, ghost m: seq<u8>)
      requires Holding(m, from) && from <= to <= 64
      modifies buf
      ensures Holding(m + Zeroes(to - from), to)
    {
      hide Holding;
      assert m + Zeroes(0) == m;
      for i := from to to
        invariant Holding(m + Zeroes(i - from), i)
      {
        Append(0, i, m + Zeroes(i - from));
        assert m + Zeroes(i - from) + [0] == m + Zeroes(i + 1 - from);
      }
    }

    /** However a message is cut into calls, the state is that of all bytes so far. */
    method Update(data: seq<u8>)
      requires Valid()
      modifies this, h, buf
      ensures Valid() && message == old(message) + data
    {
      hide Holding;
      totalLen := WrappingAdd(totalLen, |data| % W);
      message := message + data;
      var rest := data;
      ghost var m := old(message);      // the bytes taken in so far
      while rest != []
        invariant |rest| <= |data| && m + rest == message
        invariant Holding(m, bufLen) && bufLen < 64
        invariant message == old(message) + data && totalLen == |message| % W
      {
        var take := if 64 - bufLen <= |rest| then 64 - bufLen else |rest|;
        Fill(rest[..take], bufLen, m);
        Regroup(m, rest, take);
        m := m + rest[..take];
        bufLen := bufLen + take;
        rest := rest[take..];
        if bufLen == 64 {
          Flush(m);
          bufLen := 0;
        }
      }
      assert m + [] == m;
    }

    lemma Regroup(m: seq<u8>, rest: seq<u8>, take: nat)
      requires take <= |rest|
      ensures (m + rest[..take]) + rest[take..] == m + rest
    {}

    /** Pad and fold in the last one or two blocks. */
    method Pad()
      requires Valid()
      modifies `bufLen, h, buf
      ensures Holding(PaddedMessage(message), 0)
    {
      hide Holding, BigEndian, PaddedMessage, Zeroes;
      ghost var m := message;
      var bitLen := WrappingMul(totalLen, 8);
      LengthField(|m|, totalLen);
      BufferedCount(bufLen, m);
      PaddedEither(m, bufLen);
      Append(0x80, bufLen, m);
      bufLen := bufLen + 1;
      m := m + [0x80];
      if bufLen > 56 {
        ZeroFill(bufLen, 64, m);
        m := m + Zeroes(64 - bufLen);
        Flush(m);
        bufLen := 0;
      }
      ZeroFill(bufLen, 56, m);
      m := m + Zeroes(56 - bufLen);
      Fill(BigEndian(bitLen, 8), 56, m);
      m := m + BigEndian(bitLen, 8);
      Flush(m);
    }

    /** The digest of everything given to Update, as the standard defines it. */
    method Finalize() returns (out: seq<u8>)
      requires Valid()
      modifies this, h, buf
      ensures out == Digest(old(message))
    {
      hide Fold, StateBytes, BigEndian, PaddedMessage;
      Pad();
      ghost var m := PaddedMessage(message);
      assert m[..|m|] == m;
      hide Digest;
      DigestIs(message);
      out := [];
      for i := 0 to 8
        invariant h.Length == 8 && out == StateBytes(h[..][..i]) && h[..] == Fold(m)
      {
        StateBytesSnoc(h[..][..i], h[i]);
        assert h[..][..i + 1] == h[..][..i] + [h[i]];
        out := out + BigEndian(h[i], 4);
      }
      assert h[..][..8] == h[..];
    }

    lemma BufferedCount(n: nat, m: seq<u8>)
      requires Holding(m, n) && n < 64
      ensures n == |m| % 64
    {
      hide Fold;
      OnlyCount(|m|, n);
    }
  }

  lemma StateBytesSnoc(s: seq<u32>, w: u32)
    ensures StateBytes([]) == [] && StateBytes(s + [w]) == StateBytes(s) + BigEndian(w, 4)
  {
    assert (s + [w])[..|s|] == s;
  }

  lemma DigestIs(m: seq<u8>)
    ensures Digest(m) == StateBytes(Fold(PaddedMessage(m))) && StateBytes([]) == []
  {}

  lemma OnlyCount(len: nat, n: nat)
    requires n < 64 && n <= len && (len - n) % 64 == 0
    ensures n == len % 64
  {}

  lemma ZeroBytesAre(len: nat, r: nat)
    requires r == len % 64
    ensures ZeroBytes(len) == if r > 55 then 119 - r else 55 - r
  {}

  /** The padding in one block or across two. */
  lemma PaddedEither(m: seq<u8>, r: nat)
    requires r == |m| % 64
    ensures r > 55 ==> PaddedMessage(m) == m + [0x80] + Zeroes(63 - r) + Zeroes(56) + BigEndian(8 * |m|, 8)
    ensures r <= 55 ==> PaddedMessage(m) == m + [0x80] + Zeroes(55 - r) + BigEndian(8 * |m|, 8)
  {
    ZeroBytesAre(|m|, r);
    PaddedIs(m);
    if r > 55 {
      ZeroesJoin(m + [0x80], 63 - r, 56);
    }
    hide *;
  }

  lemma PaddedIs(m: seq<u8>)
    ensures PaddedMessage(m) == m + [0x80] + Zeroes(ZeroBytes(|m|)) + BigEndian(8 * |m|, 8)
  {}

  lemma ZeroesJoin(p: seq<u8>, a: nat, b: nat)
    ensures p + Zeroes(a) + Zeroes(b) == p + Zeroes(a + b)
  {}

  /** sha256: the whole message in one call. */
  method Hash(data: seq<u8>) returns (d: seq<u8>)
    ensures d == Digest(data)
  {
    hide Digest;
    var hasher := new Hasher();
    hasher.Update(data);
    assert [] + data == data;
    d := hasher.Finalize();
  }

  /** A message fed in pieces. */
  function Joined(pieces: seq<seq<u8>>): seq<u8> {
    if pieces == [] then [] else Joined(pieces[..|pieces| - 1]) + pieces[|pieces| - 1]
  }

  /** Every way of cutting the message into calls gives the same, standard digest. */
  method HashPieces(pieces: seq<seq<u8>>) returns (d: seq<u8>)
    ensures d == Digest(Joined(pieces))
  {
    hide Digest, Hasher.Valid, Hasher.Holding;
    var hasher := new Hasher();
    for i := 0 to |pieces|
      invariant fresh(hasher) && fresh(hasher.h) && fresh(hasher.buf)
      invariant hasher.Valid() && hasher.message == Joined(pieces[..i])
    {
      assert pieces[..i + 1][..i] == pieces[..i];
      hasher.Update(pieces[i]);
    }
    assert pieces[..|pieces|] == pieces;
    d := hasher.Finalize();
  }
}
