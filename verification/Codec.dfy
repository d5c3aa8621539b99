/** Reading big-endian fields from a byte buffer: the Cursor of crates/holofs-model/src/manifest.rs
    and the parsing functions that specify it. */
module Codec {
  import opened U64
  import opened Wrappers
  import opened Fips180

  type Bytes = seq<u8>

  /** A value and the bytes after it; None when the input is malformed or too short. */
  type Parsed<+T> = Option<(T, Bytes)>

  function Take(s: Bytes, n: nat): (r: Parsed<Bytes>)
    ensures r.Some? ==> |r.value.0| == n
  {
    if n <= |s| then Some((s[..n], s[n..])) else None
  }

  function Number(s: Bytes, w: nat): (r: Parsed<nat>)
    ensures r.Some? ==> r.value.0 < Pow256(w)
  {
    var t := Take(s, w);
    if t.None? then None else
      NumberFits(t.value.0);
      Some((NumberOf(t.value.0), t.value.1))
  }

  /** n values in a row. */
  function Repeat<T>(n: nat, p: Bytes -> Parsed<T>, s: Bytes): (r: Parsed<seq<T>>)
    ensures r.Some? ==> |r.value.0| == n
  {
    if n == 0 then Some(([], s)) else
      var front := Repeat(n - 1, p, s);
      if front.None? then None else
        var last := p(front.value.1);
        if last.None? then None else Some((front.value.0 + [last.value.0], last.value.1))
  }

  // ---- The two laws every parser here obeys -------------------------------------------------------

  /** More input after a complete value does not change the value. */
  ghost predicate Extends<T(!new)>(p: Bytes -> Parsed<T>) {
    forall s, t :: p(s).Some? ==> p(s + t) == Some((p(s).value.0, p(s).value.1 + t))
  }

  /** Encoded values, with anything behind them, are read back. */
  ghost predicate ReadsBack<T(!new)>(p: Bytes -> Parsed<T>, e: T -> Bytes, ok: T -> bool) {
    forall x, t :: ok(x) ==> p(e(x) + t) == Some((x, t))
  }

  /** Together they reject every strict prefix of an encoding. */
  lemma PrefixRejected<T(!new)>(p: Bytes -> Parsed<T>, full: Bytes, x: T, cut: nat)
    requires Extends(p) && p(full) == Some((x, [])) && cut < |full|
    ensures p(full[..cut]).None?
  {
    assert full[..cut] + full[cut..] == full;
  }

  lemma TakeLaws(s: Bytes, n: nat, t: Bytes)
    ensures Take(s, n).Some? ==> Take(s + t, n) == Some((Take(s, n).value.0, Take(s, n).value.1 + t))
    ensures Take(s + t, |s|) == Some((s, t))
  {
    if n <= |s| {
      assert (s + t)[..n] == s[..n] && (s + t)[n..] == s[n..] + t;
    }
    assert (s + t)[..|s|] == s && (s + t)[|s|..] == t;
  }

  lemma NumberLaws(s: Bytes, w: nat, t: Bytes)
    ensures Number(s, w).Some? ==> Number(s + t, w) == Some((Number(s, w).value.0, Number(s, w).value.1 + t))
  {
    TakeLaws(s, w, t);
  }

  lemma NumberReads(n: nat, w: nat, t: Bytes)
    requires n < Pow256(w)
    ensures Number(BigEndian(n, w) + t, w) == Some((n, t))
  {
    TakeLaws(BigEndian(n, w), w, t);
    NumberOfBigEndian(n, w);
  }

  lemma {:induction false} RepeatLaws<T(!new)>(n: nat, p: Bytes -> Parsed<T>, s: Bytes, t: Bytes)
    requires Extends(p)
    ensures Repeat(n, p, s).Some? ==> Repeat(n, p, s + t) == Some((Repeat(n, p, s).value.0, Repeat(n, p, s).value.1 + t))
  {
    if n == 0 {
    } else {
      RepeatLaws(n - 1, p, s, t);
    }
  }

  function Concat<T>(xs: seq<T>, e: T -> Bytes): Bytes {
    if xs == [] then [] else Concat(xs[..|xs| - 1], e) + e(xs[|xs| - 1])
  }

  lemma ConcatSnoc<T>(xs: seq<T>, x: T, e: T -> Bytes)
    ensures Concat([], e) == [] && Concat(xs + [x], e) == Concat(xs, e) + e(x)
  {
    assert (xs + [x])[..|xs|] == xs;
  }

  lemma {:induction false} RepeatReads<T(!new)>(xs: seq<T>, p: Bytes -> Parsed<T>, e: T -> Bytes, ok: T -> bool, t: Bytes)
    requires ReadsBack(p, e, ok) && forall i :: 0 <= i < |xs| ==> ok(xs[i])
    ensures Repeat(|xs|, p, Concat(xs, e) + t) == Some((xs, t))
  {
    if xs == [] {
      assert Concat(xs, e) + t == t;
    } else {
      var m := |xs| - 1;
      RepeatReads(xs[..m], p, e, ok, e(xs[m]) + t);
      assert Concat(xs, e) + t == Concat(xs[..m], e) + (e(xs[m]) + t);
      assert p(e(xs[m]) + t) == Some((xs[m], t));
      assert xs[..m] + [xs[m]] == xs;
    }
  }

  // ---- Fixed-width fields ---------------------------------------------------------------------------

  lemma PowValues()
    ensures Pow256(1) == 0x100 && Pow256(2) == 0x1_0000 && Pow256(4) == M32 && Pow256(8) == W
  {
    assert Pow256(4) == M32;
  }

  function U8(s: Bytes): Parsed<u8> {
    PowValues();
    Number(s, 1)
  }

  function U16(s: Bytes): Parsed<nat> { Number(s, 2) }

  function U32(s: Bytes): Parsed<u32> {
    PowValues();
    Number(s, 4)
  }

  function U64Field(s: Bytes): Parsed<u64> {
    PowValues();
    Number(s, 8)
  }

  function EncodeU32(n: u32): Bytes { BigEndian(n, 4) }

  lemma U32Laws()
    ensures Extends(U32) && ReadsBack(U32, EncodeU32, (n: u32) => true)
  {
    PowValues();
    hide Number, BigEndian;
    forall s, t | U32(s).Some? ensures U32(s + t) == Some((U32(s).value.0, U32(s).value.1 + t)) { NumberLaws(s, 4, t); }
    forall n: u32, t ensures U32(EncodeU32(n) + t) == Some((n, t)) { NumberReads(n, 4, t); }
  }

  // ---- The cursor -------------------------------------------------------------------------------------

  class Cursor {
    const buf: Bytes
    var pos: nat

    constructor (buf: Bytes)
      ensures this.buf == buf && Valid() && Rest() == buf
    {
      this.buf := buf;
      pos := 0;
    }

    ghost predicate Valid()
      reads this
    {
      pos <= |buf|
    }

    ghost function Rest(): Bytes
      requires Valid()
      reads this
    {
      buf[pos..]
    }

    method TakeBytes(n: nat) returns (r: Option<Bytes>)
      requires Valid()
      modifies this
      ensures Valid()
      ensures r == Value(Take(old(Rest()), n)) && Rest() == After(Take(old(Rest()), n), old(Rest()))
    {
      if pos + n > |buf| {
        return None;
      }
      assert buf[pos..][..n] == buf[pos..pos + n] && buf[pos..][n..] == buf[pos + n..];
      r := Some(buf[pos..pos + n]);
      pos := pos + n;
    }

    method ReadNumber(w: nat) returns (r: Option<nat>)
      requires Valid()
      modifies this
      ensures Valid()
      ensures r == Value(Number(old(Rest()), w)) && Rest() == After(Number(old(Rest()), w), old(Rest()))
    {
      hide NumberOf;
      var b := TakeBytes(w);
      if b.None? {
        return None;
      }
      r := Some(NumberOf(b.value));
    }
  }

  function Value<T>(p: Parsed<T>): Option<T> {
    if p.None? then None else Some(p.value.0)
  }

  /** The rest after a value; a failed read leaves the cursor where it was. */
  function After<T>(p: Parsed<T>, s: Bytes): Bytes {
    if p.None? then s else p.value.1
  }
}
