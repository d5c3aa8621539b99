/** Well-formed UTF-8 byte sequences (table 3-7 of the Unicode standard) and character boundaries. */
module Utf8 {
  import opened U64

  /** A byte that continues a character. */
  predicate Continues(b: u8) { 0x80 <= b < 0xC0 }

  /** Length of the well-formed character at the start, or 0. */
  function CharLen(b: seq<u8>): (n: nat)
    ensures n <= |b| && n <= 4
  {
    if b == [] then 0
    else if b[0] < 0x80 then 1
    else if |b| >= 2 && 0xC2 <= b[0] <= 0xDF && Continues(b[1]) then 2
    else if |b| >= 3 && 0xE0 <= b[0] <= 0xEF && SecondOk(b[0], b[1]) && Continues(b[2]) then 3
    else if |b| >= 4 && 0xF0 <= b[0] <= 0xF4 && SecondOk(b[0], b[1]) && Continues(b[2]) && Continues(b[3]) then 4
    else 0
  }

  /** The second byte of a three- or four-byte character: no overlong forms, surrogates or values
      beyond the last code point. */
  predicate SecondOk(first: u8, second: u8) {
    if first == 0xE0 then 0xA0 <= second < 0xC0
    else if first == 0xED then 0x80 <= second < 0xA0
    else if first == 0xF0 then 0x90 <= second < 0xC0
    else if first == 0xF4 then 0x80 <= second < 0x90
    else Continues(second)
  }

  predicate ValidUtf8(b: seq<u8>) {
    b == [] || (CharLen(b) > 0 && ValidUtf8(b[CharLen(b)..]))
  }

  /** A place where a character starts, or the end. */
  predicate Boundary(b: seq<u8>, i: nat) {
    i == 0 || i == |b| || (i < |b| && !Continues(b[i]))
  }

  /** The first character does not depend on what follows it; its later bytes all continue it. */
  lemma CharLenLocal(b: seq<u8>, i: nat)
    requires CharLen(b) <= i <= |b| && CharLen(b) > 0
    ensures CharLen(b[..i]) == CharLen(b)
    ensures forall j :: 0 < j < CharLen(b) ==> Continues(b[j])
  {}

  /** Cutting valid text at a boundary leaves two valid texts. */
  lemma {:induction false} CutValid(b: seq<u8>, i: nat)
    requires ValidUtf8(b) && i <= |b| && Boundary(b, i)
    ensures ValidUtf8(b[..i]) && ValidUtf8(b[i..])
  {
    if i == 0 {
      assert b[..0] == [] && b[0..] == b;
    } else {
      FirstChar(b);
      FirstChar(b[..i]);
      hide CharLen, Boundary, ValidUtf8;
      var n := CharLen(b);
      BoundaryBeyond(b, i);
      CharLenLocal(b, i);
      CutRest(b, n, i);
      CutValid(b[n..], i - n);
      Slices(b, n, i);
    }
  }

  lemma Slices(b: seq<u8>, n: nat, i: nat)
    requires n <= i <= |b|
    ensures b[..i][n..] == b[n..][..i - n] && b[n..][i - n..] == b[i..]
  {}

  lemma FirstChar(b: seq<u8>)
    requires b != []
    ensures ValidUtf8(b) <==> CharLen(b) > 0 && ValidUtf8(b[CharLen(b)..])
  {
    hide CharLen;
  }

  lemma BoundaryBeyond(b: seq<u8>, i: nat)
    requires CharLen(b) > 0 && 0 < i <= |b| && Boundary(b, i)
    ensures CharLen(b) <= i
  {
    hide CharLen;
    CharLenLocal(b, CharLen(b));
  }

  lemma CutRest(b: seq<u8>, n: nat, i: nat)
    requires n <= i <= |b| && Boundary(b, i)
    ensures Boundary(b[n..], i - n)
  {}

  lemma FirstIsNoContinuation(b: seq<u8>)
    requires ValidUtf8(b) && b != []
    ensures !Continues(b[0])
  {}

  /** Valid text has a boundary at every place or at most three places further on. */
  lemma {:induction false} BoundaryNear(b: seq<u8>, i: nat) returns (j: nat)
    requires ValidUtf8(b) && i <= |b|
    ensures i <= j <= i + 3 && j <= |b| && Boundary(b, j)
  {
    if i == 0 {
      j := 0;
    } else {
      FirstChar(b);
      hide CharLen, ValidUtf8;
      var n := CharLen(b);
      if b[n..] != [] { FirstIsNoContinuation(b[n..]); }
      if i <= n {
        j := n;
      } else {
        var h := BoundaryNear(b[n..], i - n);
        j := n + h;
      }
    }
  }

  /** Valid text stays valid when put together. */
  lemma {:induction false} JoinValid(a: seq<u8>, b: seq<u8>)
    requires ValidUtf8(a) && ValidUtf8(b)
    ensures ValidUtf8(a + b)
  {
    if a == [] {
      assert a + b == b;
    } else {
      hide CharLen, ValidUtf8;
      FirstChar(a);
      JoinChar(a, b);
      JoinValid(a[CharLen(a)..], b);
      JoinRest(a, b, CharLen(a));
      FirstChar(a + b);
    }
  }

  lemma JoinRest(a: seq<u8>, b: seq<u8>, n: nat)
    requires n <= |a|
    ensures (a + b)[n..] == a[n..] + b
  {}

  lemma JoinChar(a: seq<u8>, b: seq<u8>)
    requires CharLen(a) > 0
    ensures CharLen(a + b) == CharLen(a)
  {}

  /** Numeric codes of raw bytes. */
  function Code(b: bv8): u8 { b as nat }

  function Codes(v: seq<bv8>): (c: seq<u8>)
    ensures |c| == |v|
  {
    seq(|v|, i requires 0 <= i < |v| => Code(v[i]))
  }

  lemma CodesSlice(v: seq<bv8>, i: nat, j: nat)
    requires i <= j <= |v|
    ensures Codes(v[i..j]) == Codes(v)[i..j]
  {}

  lemma CodesJoin(a: seq<bv8>, b: seq<bv8>)
    ensures Codes(a + b) == Codes(a) + Codes(b)
  {}
}
