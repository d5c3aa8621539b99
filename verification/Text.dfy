/** Text as k chunks cut at character boundaries, and text put together around holes
    (crates/holofs-codec/src/text_codec.rs). */
module Text {
  import opened Wrappers
  import opened Field
  import opened LinAlg
  import opened U64
  import opened Utf8
  import opened Shortening
  import opened Encoder
  import opened Quotients

  // ---- Cutting ----------------------------------------------------------------------------------

  /** is_char_boundary */
  predicate CharBoundary(t: Vec, i: nat) {
    Boundary(Codes(t), i)
  }

  /** The first boundary at or after s. */
  function NextBoundary(t: Vec, s: nat): (e: nat)
    requires s <= |t|
    ensures s <= e <= |t| && CharBoundary(t, e)
    ensures forall i :: s <= i < e ==> !CharBoundary(t, i)
    decreases |t| - s
  {
    if CharBoundary(t, s) then s else NextBoundary(t, s + 1)
  }

  /** Cut i of k: an even share of the bytes, shifted to a character boundary. */
  function Cut(t: Vec, k: nat, i: nat): (c: nat)
    requires k >= 1 && i <= k
    ensures c <= |t|
  {
    if i == 0 then 0
    else if i == k then |t|
    else
      ShareFits(i, |t|, k);
      NextBoundary(t, i * |t| / k)
  }

  lemma ShareFits(i: nat, n: nat, k: nat)
    requires k >= 1 && i <= k
    ensures i * n / k <= n
  {
    assert i * n <= n * k by { assert (k - i) * n >= 0; }
    DivideMonotone(i * n, n * k, k);
    ExactShare(n, k);
  }

  lemma NextMonotone(t: Vec, a: nat, b: nat)
    requires a <= b <= |t|
    ensures NextBoundary(t, a) <= NextBoundary(t, b)
  {
    hide CharBoundary, NextBoundary;
  }

  /** The cuts never go backwards, start at 0, end at the end, and all lie at character boundaries. */
  lemma CutsAscend(t: Vec, k: nat, i: nat)
    requires k >= 1 && i < k
    ensures Cut(t, k, i) <= Cut(t, k, i + 1) && Cut(t, k, 0) == 0 && Cut(t, k, k) == |t|
    ensures CharBoundary(t, Cut(t, k, i))
  {
    if 0 < i < k - 1 {
      ShareFits(i, |t|, k); ShareFits(i + 1, |t|, k);
      DivideMonotone(i * |t|, (i + 1) * |t|, k);
      NextMonotone(t, i * |t| / k, (i + 1) * |t| / k);
    }
  }

  function Chunk(t: Vec, k: nat, i: nat): (c: Vec)
    requires k >= 1 && i < k
  {
    CutsAscend(t, k, i);
    t[Cut(t, k, i)..Cut(t, k, i + 1)]
  }

  lemma ChunkLength(t: Vec, k: nat, i: nat)
    requires k >= 1 && i < k
    ensures Cut(t, k, i) <= Cut(t, k, i + 1) && |Chunk(t, k, i)| == Cut(t, k, i + 1) - Cut(t, k, i)
    ensures Chunk(t, k, i) == t[Cut(t, k, i)..Cut(t, k, i + 1)]
  {
    CutsAscend(t, k, i);
  }

  /** Each chunk of valid text is valid text. */
  lemma ChunkValid(t: Vec, k: nat, i: nat)
    requires k >= 1 && i < k && ValidUtf8(Codes(t))
    ensures ValidUtf8(Codes(Chunk(t, k, i)))
  {
    hide ValidUtf8, Boundary, Codes, Cut;
    var a, b := Cut(t, k, i), Cut(t, k, i + 1);
    CutsAscend(t, k, i);
    var codes := Codes(t);
    CutValid(codes, a);
    if i + 1 < k { CutsAscend(t, k, i + 1); } else { EndIsBoundary(codes, b); }
    BoundaryAfterCut(codes, a, b);
    CutValid(codes[a..], b - a);
    assert codes[a..][..b - a] == codes[a..b];
    CodesSlice(t, a, b);
  }

  lemma EndIsBoundary(c: seq<u8>, i: nat)
    requires i == |c|
    ensures Boundary(c, i)
  {}

  lemma BoundaryAfterCut(c: seq<u8>, a: nat, b: nat)
    requires a <= b <= |c| && Boundary(c, b)
    ensures Boundary(c[a..], b - a)
  {}

  /** The first n chunks in order. */
  function FirstChunks(t: Vec, k: nat, n: nat): Vec
    requires k >= 1 && n <= k
  {
    if n == 0 then [] else FirstChunks(t, k, n - 1) + Chunk(t, k, n - 1)
  }

  lemma {:induction false} FirstChunksAre(t: Vec, k: nat, n: nat)
    requires k >= 1 && n <= k
    ensures FirstChunks(t, k, n) == t[..Cut(t, k, n)]
  {
    hide Cut, Chunk;
    if n == 0 {
      CutsAscend(t, k, 0);
    } else {
      FirstChunksAre(t, k, n - 1);
      ChunkLength(t, k, n - 1);
      Prefixes(t, Cut(t, k, n - 1), Cut(t, k, n));
    }
  }

  lemma Prefixes(t: Vec, a: nat, b: nat)
    requires a <= b <= |t|
    ensures t[..a] + t[a..b] == t[..b]
  {}

  /** The chunks concatenate to the text. */
  lemma ChunksMakeText(t: Vec, k: nat)
    requires k >= 1
    ensures FirstChunks(t, k, k) == t
  {
    FirstChunksAre(t, k, k);
    CutsAscend(t, k, 0);
  }

  // ---- Splitting with padding -----------------------------------------------------------------------

  /** The longest of the first n chunks, and at least one byte. */
  function Longest(t: Vec, k: nat, n: nat): (m: nat)
    requires k >= 1 && n <= k
    ensures m >= 1
  {
    if n == 0 then 1 else Larger(|Chunk(t, k, n - 1)|, Longest(t, k, n - 1))
  }

  function Larger(a: nat, b: nat): nat { if a > b then a else b }

  lemma {:induction false} ChunkFits(t: Vec, k: nat, n: nat, i: nat)
    requires k >= 1 && i < n <= k
    ensures |Chunk(t, k, i)| <= Longest(t, k, n)
  {
    hide Chunk;
    if i >= n - 1 {
    } else {
      ChunkFits(t, k, n - 1, i);
    }
  }

  lemma {:induction false} LongestReached(t: Vec, k: nat, n: nat)
    requires k >= 1 && n <= k
    ensures Longest(t, k, n) == 1 || exists i :: 0 <= i < n && |Chunk(t, k, i)| == Longest(t, k, n)
  {
    hide Chunk;
    if n == 0 {
    } else {
      LongestReached(t, k, n - 1);
    }
  }

  function PadTo(c: Vec, m: nat): (p: Vec)
    requires |c| <= m
    ensures |p| == m && c <= p
  {
    c + Zero(m - |c|)
  }

  /** Chunk i padded to the common length. */
  function PaddedChunk(t: Vec, k: nat, i: nat): (p: Vec)
    requires k >= 1 && i < k
    ensures |p| == Longest(t, k, k)
  {
    ChunkFits(t, k, k, i);
    PadTo(Chunk(t, k, i), Longest(t, k, k))
  }

  /** The first n chunks, each padded with zeros to the common length. */
  function PaddedText(t: Vec, k: nat, n: nat): (p: Vec)
    requires k >= 1 && n <= k
  {
    if n == 0 then [] else PaddedText(t, k, n - 1) + PaddedChunk(t, k, n - 1)
  }

  lemma {:induction false} PaddedTextLength(t: Vec, k: nat, n: nat)
    requires k >= 1 && n <= k
    ensures |PaddedText(t, k, n)| == n * Longest(t, k, k)
  {
    hide Chunk, Longest;
    if n == 0 {
    } else {
      ChunkFits(t, k, k, n - 1);
      OneMore(n, Longest(t, k, k));
      PaddedTextLength(t, k, n - 1);
    }
  }

  lemma OneMore(n: nat, m: nat)
    requires n > 0
    ensures (n - 1) * m + m == n * m
  {}

  lemma InFirst(p: Vec, q: Vec, a: nat, b: nat)
    requires a <= b <= |p|
    ensures (p + q)[a..b] == p[a..b]
  {}

  lemma InSecond(p: Vec, q: Vec)
    ensures (p + q)[|p|..|p| + |q|] == q
  {}

  lemma {:induction false} PaddedTextAt(t: Vec, k: nat, n: nat, i: nat)
    requires k >= 1 && i < n <= k
    ensures var m := Longest(t, k, k);
      0 <= i * m <= (i + 1) * m <= |PaddedText(t, k, n)| && |Chunk(t, k, i)| <= m && PaddedText(t, k, n)[i * m..(i + 1) * m] == PadTo(Chunk(t, k, i), m)
  {
    hide Longest, Chunk, PadTo;
    var m := Longest(t, k, k);
    ChunkFits(t, k, k, i); ChunkFits(t, k, k, n - 1);
    PaddedTextLength(t, k, n - 1); PaddedTextLength(t, k, n);
    var p, q := PaddedText(t, k, n - 1), PadTo(Chunk(t, k, n - 1), m);
    assert PaddedText(t, k, n) == p + q;
    hide PaddedText;
    GapAtLeast(n - 1, n, m);
    GapAtLeast(i, i + 1, m);
    assert (n - 1) * m + m == n * m && i * m + m == (i + 1) * m;
    if i < n - 1 {
      PaddedTextAt(t, k, n - 1, i);
      InFirst(p, q, i * m, (i + 1) * m);
    } else {
      InSecond(p, q);
    }
  }

  /** The encoder recovers exactly the padded chunks: same symbol length, no further padding. */
  lemma EncoderAgrees(t: Vec, k: nat)
    requires k >= 1
    ensures CeilDiv(|PaddedText(t, k, k)|, k) == Longest(t, k, k)
    ensures forall i :: 0 <= i < k ==> (|Chunk(t, k, i)| <= Longest(t, k, k)
      && SourceChunks(PaddedText(t, k, k), k)[i] == PadTo(Chunk(t, k, i), Longest(t, k, k)))
  {
    hide Longest, Chunk, PadTo, PaddedText;
    var m, p := Longest(t, k, k), PaddedText(t, k, k);
    PaddedTextLength(t, k, k);
    CeilDivExact(m, k);
    assert Padded(p, k) == p;
    forall i | 0 <= i < k ensures |Chunk(t, k, i)| <= m && SourceChunks(p, k)[i] == PadTo(Chunk(t, k, i), m) {
      ChunkAt(p, k, m, i);
      PaddedTextAt(t, k, k, i);
    }
  }

  /** split_text_into_k_chunks */
  method SplitText(t: Vec, k: nat) returns (padded: array<Byte>, symLen: nat, chunkLens: seq<nat>)
    requires k >= 1
    ensures fresh(padded) && padded[..] == PaddedText(t, k, k) && symLen == Longest(t, k, k)
    ensures |chunkLens| == k && forall i :: 0 <= i < k ==> chunkLens[i] == |Chunk(t, k, i)|
  {
    hide Cut, NextBoundary, Chunk, PaddedText, Longest;
    var splits := ShiftSplits(t, k);
    symLen, chunkLens := MeasureChunks(t, k, splits);
    padded := PadChunks(t, k, splits, symLen);
  }

  lemma LongestStep(t: Vec, k: nat, n: nat)
    requires k >= 1 && n <= k
    ensures Longest(t, k, 0) == 1
    ensures n < k ==> Longest(t, k, n + 1) == Larger(|Chunk(t, k, n)|, Longest(t, k, n))
  {}

  method MeasureChunks(t: Vec, k: nat, splits: array<nat>) returns (symLen: nat, chunkLens: seq<nat>)
    requires k >= 1 && splits.Length == k + 1 && forall i :: 0 <= i <= k ==> splits[i] == Cut(t, k, i)
    ensures symLen == Longest(t, k, k)
    ensures |chunkLens| == k && forall i :: 0 <= i < k ==> chunkLens[i] == |Chunk(t, k, i)|
  {
    hide Cut, Longest, Chunk;
    symLen := 1;
    chunkLens := [];
    LongestStep(t, k, 0);
    for i := 0 to k
      invariant symLen == Longest(t, k, i)
      invariant |chunkLens| == i && forall j :: 0 <= j < i ==> chunkLens[j] == |Chunk(t, k, j)|
    {
      ChunkLength(t, k, i);
      LongestStep(t, k, i);
      var len := splits[i + 1] - splits[i];
      chunkLens := chunkLens + [len];
      symLen := if len > symLen then len else symLen;
    }
  }

  method PadChunks(t: Vec, k: nat, splits: array<nat>, symLen: nat) returns (padded: array<Byte>)
    requires k >= 1 && splits.Length == k + 1 && forall i :: 0 <= i <= k ==> splits[i] == Cut(t, k, i)
    requires symLen == Longest(t, k, k)
    ensures fresh(padded) && padded[..] == PaddedText(t, k, k)
  {
    hide Cut, Chunk, Longest, PadTo, PaddedText, PlaceAt;
    padded := new Byte[PlaceAt(k, symLen)](_ => 0);
    PaddedStep(t, k, 0);
    PlacesFit(0, k, symLen);
    for i := 0 to k
      invariant padded.Length == PlaceAt(k, symLen) && PlaceAt(i, symLen) <= padded.Length
      invariant padded[..PlaceAt(i, symLen)] == PaddedText(t, k, i)
      invariant forall p :: PlaceAt(i, symLen) <= p < padded.Length ==> padded[p] == 0
    {
      ChunkLength(t, k, i);
      PaddedStep(t, k, i);
      PlacesFit(i, k, symLen);
      CopyChunk(padded, PlaceAt(i, symLen), t[splits[i]..splits[i + 1]], symLen);
    }
    assert padded[..padded.Length] == padded[..];
  }

  /** Where chunk i starts. */
  function PlaceAt(i: nat, m: nat): nat { i * m }

  lemma PaddedStep(t: Vec, k: nat, i: nat)
    requires k >= 1 && i <= k
    ensures PaddedText(t, k, 0) == []
    ensures i < k ==> |Chunk(t, k, i)| <= Longest(t, k, k)
    ensures i < k ==> PaddedText(t, k, i + 1) == PaddedText(t, k, i) + PadTo(Chunk(t, k, i), Longest(t, k, k))
  {
    hide Chunk, Longest;
    if i < k { ChunkFits(t, k, k, i); }
  }

  lemma PlacesFit(i: nat, k: nat, m: nat)
    requires i < k
    ensures PlaceAt(0, m) == 0
    ensures PlaceAt(i + 1, m) == PlaceAt(i, m) + m <= PlaceAt(k, m)
  {
    OneMore(i + 1, m);
    if i + 1 < k { GapAtLeast(i + 1, k, m); }
  }

  /** copy_from_slice of one chunk into its zeroed place. */
  method CopyChunk(padded: array<Byte>, at: nat, c: Vec, m: nat)
    requires |c| <= m && at + m <= padded.Length && forall p :: at <= p < padded.Length ==> padded[p] == 0
    modifies padded
    ensures padded[..at + m] == old(padded[..at]) + PadTo(c, m)
    ensures forall p :: at + m <= p < padded.Length ==> padded[p] == 0
  {
    for j := 0 to |c|
      invariant padded[..at] == old(padded[..at]) && padded[at..at + j] == c[..j]
      invariant forall p :: at + j <= p < padded.Length ==> padded[p] == 0
    {
      padded[at + j] := c[j];
    }
  }

  /** The even cuts, then each inner one shifted in place to a character boundary. */
  method ShiftSplits(t: Vec, k: nat) returns (splits: array<nat>)
    requires k >= 1
    ensures fresh(splits) && splits.Length == k + 1 && forall i :: 0 <= i <= k ==> splits[i] == Cut(t, k, i)
  {
    hide NextBoundary, CharBoundary;
    var n := |t|;
    splits := new nat[k + 1](_ => 0);
    for i := 0 to k + 1
      invariant forall j :: 0 <= j < i ==> splits[j] == j * n / k
    {
      splits[i] := i * n / k;
    }
    for i := 1 to k
      invariant forall j :: 1 <= j < i ==> splits[j] == Cut(t, k, j)
      invariant forall j :: i <= j < k ==> splits[j] == j * n / k
    {
      ShareFits(i, n, k);
      while splits[i] < n && !CharBoundary(t, splits[i])
        invariant i * n / k <= splits[i] <= n && NextBoundary(t, splits[i]) == NextBoundary(t, i * n / k)
        invariant forall j :: 1 <= j < i ==> splits[j] == Cut(t, k, j)
        invariant forall j :: i < j < k ==> splits[j] == j * n / k
        decreases n - splits[i]
      {
        NextStep(t, splits[i]);
        splits[i] := splits[i] + 1;
      }
      NextStep(t, splits[i]);
    }
    splits[0] := 0;
    splits[k] := n;
  }

  lemma NextStep(t: Vec, s: nat)
    requires s <= |t|
    ensures NextBoundary(t, s) == if CharBoundary(t, s) then s else NextBoundary(t, s + 1)
    ensures s == |t| ==> CharBoundary(t, s)
  {}

  // ---- How even the shares are ---------------------------------------------------------------------

  /** Cut i is at or after an even share, and for valid text at most three bytes after it. */
  lemma CutNear(t: Vec, k: nat, i: nat)
    requires k >= 1 && i <= k
    ensures i * |t| / k <= Cut(t, k, i)
    ensures ValidUtf8(Codes(t)) ==> Cut(t, k, i) <= i * |t| / k + 3
  {
    hide ValidUtf8, Codes, Boundary, Continues, CharBoundary;
    ShareFits(i, |t|, k);
    if i == 0 {
      ShareOfNone(k);
    } else if i == k {
      ExactShare(|t|, k);
      assert k * |t| == |t| * k;
    } else if ValidUtf8(Codes(t)) {
      var s := i * |t| / k;
      var j := BoundaryNear(Codes(t), s);
      NextIsFirst(t, s, j);
    }
  }

  lemma ShareOfNone(k: nat)
    requires k >= 1
    ensures 0 / k == 0
  {}

  lemma NextIsFirst(t: Vec, s: nat, j: nat)
    requires s <= j <= |t| && Boundary(Codes(t), j)
    ensures NextBoundary(t, s) <= j
  {
    hide Codes, Boundary;
    assert CharBoundary(t, j);
    hide CharBoundary;
  }

  lemma NextShare(i: nat, n: nat, k: nat)
    requires k >= 1
    ensures (i + 1) * n / k <= i * n / k + n / k + 1
  {
    var p, q, r := i * n / k, n / k, (i + 1) * n / k;
    var x, y, z := i * n % k, n % k, (i + 1) * n % k;
    assert i * n == p * k + x && n == q * k + y && (i + 1) * n == r * k + z;
    assert (i + 1) * n == i * n + n;
    if r > p + q + 1 { GapAtLeast(p + q + 1, r, k); }
    assert (p + q + 1) * k == p * k + q * k + k;
  }

  /** For valid text no chunk is longer than an even share and four bytes. */
  lemma ChunkEven(t: Vec, k: nat, i: nat)
    requires k >= 1 && i < k && ValidUtf8(Codes(t))
    ensures |Chunk(t, k, i)| <= |t| / k + 4
  {
    hide ValidUtf8, Codes, Cut;
    CutNear(t, k, i); CutNear(t, k, i + 1);
    ChunkLength(t, k, i);
    NextShare(i, |t|, k);
  }

  /** Hence the common length holds the text, and for valid text exceeds an even share by at most four bytes. */
  lemma LongestEven(t: Vec, k: nat)
    requires k >= 1
    ensures |t| <= k * Longest(t, k, k)
    ensures ValidUtf8(Codes(t)) ==> Longest(t, k, k) <= |t| / k + 4
  {
    hide ValidUtf8, Codes, Chunk, Longest, Cut;
    CutReaches(t, k, k);
    CutsAscend(t, k, 0);
    LongestReached(t, k, k);
    if ValidUtf8(Codes(t)) && Longest(t, k, k) != 1 {
      var i :| 0 <= i < k && |Chunk(t, k, i)| == Longest(t, k, k);
      ChunkEven(t, k, i);
    }
  }

  lemma {:induction false} CutReaches(t: Vec, k: nat, n: nat)
    requires k >= 1 && n <= k
    ensures Cut(t, k, n) <= n * Longest(t, k, k)
  {
    hide Cut, Chunk, Longest;
    if n == 0 {
      CutsAscend(t, k, 0);
    } else {
      CutReaches(t, k, n - 1);
      ChunkLength(t, k, n - 1);
      ChunkFits(t, k, k, n - 1);
      NextMultiple(n - 1, Longest(t, k, k));
    }
  }

  // ---- Putting together ---------------------------------------------------------------------------

  /** "\n[--missing chunk #" and " not recoverable--]\n" */
  const MARKER: Vec := [10, 91, 45, 45, 109, 105, 115, 115, 105, 110, 103, 32, 99, 104, 117, 110, 107, 32, 35]
  const MARKER_END: Vec := [32, 110, 111, 116, 32, 114, 101, 99, 111, 118, 101, 114, 97, 98, 108, 101, 45, 45, 93, 10]
  const DIGITS: Vec := [48, 49, 50, 51, 52, 53, 54, 55, 56, 57]

  function Decimal(n: nat): Vec {
    (if n < 10 then [] else Decimal(n / 10)) + [DIGITS[n % 10]]
  }

  function Marker(i: nat): Vec {
    MARKER + Decimal(i) + MARKER_END
  }

  /** What one place contributes. */
  function Piece(chunks: seq<Option<Vec>>, chunkLens: seq<nat>, i: nat): Vec
    requires i < |chunks|
  {
    match chunks[i]
    case Some(c) => Short(c, if i < |chunkLens| then chunkLens[i] else |c| % 0x1_0000_0000)
    case None => Marker(i)
  }

  function Assembled(chunks: seq<Option<Vec>>, chunkLens: seq<nat>, n: nat): Vec
    requires n <= |chunks|
  {
    if n == 0 then [] else Assembled(chunks, chunkLens, n - 1) + Piece(chunks, chunkLens, n - 1)
  }

  function Holes(chunks: seq<Option<Vec>>): nat {
    if chunks == [] then 0 else Holes(chunks[..|chunks| - 1]) + if chunks[|chunks| - 1].None? then 1 else 0
  }

  /** assemble_text_with_holes */
  method AssembleTextWithHoles(chunks: seq<Option<Vec>>, chunkLens: seq<nat>) returns (out: Vec, holes: nat)
    ensures out == Assembled(chunks, chunkLens, |chunks|) && holes == Holes(chunks)
  {
    hide Marker;
    out, holes := [], 0;
    for i := 0 to |chunks|
      invariant out == Assembled(chunks, chunkLens, i) && holes == Holes(chunks[..i])
    {
      assert chunks[..i + 1][..i] == chunks[..i];
      match chunks[i] {
        case Some(bytes) =>
          var realLen := if i < |chunkLens| then chunkLens[i] else |bytes| % 0x1_0000_0000;
          out := out + bytes[..if realLen <= |bytes| then realLen else |bytes|];
        case None =>
          holes := holes + 1;
          out := out + Marker(i);
      }
    }
    assert chunks[..|chunks|] == chunks;
  }

  /** The text with the chunks at the given holes replaced by their markers. */
  function TextWithHoles(t: Vec, k: nat, known: seq<bool>, n: nat): Vec
    requires k >= 1 && n <= k == |known|
  {
    if n == 0 then [] else TextWithHoles(t, k, known, n - 1) + TextPiece(t, k, known, n - 1)
  }

  function TextPiece(t: Vec, k: nat, known: seq<bool>, i: nat): Vec
    requires k >= 1 && i < k == |known|
  {
    if known[i] then Chunk(t, k, i) else Marker(i)
  }

  /** The chunks the reader was given are the padded chunks of the text, whole or cut to sl bytes,
      except for holes. */
  ghost predicate ReadFrom(chunks: seq<Option<Vec>>, t: Vec, k: nat, sl: nat)
    requires k >= 1
  {
    |chunks| == k && forall i :: 0 <= i < k && chunks[i].Some? ==>
      chunks[i].value == PaddedChunk(t, k, i) || chunks[i].value == Short(PaddedChunk(t, k, i), sl)
  }

  /** Which chunks are there. */
  function Known(chunks: seq<Option<Vec>>): (known: seq<bool>)
    ensures |known| == |chunks| && forall i :: 0 <= i < |chunks| ==> known[i] == chunks[i].Some?
  {
    seq(|chunks|, i requires 0 <= i < |chunks| => chunks[i].Some?)
  }

  /** What a reader makes of place i of the text when the recorded chunk lengths are `lens`. */
  function PlaceRead(t: Vec, k: nat, lens: seq<nat>, known: seq<bool>, i: nat): Vec
    requires k >= 1 && i < k == |known| == |lens|
  {
    if known[i] then Short(PaddedChunk(t, k, i), lens[i]) else Marker(i)
  }

  function TextRead(t: Vec, k: nat, lens: seq<nat>, known: seq<bool>, n: nat): Vec
    requires k >= 1 && n <= k == |known| == |lens|
  {
    if n == 0 then [] else TextRead(t, k, lens, known, n - 1) + PlaceRead(t, k, lens, known, n - 1)
  }

  /** Assembly yields, place by place, the chunks as the recorded lengths cut them, with exactly the
      holes replaced by their markers. */
  lemma {:induction false} AssembledIs(chunks: seq<Option<Vec>>, lens: seq<nat>, t: Vec, k: nat, sl: nat, known: seq<bool>, n: nat)
    requires k >= 1 && ReadFrom(chunks, t, k, sl) && n <= k == |lens|
    requires forall i :: 0 <= i < k ==> lens[i] <= sl
    requires known == Known(chunks) && |chunks| == k
    ensures Assembled(chunks, lens, n) == TextRead(t, k, lens, known, n)
  {
    hide Piece, PlaceRead, ReadFrom;
    if n == 0 {
    } else {
      AssembledIs(chunks, lens, t, k, sl, known, n - 1);
      PieceIs(chunks, lens, t, k, sl, n - 1, known);
    }
  }

  lemma PieceIs(chunks: seq<Option<Vec>>, lens: seq<nat>, t: Vec, k: nat, sl: nat, i: nat, known: seq<bool>)
    requires k >= 1 && ReadFrom(chunks, t, k, sl) && i < k == |known| == |lens| && known[i] == chunks[i].Some?
    requires lens[i] <= sl
    ensures Piece(chunks, lens, i) == PlaceRead(t, k, lens, known, i)
  {
    hide PaddedChunk, Marker;
    if chunks[i].Some? {
      var p := PaddedChunk(t, k, i);
      assert Short(Short(p, sl), lens[i]) == Short(p, lens[i]);
    }
  }

  /** A recorded length that gives back chunk i: its own, or anything longer when the chunk is as
      long as the longest and so has no padding. */
  ghost predicate LengthGood(t: Vec, k: nat, len: nat, i: nat)
    requires k >= 1 && i < k
  {
    len == |Chunk(t, k, i)| || (len > |Chunk(t, k, i)| && |Chunk(t, k, i)| == Longest(t, k, k))
  }

  /** A chunk that arrived is read right exactly when its recorded length is good. */
  lemma PlaceRight(t: Vec, k: nat, lens: seq<nat>, known: seq<bool>, i: nat)
    requires k >= 1 && i < k == |known| == |lens| && known[i]
    ensures PlaceRead(t, k, lens, known, i) == Chunk(t, k, i) <==> LengthGood(t, k, lens[i], i)
  {
    hide Chunk, Longest;
    ChunkFits(t, k, k, i);
    var c, p := Chunk(t, k, i), PaddedChunk(t, k, i);
    assert p[..|c|] == c;
  }

  ghost predicate LengthsGood(t: Vec, k: nat, lens: seq<nat>, known: seq<bool>)
    requires k >= 1 && k == |known| == |lens|
  {
    forall i :: 0 <= i < k && known[i] ==> LengthGood(t, k, lens[i], i)
  }

  /** Good lengths at the chunks that arrived: the text with exactly the missing chunks marked. */
  lemma {:induction false} TextReadRight(t: Vec, k: nat, lens: seq<nat>, known: seq<bool>, n: nat)
    requires k >= 1 && n <= k == |known| == |lens| && LengthsGood(t, k, lens, known)
    ensures TextRead(t, k, lens, known, n) == TextWithHoles(t, k, known, n)
  {
    hide Chunk, Marker, LengthGood, PlaceRead;
    if n == 0 {
    } else {
      TextReadRight(t, k, lens, known, n - 1);
      if known[n - 1] { PlaceRight(t, k, lens, known, n - 1); } else { MissingPlace(t, k, lens, known, n - 1); }
    }
  }

  lemma MissingPlace(t: Vec, k: nat, lens: seq<nat>, known: seq<bool>, i: nat)
    requires k >= 1 && i < k == |known| == |lens| && !known[i]
    ensures PlaceRead(t, k, lens, known, i) == Marker(i)
  {}

  /** With a zero byte, wrong places can still add up to the right text: "a", then two zero bytes. */
  lemma PlacesAddUp()
    ensures var t, lens, known := [97, 0, 0], [2, 1], [true, true];
      !LengthsGood(t, 2, lens, known) && TextRead(t, 2, lens, known, 2) == TextWithHoles(t, 2, known, 2) == t
  {
    var t: Vec := [97, 0, 0];
    assert Codes(t) == [97, 0, 0];
    assert Cut(t, 2, 1) == 1;
    assert Chunk(t, 2, 0) == [97] && Chunk(t, 2, 1) == [0, 0];
    hide Chunk, Cut;
    assert Longest(t, 2, 0) == 1 && Longest(t, 2, 1) == 1 && Longest(t, 2, 2) == 2;
    hide Longest;
    var lens, known := [2, 1], [true, true];
    assert PlaceRead(t, 2, lens, known, 0) == [97, 0] && PlaceRead(t, 2, lens, known, 1) == [0];
    assert !LengthGood(t, 2, 2, 0);
    hide PlaceRead;
    assert TextRead(t, 2, lens, known, 1) == [97, 0];
    assert TextWithHoles(t, 2, known, 1) == [97];
  }

  // ---- The whole text ---------------------------------------------------------------------------

  /** No zero byte, so that padding shows. */
  predicate ZeroFree(v: Vec) {
    forall i :: 0 <= i < |v| ==> v[i] != 0
  }

  lemma ZeroFreeConcat(a: Vec, b: Vec)
    ensures ZeroFree(a + b) <==> ZeroFree(a) && ZeroFree(b)
  {
    if ZeroFree(a + b) {
      forall i | 0 <= i < |a| ensures a[i] != 0 { assert (a + b)[i] == a[i]; }
      forall i | 0 <= i < |b| ensures b[i] != 0 { assert (a + b)[|a| + i] == b[i]; }
    }
  }

  lemma {:induction false} DecimalZeroFree(n: nat)
    ensures ZeroFree(Decimal(n))
  {
    if n < 10 {
    } else {
      DecimalZeroFree(n / 10);
    }
  }

  lemma MarkerZeroFree(i: nat)
    ensures ZeroFree(Marker(i))
  {
    DecimalZeroFree(i);
    ZeroFreeConcat(MARKER + Decimal(i), MARKER_END);
    ZeroFreeConcat(MARKER, Decimal(i));
    assert ZeroFree(MARKER) && ZeroFree(MARKER_END);
  }

  lemma TextPieceZeroFree(t: Vec, k: nat, known: seq<bool>, i: nat)
    requires k >= 1 && i < k == |known| && ZeroFree(t)
    ensures ZeroFree(TextPiece(t, k, known, i))
  {
    hide Cut, Marker, Chunk;
    ChunkLength(t, k, i);
    MarkerZeroFree(i);
  }

  lemma {:induction false} TextZeroFree(t: Vec, k: nat, known: seq<bool>, n: nat)
    requires k >= 1 && n <= k == |known| && ZeroFree(t)
    ensures ZeroFree(TextWithHoles(t, k, known, n))
  {
    hide TextPiece;
    if n == 0 {
    } else {
      TextZeroFree(t, k, known, n - 1);
      TextPieceZeroFree(t, k, known, n - 1);
      ZeroFreeConcat(TextWithHoles(t, k, known, n - 1), TextPiece(t, k, known, n - 1));
    }
  }

  lemma {:induction false} PlacesZeroFree(t: Vec, k: nat, lens: seq<nat>, known: seq<bool>, n: nat)
    requires k >= 1 && n <= k == |known| == |lens| && ZeroFree(TextRead(t, k, lens, known, n))
    ensures forall i :: 0 <= i < n ==> ZeroFree(PlaceRead(t, k, lens, known, i))
  {
    hide PlaceRead, ZeroFree;
    if n == 0 {
    } else {
      ZeroFreeConcat(TextRead(t, k, lens, known, n - 1), PlaceRead(t, k, lens, known, n - 1));
      PlacesZeroFree(t, k, lens, known, n - 1);
    }
  }

  lemma PaddingShows(c: Vec, m: nat, len: nat)
    requires |c| <= m
    ensures |Short(PadTo(c, m), len)| > |c| ==> !ZeroFree(Short(PadTo(c, m), len))
  {
    var p := Short(PadTo(c, m), len);
    if |p| > |c| { assert p[|c|] == 0; }
  }

  /** A place that shows no padding is no longer than it should be, and of the right length only when
      its recorded length is good. */
  lemma PlaceNotLonger(t: Vec, k: nat, lens: seq<nat>, known: seq<bool>, i: nat)
    requires k >= 1 && i < k == |known| == |lens| && ZeroFree(PlaceRead(t, k, lens, known, i))
    ensures |PlaceRead(t, k, lens, known, i)| <= |TextPiece(t, k, known, i)|
    ensures known[i] && |PlaceRead(t, k, lens, known, i)| == |TextPiece(t, k, known, i)| ==> LengthGood(t, k, lens[i], i)
  {
    hide Chunk, Longest, Marker;
    if known[i] {
      ChunkFits(t, k, k, i);
      PaddingShows(Chunk(t, k, i), Longest(t, k, k), lens[i]);
    }
  }

  /** Places none of which is too long add up to the right length only when each has it. */
  lemma {:induction false} LengthsAddUp(t: Vec, k: nat, lens: seq<nat>, known: seq<bool>, n: nat)
    requires k >= 1 && n <= k == |known| == |lens|
    requires forall i :: 0 <= i < n ==> |PlaceRead(t, k, lens, known, i)| <= |TextPiece(t, k, known, i)|
    ensures |TextRead(t, k, lens, known, n)| <= |TextWithHoles(t, k, known, n)|
    ensures |TextRead(t, k, lens, known, n)| == |TextWithHoles(t, k, known, n)| ==>
      forall i :: 0 <= i < n ==> |PlaceRead(t, k, lens, known, i)| == |TextPiece(t, k, known, i)|
  {
    hide PlaceRead, TextPiece;
    if n == 0 {
    } else {
      LengthsAddUp(t, k, lens, known, n - 1);
    }
  }

  /** Without a zero byte in the text: the read is the text with exactly the missing chunks marked if and
      only if the recorded length of every chunk that arrived is good. */
  lemma TextReadExact(t: Vec, k: nat, lens: seq<nat>, known: seq<bool>)
    requires k >= 1 && k == |known| == |lens| && ZeroFree(t)
    ensures TextRead(t, k, lens, known, k) == TextWithHoles(t, k, known, k) <==> LengthsGood(t, k, lens, known)
  {
    hide LengthGood, PlaceRead, TextPiece, TextRead, TextWithHoles, ZeroFree;
    if LengthsGood(t, k, lens, known) {
      TextReadRight(t, k, lens, known, k);
    }
    if TextRead(t, k, lens, known, k) == TextWithHoles(t, k, known, k) {
      TextZeroFree(t, k, known, k);
      PlacesZeroFree(t, k, lens, known, k);
      forall i | 0 <= i < k ensures |PlaceRead(t, k, lens, known, i)| <= |TextPiece(t, k, known, i)| {
        PlaceNotLonger(t, k, lens, known, i);
      }
      LengthsAddUp(t, k, lens, known, k);
      forall i | 0 <= i < k && known[i] ensures LengthGood(t, k, lens[i], i) {
        PlaceNotLonger(t, k, lens, known, i);
      }
    }
  }

  lemma {:induction false} NoHoles(t: Vec, k: nat, known: seq<bool>, n: nat)
    requires k >= 1 && n <= k == |known| && forall i :: 0 <= i < n ==> known[i]
    ensures TextWithHoles(t, k, known, n) == FirstChunks(t, k, n)
  {
    hide Chunk, Marker;
    if n == 0 {
    } else {
      NoHoles(t, k, known, n - 1);
    }
  }

  lemma {:induction false} HolesZero(chunks: seq<Option<Vec>>)
    ensures Holes(chunks) == 0 <==> forall i :: 0 <= i < |chunks| ==> chunks[i].Some?
  {
    if chunks == [] {
    } else {
      var n := |chunks| - 1;
      HolesZero(chunks[..n]);
      assert forall i :: 0 <= i < n ==> chunks[..n][i] == chunks[i];
    }
  }

  /** With good lengths, no holes means the exact text. */
  lemma ZeroHolesIsExact(chunks: seq<Option<Vec>>, lens: seq<nat>, t: Vec, k: nat, sl: nat)
    requires k >= 1 && ReadFrom(chunks, t, k, sl) && Holes(chunks) == 0 && |lens| == k
    requires (forall i :: 0 <= i < k ==> lens[i] <= sl) && LengthsGood(t, k, lens, Known(chunks))
    ensures Assembled(chunks, lens, k) == t
  {
    hide Chunk, PaddedChunk, LengthsGood;
    HolesZero(chunks);
    AssembledIs(chunks, lens, t, k, sl, Known(chunks), k);
    TextReadRight(t, k, lens, Known(chunks), k);
    NoHoles(t, k, Known(chunks), k);
    ChunksMakeText(t, k);
  }

  /** Whatever is missing, what is read back is still valid text. */
  lemma {:induction false} StillValidText(t: Vec, k: nat, known: seq<bool>, n: nat)
    requires k >= 1 && n <= k == |known| && ValidUtf8(Codes(t))
    ensures ValidUtf8(Codes(TextWithHoles(t, k, known, n)))
  {
    hide ValidUtf8, Chunk, Marker, Codes;
    if n == 0 {
      EmptyValid();
    } else {
      StillValidText(t, k, known, n - 1);
      ChunkValid(t, k, n - 1);
      MarkerValid(n - 1);
      var last := if known[n - 1] then Chunk(t, k, n - 1) else Marker(n - 1);
      CodesJoin(TextWithHoles(t, k, known, n - 1), last);
      JoinValid(Codes(TextWithHoles(t, k, known, n - 1)), Codes(last));
    }
  }

  lemma EmptyValid()
    ensures ValidUtf8(Codes([]))
  {}

  ghost predicate Ascii(c: seq<u8>) {
    forall i :: 0 <= i < |c| ==> c[i] < 0x80
  }

  lemma {:induction false} AsciiValid(c: seq<u8>)
    requires Ascii(c)
    ensures ValidUtf8(c)
  {
    if c == [] {
    } else {
      AsciiValid(c[1..]);
    }
  }

  lemma {:induction false} DecimalAscii(n: nat)
    ensures Ascii(Codes(Decimal(n)))
  {
    if n >= 10 { DecimalAscii(n / 10); }
    DigitAscii(n % 10);
    CodesJoin(if n < 10 then [] else Decimal(n / 10), [DIGITS[n % 10]]);
  }

  lemma DigitAscii(d: nat)
    requires d < 10
    ensures Ascii(Codes([DIGITS[d]]))
  {}

  lemma MarkerValid(i: nat)
    ensures ValidUtf8(Codes(Marker(i)))
  {
    MarkersAscii();
    DecimalAscii(i);
    hide Codes, Decimal;
    CodesJoin(MARKER + Decimal(i), MARKER_END);
    CodesJoin(MARKER, Decimal(i));
    AsciiValid(Codes(Marker(i)));
  }

  lemma MarkersAscii()
    ensures Ascii(Codes(MARKER)) && Ascii(Codes(MARKER_END))
  {}
}
