/** Text objects over the cluster: put_text_object and get_text_object_with_holes
    (crates/holofs-client/src/client.rs). Like a file's length, chunk lengths are recorded before
    any node has acknowledged a shard. */
module ClusterText {
  import opened Wrappers
  import opened LinAlg
  import opened U64
  import opened Quotients
  import opened Utf8
  import opened ReducedSystem
  import opened Shortening
  import opened Encoder
  import opened Merkle
  import opened Cluster
  import opened ClusterRepair
  import opened Text

  ghost predicate HoldsText(cl: Client, t: Vec)
    reads cl
  {
    cl.k >= 1 && cl.SourceIs([[PaddedText(t, cl.k, cl.k)]])
  }

  function ChunkLengths(t: Vec, k: nat): (lens: seq<nat>)
    requires k >= 1
    ensures |lens| == k
  {
    seq(k, i requires 0 <= i < k => |Chunk(t, k, i)|)
  }

  /** The recorded lengths are those of this text. */
  ghost predicate RecordsText(cl: Client, t: Vec)
    reads cl
  {
    cl.k >= 1 && cl.symLen == [Longest(t, cl.k, cl.k)] && cl.chunkLens == ChunkLengths(t, cl.k)
  }

  /** put_text_object: the lengths are recorded at once, the hash lists only when every shard has
      been acknowledged. */
  method PutText(cl: Client, live: seq<u64>, id: u64, t: Vec, rng: Rng) returns (ok: bool)
    requires cl.Valid() && cl.LiveOk(live) && Apart(cl, rng) && cl.kind.Text? && cl.OneLayer()
    modifies cl, cl.nodes, rng
    ensures cl.Valid() && cl.objectId == id && RecordsText(cl, t)
    ensures ok ==> HoldsText(cl, t) && cl.AllReadable(live) && cl.AllPlaced(live, [[PaddedText(t, cl.k, cl.k)]]) && cl.merkleRoot == Root(AllHashes(cl.shardHashes))
    ensures !ok ==> cl.shardHashes == old(cl.shardHashes) && cl.merkleRoot == old(cl.merkleRoot)
    ensures !ok ==> cl.source == old(cl.source) && cl.stored == old(cl.stored)
  {
    hide PaddedText, Longest, Chunk, Client.SourceIs, Client.AllReadable, ListsValid, Root, AllHashes;
    var padded, sl, lens := SplitText(t, cl.k);
    EncoderAgrees(t, cl.k);
    cl.chunkLens := lens;
    cl.symLen := [sl];
    assert lens == ChunkLengths(t, cl.k);
    ghost var data := [[padded[..]]];
    assert cl.DataFits(data[0]);
    ok := cl.PutObject(live, id, [[padded[..]]], rng);
  }

  /** get_text_object_with_holes: the chunks the verified shards determine, as far as the recorded
      lengths let them through, and a marker for each of the others. */
  method GetTextWithHoles(cl: Client, live: seq<u64>) returns (r: ReadResult, ghost pieces: seq<Option<Vec>>)
    requires cl.Valid() && cl.InRange(live) && cl.OneLayer()
    ensures cl.HasLayer(0, 0) && !r.Bytes? && !r.LayerLost? && !r.Object?
    ensures r.Panicked? ==> cl.symLen[0] > cl.stored[0]
    ensures r.TextBytes? ==> cl.HolesRead(live, 0, 0, pieces) && |pieces| == cl.k
    ensures r.TextBytes? ==> r.bytes == Assembled(pieces, cl.chunkLens, cl.k) && r.holes == Holes(pieces)
  {
    hide ListsValid, DeterminesAt, Delivered;
    var got := cl.ReadLayerWithHoles(live, 0, 0);
    pieces := [];
    if got.None? {
      return Unavailable, pieces;
    }
    if got.value.None? {
      return Panicked, pieces;
    }
    var out, count := AssembleTextWithHoles(got.value.value, cl.chunkLens);
    pieces := got.value.value;
    r := TextBytes(out, count);
  }

  // ---- Which reads are right -------------------------------------------------------------

  /** An answer read from the shards of t with these recorded chunk lengths: place by place what the
      lengths leave of the chunks that are there; where all those lengths are good, the text with
      exactly the missing chunks marked, valid if t is, and t itself when nothing is missing; and for a
      text without zero bytes only there. */
  ghost predicate TextAnswer(bytes: Vec, holes: nat, t: Vec, k: nat, lens: seq<nat>, known: seq<bool>)
    requires k >= 1 && |known| == |lens| == k
  {
    && bytes == TextRead(t, k, lens, known, k)
    && (holes == 0 <==> forall i :: 0 <= i < k ==> known[i])
    && (holes == 0 ==> TextWithHoles(t, k, known, k) == t)
    && (LengthsGood(t, k, lens, known) ==>
      && bytes == TextWithHoles(t, k, known, k)
      && (ValidUtf8(Codes(t)) ==> ValidUtf8(Codes(bytes))))
    && (ZeroFree(t) && bytes == TextWithHoles(t, k, known, k) ==> LengthsGood(t, k, lens, known))
  }

  lemma LengthsFit(t: Vec, k: nat)
    requires k >= 1
    ensures forall i :: 0 <= i < k ==> ChunkLengths(t, k)[i] <= Longest(t, k, k)
    ensures forall known: seq<bool> :: |known| == k ==> LengthsGood(t, k, ChunkLengths(t, k), known)
  {
    hide Chunk, Longest;
    forall i | 0 <= i < k ensures ChunkLengths(t, k)[i] <= Longest(t, k, k) {
      ChunkFits(t, k, k, i);
    }
  }

  lemma ArrivedFrom(cl: Client, live: seq<u64>, pieces: seq<Option<Vec>>, t: Vec)
    requires cl.InRange(live) && cl.HasLayer(0, 0) && |cl.symLen| == 1 && HoldsText(cl, t)
    requires cl.HolesRead(live, 0, 0, pieces)
    ensures ReadFrom(pieces, t, cl.k, cl.symLen[0])
    ensures cl.stored[0] == Longest(t, cl.k, cl.k)
  {
    var k, sl := cl.k, cl.symLen[0];
    ghost var data := [[PaddedText(t, k, k)]];
    assert cl.ChannelIs(0, data[0]);
    EncoderAgrees(t, k);
    hide PaddedText, Longest, Chunk, PadTo, RawIn, DeterminesAt, SourceChunks, Client.Verified;
    assert |SourceChunks(PaddedText(t, k, k), k)[0]| == Longest(t, k, k);
  }

  lemma AnswerFrom(pieces: seq<Option<Vec>>, lens: seq<nat>, t: Vec, k: nat, sl: nat)
    requires k >= 1 && |pieces| == |lens| == k && ReadFrom(pieces, t, k, sl)
    requires forall i :: 0 <= i < k ==> lens[i] <= sl
    ensures TextAnswer(Assembled(pieces, lens, k), Holes(pieces), t, k, lens, Text.Known(pieces))
  {
    hide LengthsGood, ReadFrom, ValidUtf8, Codes, Assembled, TextRead, TextWithHoles, ZeroFree, Chunk, FirstChunks;
    var known := Text.Known(pieces);
    AssembledIs(pieces, lens, t, k, sl, known, k);
    HolesZero(pieces);
    if Holes(pieces) == 0 {
      NoHoles(t, k, known, k);
      ChunksMakeText(t, k);
    }
    if ZeroFree(t) { TextReadExact(t, k, lens, known); }
    if LengthsGood(t, k, lens, known) {
      TextReadRight(t, k, lens, known, k);
      if ValidUtf8(Codes(t)) { StillValidText(t, k, known, k); }
    }
  }

  /** Whatever was recorded by the last put begun, a read of text t is an answer from t. */
  lemma TextAnswered(cl: Client, live: seq<u64>, pieces: seq<Option<Vec>>, t: Vec, newest: Vec)
    requires cl.InRange(live) && cl.HasLayer(0, 0) && |cl.symLen| == 1
    requires HoldsText(cl, t) && RecordsText(cl, newest) && cl.HolesRead(live, 0, 0, pieces)
    ensures |pieces| == cl.k == |cl.chunkLens|
    ensures TextAnswer(Assembled(pieces, cl.chunkLens, cl.k), Holes(pieces), t, cl.k, cl.chunkLens, Text.Known(pieces))
  {
    hide TextAnswer, ReadFrom, Assembled;
    ArrivedFrom(cl, live, pieces, t);
    assert |pieces| == cl.k;
    hide Client.HolesRead, Client.HasLayer, Client.SourceIs;
    LengthsFit(newest, cl.k);
    AnswerFrom(pieces, cl.chunkLens, t, cl.k, cl.symLen[0]);
  }

  /** A failing input: t is stored, a put of the empty text stops before its first acknowledgement,
      and all raw copies of t sit under the new id. The read has no index error, reports no hole, and
      returns no text. */
  lemma NothingLeft(t: Vec, k: nat, shards: set<Shard>, pieces: seq<Option<Vec>>)
    requires k >= 1 && forall i :: 0 <= i < k ==> Raw(SourceChunks(PaddedText(t, k, k), k), i) in shards
    requires Arrived(pieces, SourceChunks(PaddedText(t, k, k), k), shards, Longest([], k, k))
    ensures Longest([], k, k) <= Longest(t, k, k)
    ensures Holes(pieces) == 0 && Assembled(pieces, ChunkLengths([], k), k) == []
  {
    hide PaddedText, SourceChunks, Longest, ChunkLengths, Assembled, Arrived, ReadFrom, TextRead, LengthsGood, CeilDiv, Chunk;
    RawCopiesArrive(SourceChunks(PaddedText(t, k, k), k), CeilDiv(|PaddedText(t, k, k)|, k), shards, pieces, Longest([], k, k));
    LengthsFit([], k);
    LongestOfEmpty(k, k);
    TextChunksRead(t, k, pieces, Longest([], k, k));
    HolesZero(pieces);
    AssembledIs(pieces, ChunkLengths([], k), t, k, Longest([], k, k), Text.Known(pieces), k);
    NothingRead(t, k, Text.Known(pieces), k);
  }

  /** When all raw copies are there, every chunk arrives whole, whatever the symbol length. */
  lemma RawCopiesArrive(chunks: seq<Vec>, len: nat, shards: set<Shard>, pieces: seq<Option<Vec>>, sl: nat)
    requires Matrix(chunks, len) && (forall i :: 0 <= i < |chunks| ==> Raw(chunks, i) in shards)
    requires Arrived(pieces, chunks, shards, sl)
    ensures |pieces| == |chunks| && forall i :: 0 <= i < |chunks| ==> pieces[i] == Some(chunks[i])
  {
    RawCopiesDetermine(shards, chunks, len);
    hide DeterminesAt, RawIn;
  }

  lemma TextChunksRead(t: Vec, k: nat, pieces: seq<Option<Vec>>, sl: nat)
    requires k >= 1 && |pieces| == k
    requires forall i :: 0 <= i < k ==> pieces[i] == Some(SourceChunks(PaddedText(t, k, k), k)[i])
    ensures ReadFrom(pieces, t, k, sl)
  {
    EncoderAgrees(t, k);
    hide PaddedText, SourceChunks, Longest, Chunk, PadTo;
  }

  lemma {:induction false} LongestOfEmpty(k: nat, n: nat)
    requires k >= 1 && n <= k
    ensures Longest([], k, n) == 1
  {
    hide Cut;
    if n == 0 {
    } else {
      LongestOfEmpty(k, n - 1);
      ChunkLength([], k, n - 1);
    }
  }

  lemma {:induction false} NothingRead(t: Vec, k: nat, known: seq<bool>, n: nat)
    requires k >= 1 && n <= k == |known| && forall i :: 0 <= i < k ==> known[i]
    ensures TextRead(t, k, ChunkLengths([], k), known, n) == []
  {
    hide PlaceRead, ChunkLengths;
    if n == 0 {
    } else {
      NothingRead(t, k, known, n - 1);
      EmptyPlace(t, k, known, n - 1);
    }
  }

  lemma EmptyPlace(t: Vec, k: nat, known: seq<bool>, i: nat)
    requires k >= 1 && i < k == |known| && known[i]
    ensures PlaceRead(t, k, ChunkLengths([], k), known, i) == []
  {
    hide PaddedChunk, Chunk, Cut;
    ChunkLength([], k, i);
  }
}
