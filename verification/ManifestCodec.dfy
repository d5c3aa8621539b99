/** Manifest::encode and Manifest::decode as the source runs them: appending to a buffer, and
    advancing a cursor. */
module ManifestCodec {
  import opened U64
  import opened Wrappers
  import opened Fips180
  import opened Utf8
  import opened ObjectManifest
  import opened Codec
  import opened ManifestFormat

  /** A read gave what the parser says, and stopped where it stops. */
  ghost predicate Agrees<T>(p: Parsed<T>, r: Option<T>, rest: Bytes) {
    r == Value(p) && (p.Some? ==> rest == p.value.1)
  }

  lemma {:induction false} RepeatStops<T>(i: nat, n: nat, p: Bytes -> Parsed<T>, s: Bytes)
    requires i < n && Repeat(i, p, s).Some? && p(Repeat(i, p, s).value.1).None?
    ensures Repeat(n, p, s).None?
  {
    if i >= n - 1 {
    } else {
      RepeatStops(i, n - 1, p, s);
    }
  }

  // ---- Reading ------------------------------------------------------------------------------------------

  method ReadU32(c: Cursor) returns (r: Option<u32>)
    requires c.Valid()
    modifies c
    ensures c.Valid() && Agrees(U32(old(c.Rest())), r, c.Rest())
  {
    hide Number;
    PowValues();
    r := c.ReadNumber(4);
  }

  method ReadU32s(c: Cursor, n: nat) returns (r: Option<seq<u32>>)
    requires c.Valid()
    modifies c
    ensures c.Valid() && Agrees(Repeat(n, U32, old(c.Rest())), r, c.Rest())
  {
    hide U32;
    var out: seq<u32> := [];
    for i := 0 to n
      invariant c.Valid() && Agrees(Repeat(i, U32, old(c.Rest())), Some(out), c.Rest())
    {
      var x := ReadU32(c);
      if x.None? {
        RepeatStops(i, n, U32, old(c.Rest()));
        return None;
      }
      out := out + [x.value];
    }
    r := Some(out);
  }

  method ReadU32List(c: Cursor) returns (r: Option<seq<u32>>)
    requires c.Valid()
    modifies c
    ensures c.Valid() && Agrees(U32List(old(c.Rest())), r, c.Rest())
  {
    hide U32, Repeat;
    var n :- ReadU32(c);
    r := ReadU32s(c, n);
  }

  method ReadU32Lists(c: Cursor, n: nat) returns (r: Option<seq<seq<u32>>>)
    requires c.Valid()
    modifies c
    ensures c.Valid() && Agrees(Repeat(n, U32List, old(c.Rest())), r, c.Rest())
  {
    hide U32List;
    var out: seq<seq<u32>> := [];
    for i := 0 to n
      invariant c.Valid() && Agrees(Repeat(i, U32List, old(c.Rest())), Some(out), c.Rest())
    {
      var x := ReadU32List(c);
      if x.None? {
        RepeatStops(i, n, U32List, old(c.Rest()));
        return None;
      }
      out := out + [x.value];
    }
    r := Some(out);
  }

  method ReadText(c: Cursor) returns (r: Option<Bytes>)
    requires c.Valid()
    modifies c
    ensures c.Valid() && Agrees(Text16(old(c.Rest())), r, c.Rest())
  {
    hide Number, ValidUtf8, Take;
    var n :- c.ReadNumber(2);
    var b :- c.TakeBytes(n);
    if !ValidUtf8(b) {
      return None;
    }
    r := Some(b);
  }

  method ReadTexts(c: Cursor, n: nat) returns (r: Option<seq<Bytes>>)
    requires c.Valid()
    modifies c
    ensures c.Valid() && Agrees(Repeat(n, Text16, old(c.Rest())), r, c.Rest())
  {
    hide Text16;
    var out: seq<Bytes> := [];
    for i := 0 to n
      invariant c.Valid() && Agrees(Repeat(i, Text16, old(c.Rest())), Some(out), c.Rest())
    {
      var x := ReadText(c);
      if x.None? {
        RepeatStops(i, n, Text16, old(c.Rest()));
        return None;
      }
      out := out + [x.value];
    }
    r := Some(out);
  }

  method ReadHash(c: Cursor) returns (r: Option<Digest32>)
    requires c.Valid()
    modifies c
    ensures c.Valid() && Agrees(Hash32(old(c.Rest())), r, c.Rest())
  {
    hide Take;
    var b :- c.TakeBytes(32);
    r := Some(b);
  }

  method ReadHashList(c: Cursor) returns (r: Option<seq<Digest32>>)
    requires c.Valid()
    modifies c
    ensures c.Valid() && Agrees(HashList(old(c.Rest())), r, c.Rest())
  {
    hide U32, Hash32;
    var count :- ReadU32(c);
    var out: seq<Digest32> := [];
    ghost var start := c.Rest();
    for i := 0 to count
      invariant c.Valid() && Agrees(Repeat(i, Hash32, start), Some(out), c.Rest())
    {
      var x := ReadHash(c);
      if x.None? {
        RepeatStops(i, count, Hash32, start);
        return None;
      }
      out := out + [x.value];
    }
    r := Some(out);
  }

  method ReadHashRow(c: Cursor, nlayers: nat) returns (r: Option<seq<seq<Digest32>>>)
    requires c.Valid()
    modifies c
    ensures c.Valid() && Agrees(HashRow(nlayers)(old(c.Rest())), r, c.Rest())
  {
    hide HashList;
    var out: seq<seq<Digest32>> := [];
    for i := 0 to nlayers
      invariant c.Valid() && Agrees(Repeat(i, HashList, old(c.Rest())), Some(out), c.Rest())
    {
      var x := ReadHashList(c);
      if x.None? {
        RepeatStops(i, nlayers, HashList, old(c.Rest()));
        return None;
      }
      out := out + [x.value];
    }
    r := Some(out);
  }

  method ReadHashRows(c: Cursor, channels: nat, nlayers: nat) returns (r: Option<seq<seq<seq<Digest32>>>>)
    requires c.Valid()
    modifies c
    ensures c.Valid() && Agrees(Repeat(channels, HashRow(nlayers), old(c.Rest())), r, c.Rest())
  {
    hide HashRow;
    var out: seq<seq<seq<Digest32>>> := [];
    for i := 0 to channels
      invariant c.Valid() && Agrees(Repeat(i, HashRow(nlayers), old(c.Rest())), Some(out), c.Rest())
    {
      var x := ReadHashRow(c, nlayers);
      if x.None? {
        RepeatStops(i, channels, HashRow(nlayers), old(c.Rest()));
        return None;
      }
      out := out + [x.value];
    }
    r := Some(out);
  }

  method ReadHeader(c: Cursor) returns (r: Option<Header>)
    requires c.Valid()
    modifies c
    ensures c.Valid() && Agrees(ParseHeader(old(c.Rest())), r, c.Rest())
  {
    hide Number, Pow256;
    PowValues();
    var id :- c.ReadNumber(8);
    var k :- c.ReadNumber(2);
    var nl :- c.ReadNumber(1);
    var ch :- c.ReadNumber(1);
    var w :- c.ReadNumber(4);
    var h :- c.ReadNumber(4);
    var lv :- c.ReadNumber(1);
    var tag :- c.ReadNumber(1);
    var p :- PlacementOf(tag);
    r := Some(Header(id, k, nl, ch, w, h, lv, p));
  }

  method ReadLayers(c: Cursor, nlayers: nat) returns (r: Option<LayerTable>)
    requires c.Valid()
    modifies c
    ensures c.Valid() && Agrees(ParseLayers(nlayers, old(c.Rest())), r, c.Rest())
  {
    hide Repeat;
    var n :- ReadU32s(c, nlayers);
    var l :- ReadU32s(c, nlayers);
    var p :- ReadU32Lists(c, nlayers);
    r := Some(LayerTable(n, l, p));
  }

  method ReadNodes(c: Cursor) returns (r: Option<NodeTable>)
    requires c.Valid()
    modifies c
    ensures c.Valid() && Agrees(ParseNodes(old(c.Rest())), r, c.Rest())
  {
    hide Repeat, U32, Take;
    var n :- ReadU32(c);
    var nodes :- ReadTexts(c, n);
    var zones :- c.TakeBytes(n);
    r := Some(NodeTable(nodes, zones));
  }

  method ReadIntegrity(c: Cursor, channels: nat, nlayers: nat) returns (r: Option<Integrity>)
    requires c.Valid()
    modifies c
    ensures c.Valid() && Agrees(ParseIntegrity(channels, nlayers, old(c.Rest())), r, c.Rest())
  {
    hide Repeat, Hash32;
    var cid :- ReadHash(c);
    var root :- ReadHash(c);
    var hashes :- ReadHashRows(c, channels, nlayers);
    r := Some(Integrity(cid, root, hashes));
  }

  method ReadTail(c: Cursor) returns (r: Option<Tail>)
    requires c.Valid()
    modifies c
    ensures c.Valid() && Agrees(ParseTail(old(c.Rest())), r, c.Rest())
  {
    hide Number, U32, U32List, Text16;
    var tag :- c.ReadNumber(1);
    var kind :- KindOf(tag);
    var ct :- ReadText(c);
    var lens :- ReadU32List(c);
    var rate :- ReadU32(c);
    var minhash :- ReadU32List(c);
    r := Some(Tail(kind, ct, lens, rate, minhash));
  }

  method ReadFields(c: Cursor, h: Header) returns (r: Option<Manifest>)
    requires c.Valid()
    modifies c
    ensures c.Valid() && Agrees(ParseFields(h, old(c.Rest())), r, c.Rest())
  {
    hide ParseLayers, ParseNodes, ParseIntegrity, ParseTail, Assemble;
    var l :- ReadLayers(c, h.nlayers);
    var n :- ReadNodes(c);
    var i :- ReadIntegrity(c, h.channels, h.nlayers);
    var x :- ReadTail(c);
    r := Some(Assemble(h, l, n, i, x));
  }

  /** Manifest::decode; bytes after the manifest are ignored. */
  method Decode(buf: Bytes) returns (r: Option<Manifest>)
    ensures r == Value(ParseManifest(buf))
  {
    hide ParseHeader, ParseFields, Take;
    var c := new Cursor(buf);
    var magic :- c.TakeBytes(8);
    if magic != MAGIC && magic != MAGIC_LEGACY {
      return None;
    }
    var h :- ReadHeader(c);
    r := ReadFields(c, h);
  }

  // ---- Writing ------------------------------------------------------------------------------------------

  /** What is still to come moves behind what has been written. */
  lemma Shift(b: Bytes, x: Bytes, rest: Bytes)
    ensures b + (x + rest) == (b + x) + rest
  {}

  method WriteU32s(xs: seq<u32>) returns (b: Bytes)
    ensures b == Concat(xs, EncodeU32)
  {
    hide BigEndian;
    b := [];
    for i := 0 to |xs|
      invariant b == Concat(xs[..i], EncodeU32)
    {
      assert xs[..i + 1][..i] == xs[..i];
      b := b + BigEndian(xs[i], 4);
    }
    assert xs[..|xs|] == xs;
  }

  method WriteU32Lists(xs: seq<seq<u32>>) returns (b: Bytes)
    ensures b == Concat(xs, EncodeU32List)
  {
    hide BigEndian;
    b := [];
    for i := 0 to |xs|
      invariant b == Concat(xs[..i], EncodeU32List)
    {
      assert xs[..i + 1][..i] == xs[..i];
      b := b + BigEndian(|xs[i]|, 4);
      var body := WriteU32s(xs[i]);
      Shift(Concat(xs[..i], EncodeU32List), BigEndian(|xs[i]|, 4), body);
      b := b + body;
    }
    assert xs[..|xs|] == xs;
  }

  method WriteTexts(xs: seq<Bytes>) returns (b: Bytes)
    ensures b == Concat(xs, EncodeText)
  {
    hide BigEndian;
    b := [];
    for i := 0 to |xs|
      invariant b == Concat(xs[..i], EncodeText)
    {
      assert xs[..i + 1][..i] == xs[..i];
      b := b + BigEndian(|xs[i]|, 2);
      Shift(Concat(xs[..i], EncodeText), BigEndian(|xs[i]|, 2), xs[i]);
      b := b + xs[i];
    }
    assert xs[..|xs|] == xs;
  }

  method WriteHashList(hs: seq<Digest32>) returns (b: Bytes)
    ensures b == EncodeHashList(hs)
  {
    hide BigEndian;
    b := BigEndian(|hs|, 4);
    for i := 0 to |hs|
      invariant b == BigEndian(|hs|, 4) + Concat(hs[..i], EncodeHash)
    {
      assert hs[..i + 1][..i] == hs[..i];
      Shift(BigEndian(|hs|, 4), Concat(hs[..i], EncodeHash), hs[i]);
      b := b + hs[i];
    }
    assert hs[..|hs|] == hs;
  }

  method WriteHashRow(row: seq<seq<Digest32>>) returns (b: Bytes)
    ensures b == EncodeHashRow(row)
  {
    hide EncodeHashList;
    b := [];
    for l := 0 to |row|
      invariant b == Concat(row[..l], EncodeHashList)
    {
      assert row[..l + 1][..l] == row[..l];
      var list := WriteHashList(row[l]);
      b := b + list;
    }
    assert row[..|row|] == row;
  }

  method WriteHashRows(rows: seq<seq<seq<Digest32>>>) returns (b: Bytes)
    ensures b == Concat(rows, EncodeHashRow)
  {
    hide EncodeHashRow;
    b := [];
    for c := 0 to |rows|
      invariant b == Concat(rows[..c], EncodeHashRow)
    {
      assert rows[..c + 1][..c] == rows[..c];
      var row := WriteHashRow(rows[c]);
      b := b + row;
    }
    assert rows[..|rows|] == rows;
  }

  lemma OneByte(x: u8)
    ensures BigEndian(x, 1) == [x]
  {
    assert BigEndian(x / 0x100, 0) == [];
  }

  method WriteHeader(h: Header, b0: Bytes, ghost rest: Bytes) returns (b: Bytes)
    ensures b + rest == b0 + HeaderBytes(h, rest)
  {
    hide BigEndian;
    ghost var t7 := BigEndian(PlacementTag(h.placement), 1) + rest;
    ghost var t6 := BigEndian(h.levels, 1) + t7;
    ghost var t5 := BigEndian(h.height, 4) + t6;
    ghost var t4 := BigEndian(h.width, 4) + t5;
    ghost var t3 := BigEndian(h.channels, 1) + t4;
    ghost var t2 := BigEndian(h.nlayers, 1) + t3;
    ghost var t1 := BigEndian(h.k, 2) + t2;
    OneByte(h.nlayers); OneByte(h.channels); OneByte(h.levels); OneByte(PlacementTag(h.placement));
    Shift(b0, BigEndian(h.objectId, 8), t1);
    b := b0 + BigEndian(h.objectId, 8);
    Shift(b, BigEndian(h.k, 2), t2);
    b := b + BigEndian(h.k, 2);
    Shift(b, [h.nlayers], t3);
    b := b + [h.nlayers];
    Shift(b, [h.channels], t4);
    b := b + [h.channels];
    Shift(b, BigEndian(h.width, 4), t5);
    b := b + BigEndian(h.width, 4);
    Shift(b, BigEndian(h.height, 4), t6);
    b := b + BigEndian(h.height, 4);
    Shift(b, [h.levels], t7);
    b := b + [h.levels];
    Shift(b, [PlacementTag(h.placement)], rest);
    b := b + [PlacementTag(h.placement)];
  }

  method WriteLayers(l: LayerTable, b0: Bytes, ghost rest: Bytes) returns (b: Bytes)
    ensures b + rest == b0 + LayerBytes(l, rest)
  {
    hide Concat;
    var n := WriteU32s(l.nPerLayer);
    var s := WriteU32s(l.symLen);
    var p := WriteU32Lists(l.layerPositions);
    Shift(b0, n, s + (p + rest));
    Shift(b0 + n, s, p + rest);
    Shift(b0 + n + s, p, rest);
    b := b0 + n + s + p;
  }

  method WriteNodes(n: NodeTable, b0: Bytes, ghost rest: Bytes) returns (b: Bytes)
    ensures b + rest == b0 + NodeBytes(n, rest)
  {
    hide Concat, BigEndian;
    var count := BigEndian(|n.nodes|, 4);
    var names := WriteTexts(n.nodes);
    Shift(b0, count, names + (n.zones + rest));
    Shift(b0 + count, names, n.zones + rest);
    Shift(b0 + count + names, n.zones, rest);
    b := b0 + count + names + n.zones;
  }

  method WriteIntegrity(i: Integrity, b0: Bytes, ghost rest: Bytes) returns (b: Bytes)
    ensures b + rest == b0 + IntegrityBytes(i, rest)
  {
    hide Concat;
    var hashes := WriteHashRows(i.shardHashes);
    Shift(b0, i.dataCid, i.merkleRoot + (hashes + rest));
    Shift(b0 + i.dataCid, i.merkleRoot, hashes + rest);
    Shift(b0 + i.dataCid + i.merkleRoot, hashes, rest);
    b := b0 + i.dataCid + i.merkleRoot + hashes;
  }

  method WriteTail(x: Tail, b0: Bytes, ghost rest: Bytes) returns (b: Bytes)
    ensures b + rest == b0 + TailBytes(x, rest)
  {
    hide Concat, BigEndian;
    var lens := WriteU32s(x.chunkLens);
    var minhash := WriteU32s(x.textMinhash);
    ghost var t4 := EncodeU32List(x.textMinhash) + rest;
    ghost var t3 := BigEndian(x.audioSampleRate, 4) + t4;
    ghost var t2 := EncodeU32List(x.chunkLens) + t3;
    OneByte(KindTag(x.kind));
    Shift(b0, [KindTag(x.kind)], EncodeText(x.contentType) + t2);
    b := b0 + [KindTag(x.kind)];
    Shift(b, EncodeText(x.contentType), t2);
    Shift(b, BigEndian(|x.contentType|, 2), x.contentType);
    b := b + BigEndian(|x.contentType|, 2) + x.contentType;
    Shift(b, EncodeU32List(x.chunkLens), t3);
    Shift(b, BigEndian(|x.chunkLens|, 4), lens);
    b := b + BigEndian(|x.chunkLens|, 4) + lens;
    Shift(b, BigEndian(x.audioSampleRate, 4), t4);
    b := b + BigEndian(x.audioSampleRate, 4);
    Shift(b, EncodeU32List(x.textMinhash), rest);
    Shift(b, BigEndian(|x.textMinhash|, 4), minhash);
    b := b + BigEndian(|x.textMinhash|, 4) + minhash;
  }

  /** The list lengths that encode asserts. */
  predicate Shaped(m: Manifest) {
    && |m.nPerLayer| == |m.symLen| == |m.layerPositions| == m.nlayers && |m.zones| == |m.nodes|
    && |m.shardHashes| == m.channels && forall c :: 0 <= c < |m.shardHashes| ==> |m.shardHashes[c]| == m.nlayers
  }

  /** Manifest::encode */
  method Encode(m: Manifest) returns (b: Bytes)
    requires Shaped(m)
    ensures b == ManifestBytes(m, [])
  {
    hide HeaderBytes, LayerBytes, NodeBytes, IntegrityBytes, TailBytes;
    ghost var t4 := TailBytes(TailOf(m), []);
    ghost var t3 := IntegrityBytes(IntegrityOf(m), t4);
    ghost var t2 := NodeBytes(NodesOf(m), t3);
    ghost var t1 := LayerBytes(LayersOf(m), t2);
    b := WriteHeader(HeaderOf(m), MAGIC, t1);
    b := WriteLayers(LayersOf(m), b, t2);
    b := WriteNodes(NodesOf(m), b, t3);
    b := WriteIntegrity(IntegrityOf(m), b, t4);
    b := WriteTail(TailOf(m), b, []);
    assert b + [] == b;
  }
}
