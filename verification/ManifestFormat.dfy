/** The binary form of a manifest as pure functions: what it encodes to, how it is read, and that
    reading undoes writing. */
module ManifestFormat {
  import opened U64
  import opened Wrappers
  import opened Fips180
  import opened Utf8
  import opened Placement
  import opened ObjectManifest
  import opened Codec

  /** "HOLOFSM7" and the earlier "HOLOFSM6" */
  const MAGIC: Bytes := [72, 79, 76, 79, 70, 83, 77, 55]
  const MAGIC_LEGACY: Bytes := [72, 79, 76, 79, 70, 83, 77, 54]

  // ---- Lists and strings ----------------------------------------------------------------------------

  /** A count and that many 32-bit numbers. */
  function U32List(s: Bytes): Parsed<seq<u32>> {
    var n :- U32(s);
    Repeat(n.0, U32, n.1)
  }

  function EncodeU32List(xs: seq<u32>): Bytes {
    BigEndian(|xs|, 4) + Concat(xs, EncodeU32)
  }

  predicate ListFits(xs: seq<u32>) { |xs| < M32 }

  /** A 16-bit length and that many bytes of valid UTF-8. */
  function Text16(s: Bytes): Parsed<Bytes> {
    var n :- U16(s);
    var b :- Take(n.1, n.0);
    if ValidUtf8(b.0) then Some(b) else None
  }

  function EncodeText(b: Bytes): Bytes {
    BigEndian(|b|, 2) + b
  }

  predicate TextFits(b: Bytes) { |b| < 0x1_0000 && ValidUtf8(b) }

  function Hash32(s: Bytes): Parsed<Digest32> {
    var b :- Take(s, 32);
    Some((b.0, b.1))
  }

  function EncodeHash(h: Digest32): Bytes { h }

  function HashList(s: Bytes): Parsed<seq<Digest32>> {
    var n :- U32(s);
    Repeat(n.0, Hash32, n.1)
  }

  function EncodeHashList(hs: seq<Digest32>): Bytes {
    BigEndian(|hs|, 4) + Concat(hs, EncodeHash)
  }

  predicate HashesFit(hs: seq<Digest32>) { |hs| < M32 }

  /** The hash lists of one channel. */
  function HashRow(nlayers: nat): Bytes -> Parsed<seq<seq<Digest32>>> {
    s => Repeat(nlayers, HashList, s)
  }

  function EncodeHashRow(row: seq<seq<Digest32>>): Bytes {
    Concat(row, EncodeHashList)
  }

  predicate RowFits(row: seq<seq<Digest32>>) {
    forall l :: 0 <= l < |row| ==> HashesFit(row[l])
  }

  function RowOf(nlayers: nat): seq<seq<Digest32>> -> bool {
    (row: seq<seq<Digest32>>) => |row| == nlayers && RowFits(row)
  }

  lemma U32ListLaws()
    ensures Extends(U32List) && ReadsBack(U32List, EncodeU32List, ListFits)
  {
    U32Laws();
    PowValues();
    hide U32, BigEndian, EncodeU32;
    forall s, t | U32List(s).Some? ensures U32List(s + t) == Some((U32List(s).value.0, U32List(s).value.1 + t)) {
      var n := U32(s).value;
      assert U32(s + t) == Some((n.0, n.1 + t));
      RepeatLaws(n.0, U32, n.1, t);
    }
    forall xs, t | ListFits(xs) ensures U32List(EncodeU32List(xs) + t) == Some((xs, t)) {
      var body := Concat(xs, EncodeU32) + t;
      U32Reads(|xs|, body);
      assert EncodeU32List(xs) + t == BigEndian(|xs|, 4) + body;
      RepeatReads(xs, U32, EncodeU32, (n: u32) => true, t);
    }
  }

  lemma U32Reads(n: nat, t: Bytes)
    requires n < M32
    ensures U32(BigEndian(n, 4) + t) == Some((n, t))
  {
    PowValues();
    NumberReads(n, 4, t);
  }

  lemma Text16Laws()
    ensures Extends(Text16) && ReadsBack(Text16, EncodeText, TextFits)
  {
    PowValues();
    hide ValidUtf8, Number, BigEndian;
    forall s, t | Text16(s).Some? ensures Text16(s + t) == Some((Text16(s).value.0, Text16(s).value.1 + t)) {
      NumberLaws(s, 2, t);
      var n := U16(s).value;
      TakeLaws(n.1, n.0, t);
    }
    forall b, t | TextFits(b) ensures Text16(EncodeText(b) + t) == Some((b, t)) {
      NumberReads(|b|, 2, b + t);
      assert EncodeText(b) + t == BigEndian(|b|, 2) + (b + t);
      TakeLaws(b, |b|, t);
    }
  }

  lemma Hash32Laws()
    ensures Extends(Hash32) && ReadsBack(Hash32, EncodeHash, (h: Digest32) => true)
  {
    forall s, t | Hash32(s).Some? ensures Hash32(s + t) == Some((Hash32(s).value.0, Hash32(s).value.1 + t)) {
      TakeLaws(s, 32, t);
    }
    forall h: Digest32, t ensures Hash32(EncodeHash(h) + t) == Some((h, t)) { TakeLaws(h, 32, t); }
  }

  lemma HashListLaws()
    ensures Extends(HashList) && ReadsBack(HashList, EncodeHashList, HashesFit)
  {
    U32Laws();
    Hash32Laws();
    hide U32, BigEndian, EncodeHash, Hash32;
    forall s, t | HashList(s).Some? ensures HashList(s + t) == Some((HashList(s).value.0, HashList(s).value.1 + t)) {
      var n := U32(s).value;
      assert U32(s + t) == Some((n.0, n.1 + t));
      RepeatLaws(n.0, Hash32, n.1, t);
    }
    forall hs, t | HashesFit(hs) ensures HashList(EncodeHashList(hs) + t) == Some((hs, t)) {
      var body := Concat(hs, EncodeHash) + t;
      U32Reads(|hs|, body);
      assert EncodeHashList(hs) + t == BigEndian(|hs|, 4) + body;
      RepeatReads(hs, Hash32, EncodeHash, (h: Digest32) => true, t);
    }
  }

  lemma HashRowLaws(nlayers: nat)
    ensures Extends(HashRow(nlayers)) && ReadsBack(HashRow(nlayers), EncodeHashRow, RowOf(nlayers))
  {
    HashListLaws();
    hide HashList, EncodeHashList;
    var p := HashRow(nlayers);
    forall s, t | p(s).Some? ensures p(s + t) == Some((p(s).value.0, p(s).value.1 + t)) {
      RepeatLaws(nlayers, HashList, s, t);
    }
    forall row, t | RowOf(nlayers)(row) ensures p(EncodeHashRow(row) + t) == Some((row, t)) {
      RepeatReads(row, HashList, EncodeHashList, HashesFit, t);
    }
  }

  // ---- The sections of a manifest ---------------------------------------------------------------------

  function PlacementTag(p: Scheme): u8 {
    match p
    case RoundRobin => 0
    case Rendezvous => 1
    case RendezvousZoneAware => 2
  }

  function PlacementOf(tag: nat): Option<Scheme> {
    if tag == 0 then Some(RoundRobin) else if tag == 1 then Some(Rendezvous) else if tag == 2 then Some(RendezvousZoneAware) else None
  }

  function KindTag(k: ObjectKind): u8 {
    match k
    case Image => 0
    case Text => 1
    case Audio => 2
    case Opaque => 3
    case Directory => 4
  }

  function KindOf(tag: nat): Option<ObjectKind> {
    if tag == 0 then Some(Image) else if tag == 1 then Some(ObjectKind.Text) else if tag == 2 then Some(Audio)
    else if tag == 3 then Some(Opaque) else if tag == 4 then Some(ObjectKind.Directory) else None
  }

  datatype Header = Header(objectId: u64, k: u16, nlayers: u8, channels: u8, width: u32, height: u32, levels: u8, placement: Scheme)

  datatype LayerTable = LayerTable(nPerLayer: seq<u32>, symLen: seq<u32>, layerPositions: seq<seq<u32>>)

  datatype NodeTable = NodeTable(nodes: seq<Bytes>, zones: Bytes)

  datatype Integrity = Integrity(dataCid: Digest32, merkleRoot: Digest32, shardHashes: seq<seq<seq<Digest32>>>)

  datatype Tail = Tail(kind: ObjectKind, contentType: Bytes, chunkLens: seq<u32>, audioSampleRate: u32, textMinhash: seq<u32>)

  function ParseHeader(s: Bytes): Parsed<Header> {
    PowValues();
    var id :- U64Field(s);
    var k :- Number(id.1, 2);
    var nl :- U8(k.1);
    var ch :- U8(nl.1);
    var w :- U32(ch.1);
    var h :- U32(w.1);
    var lv :- U8(h.1);
    var tag :- U8(lv.1);
    var p :- PlacementOf(tag.0);
    Some((Header(id.0, k.0, nl.0, ch.0, w.0, h.0, lv.0, p), tag.1))
  }

  function ParseLayers(nlayers: nat, s: Bytes): Parsed<LayerTable> {
    var n :- Repeat(nlayers, U32, s);
    var l :- Repeat(nlayers, U32, n.1);
    var p :- Repeat(nlayers, U32List, l.1);
    Some((LayerTable(n.0, l.0, p.0), p.1))
  }

  function ParseNodes(s: Bytes): Parsed<NodeTable> {
    var n :- U32(s);
    var nodes :- Repeat(n.0, Text16, n.1);
    var zones :- Take(nodes.1, n.0);
    Some((NodeTable(nodes.0, zones.0), zones.1))
  }

  function ParseIntegrity(channels: nat, nlayers: nat, s: Bytes): Parsed<Integrity> {
    var cid :- Hash32(s);
    var root :- Hash32(cid.1);
    var hashes :- Repeat(channels, HashRow(nlayers), root.1);
    Some((Integrity(cid.0, root.0, hashes.0), hashes.1))
  }

  function ParseTail(s: Bytes): Parsed<Tail> {
    var tag :- U8(s);
    var kind :- KindOf(tag.0);
    var ct :- Text16(tag.1);
    var lens :- U32List(ct.1);
    var rate :- U32(lens.1);
    var minhash :- U32List(rate.1);
    Some((Tail(kind, ct.0, lens.0, rate.0, minhash.0), minhash.1))
  }

  // The same sections as bytes in front of t.

  function HeaderBytes(h: Header, t: Bytes): Bytes {
    BigEndian(h.objectId, 8) + (BigEndian(h.k, 2) + (BigEndian(h.nlayers, 1) + (BigEndian(h.channels, 1)
    + (BigEndian(h.width, 4) + (BigEndian(h.height, 4) + (BigEndian(h.levels, 1) + (BigEndian(PlacementTag(h.placement), 1) + t)))))))
  }

  function LayerBytes(l: LayerTable, t: Bytes): Bytes {
    Concat(l.nPerLayer, EncodeU32) + (Concat(l.symLen, EncodeU32) + (Concat(l.layerPositions, EncodeU32List) + t))
  }

  function NodeBytes(n: NodeTable, t: Bytes): Bytes {
    BigEndian(|n.nodes|, 4) + (Concat(n.nodes, EncodeText) + (n.zones + t))
  }

  function IntegrityBytes(i: Integrity, t: Bytes): Bytes {
    EncodeHash(i.dataCid) + (EncodeHash(i.merkleRoot) + (Concat(i.shardHashes, EncodeHashRow) + t))
  }

  function TailBytes(x: Tail, t: Bytes): Bytes {
    BigEndian(KindTag(x.kind), 1) + (EncodeText(x.contentType) + (EncodeU32List(x.chunkLens)
    + (BigEndian(x.audioSampleRate, 4) + (EncodeU32List(x.textMinhash) + t))))
  }

  // ---- Each section extends and reads back ---------------------------------------------------------------

  lemma HeaderExtends(s: Bytes, t: Bytes)
    requires ParseHeader(s).Some?
    ensures ParseHeader(s + t) == Some((ParseHeader(s).value.0, ParseHeader(s).value.1 + t))
  {
    hide Number, Pow256;
    PowValues();
    NumberLaws(s, 8, t);
    var s1 := Number(s, 8).value.1;
    NumberLaws(s1, 2, t);
    var s2 := Number(s1, 2).value.1;
    NumberLaws(s2, 1, t);
    var s3 := Number(s2, 1).value.1;
    NumberLaws(s3, 1, t);
    var s4 := Number(s3, 1).value.1;
    NumberLaws(s4, 4, t);
    var s5 := Number(s4, 4).value.1;
    NumberLaws(s5, 4, t);
    var s6 := Number(s5, 4).value.1;
    NumberLaws(s6, 1, t);
    var s7 := Number(s6, 1).value.1;
    NumberLaws(s7, 1, t);
  }

  lemma HeaderReads(h: Header, t: Bytes)
    ensures ParseHeader(HeaderBytes(h, t)) == Some((h, t))
  {
    hide Number, BigEndian, Pow256;
    PowValues();
    var t7 := BigEndian(PlacementTag(h.placement), 1) + t;
    var t6 := BigEndian(h.levels, 1) + t7;
    var t5 := BigEndian(h.height, 4) + t6;
    var t4 := BigEndian(h.width, 4) + t5;
    var t3 := BigEndian(h.channels, 1) + t4;
    var t2 := BigEndian(h.nlayers, 1) + t3;
    var t1 := BigEndian(h.k, 2) + t2;
    NumberReads(h.objectId, 8, t1); NumberReads(h.k, 2, t2); NumberReads(h.nlayers, 1, t3); NumberReads(h.channels, 1, t4);
    NumberReads(h.width, 4, t5); NumberReads(h.height, 4, t6); NumberReads(h.levels, 1, t7);
    NumberReads(PlacementTag(h.placement), 1, t);
    assert PlacementOf(PlacementTag(h.placement)) == Some(h.placement);
  }

  lemma LayersExtend(nlayers: nat, s: Bytes, t: Bytes)
    requires ParseLayers(nlayers, s).Some?
    ensures ParseLayers(nlayers, s + t) == Some((ParseLayers(nlayers, s).value.0, ParseLayers(nlayers, s).value.1 + t))
  {
    U32Laws(); U32ListLaws();
    hide Repeat, U32, U32List;
    RepeatLaws(nlayers, U32, s, t);
    var s1 := Repeat(nlayers, U32, s).value.1;
    RepeatLaws(nlayers, U32, s1, t);
    var s2 := Repeat(nlayers, U32, s1).value.1;
    RepeatLaws(nlayers, U32List, s2, t);
  }

  predicate LayersFit(l: LayerTable, nlayers: nat) {
    && |l.nPerLayer| == |l.symLen| == |l.layerPositions| == nlayers
    && forall i :: 0 <= i < |l.layerPositions| ==> ListFits(l.layerPositions[i])
  }

  lemma LayersRead(l: LayerTable, nlayers: nat, t: Bytes)
    requires LayersFit(l, nlayers)
    ensures ParseLayers(nlayers, LayerBytes(l, t)) == Some((l, t))
  {
    U32Laws(); U32ListLaws();
    hide Repeat, U32, U32List, Concat;
    var t2 := Concat(l.layerPositions, EncodeU32List) + t;
    var t1 := Concat(l.symLen, EncodeU32) + t2;
    RepeatReads(l.nPerLayer, U32, EncodeU32, (n: u32) => true, t1);
    RepeatReads(l.symLen, U32, EncodeU32, (n: u32) => true, t2);
    RepeatReads(l.layerPositions, U32List, EncodeU32List, ListFits, t);
  }

  lemma NodesExtend(s: Bytes, t: Bytes)
    requires ParseNodes(s).Some?
    ensures ParseNodes(s + t) == Some((ParseNodes(s).value.0, ParseNodes(s).value.1 + t))
  {
    U32Laws(); Text16Laws();
    hide Repeat, U32, Text16, Take;
    var n := U32(s).value;
    assert U32(s + t) == Some((n.0, n.1 + t));
    RepeatLaws(n.0, Text16, n.1, t);
    TakeLaws(Repeat(n.0, Text16, n.1).value.1, n.0, t);
  }

  predicate NodesFit(n: NodeTable) {
    |n.nodes| == |n.zones| < M32 && forall i :: 0 <= i < |n.nodes| ==> TextFits(n.nodes[i])
  }

  lemma NodesRead(n: NodeTable, t: Bytes)
    requires NodesFit(n)
    ensures ParseNodes(NodeBytes(n, t)) == Some((n, t))
  {
    Text16Laws();
    hide Repeat, U32, Text16, Take, Concat, BigEndian, TextFits;
    U32Reads(|n.nodes|, Concat(n.nodes, EncodeText) + (n.zones + t));
    RepeatReads(n.nodes, Text16, EncodeText, TextFits, n.zones + t);
    TakeLaws(n.zones, |n.zones|, t);
  }

  lemma IntegrityExtends(channels: nat, nlayers: nat, s: Bytes, t: Bytes)
    requires ParseIntegrity(channels, nlayers, s).Some?
    ensures ParseIntegrity(channels, nlayers, s + t)
         == Some((ParseIntegrity(channels, nlayers, s).value.0, ParseIntegrity(channels, nlayers, s).value.1 + t))
  {
    Hash32Laws(); HashRowLaws(nlayers);
    hide Repeat, Hash32, HashRow;
    var cid := Hash32(s).value;
    assert Hash32(s + t) == Some((cid.0, cid.1 + t));
    var root := Hash32(cid.1).value;
    assert Hash32(cid.1 + t) == Some((root.0, root.1 + t));
    RepeatLaws(channels, HashRow(nlayers), root.1, t);
  }

  predicate IntegrityFits(i: Integrity, channels: nat, nlayers: nat) {
    |i.shardHashes| == channels && forall c :: 0 <= c < channels ==> RowOf(nlayers)(i.shardHashes[c])
  }

  lemma IntegrityReads(i: Integrity, channels: nat, nlayers: nat, t: Bytes)
    requires IntegrityFits(i, channels, nlayers)
    ensures ParseIntegrity(channels, nlayers, IntegrityBytes(i, t)) == Some((i, t))
  {
    Hash32Laws(); HashRowLaws(nlayers);
    hide Repeat, Hash32, HashRow, Concat, EncodeHash;
    var t2 := Concat(i.shardHashes, EncodeHashRow) + t;
    var t1 := EncodeHash(i.merkleRoot) + t2;
    assert Hash32(EncodeHash(i.dataCid) + t1) == Some((i.dataCid, t1));
    assert Hash32(t1) == Some((i.merkleRoot, t2));
    RepeatReads(i.shardHashes, HashRow(nlayers), EncodeHashRow, RowOf(nlayers), t);
  }

  lemma TailExtends(s: Bytes, t: Bytes)
    requires ParseTail(s).Some?
    ensures ParseTail(s + t) == Some((ParseTail(s).value.0, ParseTail(s).value.1 + t))
  {
    PowValues();
    U32Laws(); U32ListLaws(); Text16Laws();
    hide Number, U32, U32List, Text16;
    NumberLaws(s, 1, t);
    var s1 := U8(s).value.1;
    var ct := Text16(s1).value;
    assert Text16(s1 + t) == Some((ct.0, ct.1 + t));
    var lens := U32List(ct.1).value;
    assert U32List(ct.1 + t) == Some((lens.0, lens.1 + t));
    var rate := U32(lens.1).value;
    assert U32(lens.1 + t) == Some((rate.0, rate.1 + t));
    assert U32List(rate.1 + t) == Some((U32List(rate.1).value.0, U32List(rate.1).value.1 + t));
  }

  predicate TailFits(x: Tail) {
    TextFits(x.contentType) && ListFits(x.chunkLens) && ListFits(x.textMinhash)
  }

  lemma TailReads(x: Tail, t: Bytes)
    requires TailFits(x)
    ensures ParseTail(TailBytes(x, t)) == Some((x, t))
  {
    PowValues();
    U32ListLaws(); Text16Laws();
    hide Number, U32, U32List, Text16, BigEndian, EncodeU32List, EncodeText, TextFits;
    var t4 := EncodeU32List(x.textMinhash) + t;
    var t3 := BigEndian(x.audioSampleRate, 4) + t4;
    var t2 := EncodeU32List(x.chunkLens) + t3;
    var t1 := EncodeText(x.contentType) + t2;
    NumberReads(KindTag(x.kind), 1, t1);
    assert KindOf(KindTag(x.kind)) == Some(x.kind);
    assert Text16(t1) == Some((x.contentType, t2));
    assert U32List(t2) == Some((x.chunkLens, t3));
    U32Reads(x.audioSampleRate, t4);
    assert U32List(t4) == Some((x.textMinhash, t));
  }

  // ---- The whole manifest --------------------------------------------------------------------------------

  function HeaderOf(m: Manifest): Header {
    Header(m.objectId, m.k, m.nlayers, m.channels, m.width, m.height, m.levels, m.placement)
  }

  function LayersOf(m: Manifest): LayerTable { LayerTable(m.nPerLayer, m.symLen, m.layerPositions) }

  function NodesOf(m: Manifest): NodeTable { NodeTable(m.nodes, m.zones) }

  function IntegrityOf(m: Manifest): Integrity { Integrity(m.dataCid, m.merkleRoot, m.shardHashes) }

  function TailOf(m: Manifest): Tail { Tail(m.kind, m.contentType, m.chunkLens, m.audioSampleRate, m.textMinhash) }

  function Assemble(h: Header, l: LayerTable, n: NodeTable, i: Integrity, x: Tail): Manifest {
    Manifest(h.objectId, h.k, h.nlayers, l.nPerLayer, l.symLen, l.layerPositions, h.channels, h.width, h.height, h.levels,
             n.nodes, h.placement, n.zones, i.dataCid, i.merkleRoot, i.shardHashes,
             x.kind, x.contentType, x.chunkLens, x.audioSampleRate, x.textMinhash)
  }

  /** The manifest's bytes in front of t. */
  function ManifestBytes(m: Manifest, t: Bytes): Bytes {
    MAGIC + HeaderBytes(HeaderOf(m), LayerBytes(LayersOf(m), NodeBytes(NodesOf(m), IntegrityBytes(IntegrityOf(m), TailBytes(TailOf(m), t)))))
  }

  function ParseManifest(s: Bytes): Parsed<Manifest> {
    var magic :- Take(s, 8);
    if magic.0 != MAGIC && magic.0 != MAGIC_LEGACY then None else
      var h :- ParseHeader(magic.1);
      ParseFields(h.0, h.1)
  }

  /** What follows the header. */
  function ParseFields(h: Header, s: Bytes): Parsed<Manifest> {
    var l :- ParseLayers(h.nlayers, s);
    var n :- ParseNodes(l.1);
    var i :- ParseIntegrity(h.channels, h.nlayers, n.1);
    var x :- ParseTail(i.1);
    Some((Assemble(h, l.0, n.0, i.0, x.0), x.1))
  }

  /** The sizes encode insists on, and those its length fields can hold. */
  predicate Encodable(m: Manifest) {
    && LayersFit(LayersOf(m), m.nlayers)
    && NodesFit(NodesOf(m))
    && IntegrityFits(IntegrityOf(m), m.channels, m.nlayers)
    && TailFits(TailOf(m))
  }

  lemma ManifestExtends(s: Bytes, t: Bytes)
    requires ParseManifest(s).Some?
    ensures ParseManifest(s + t) == Some((ParseManifest(s).value.0, ParseManifest(s).value.1 + t))
  {
    hide ParseHeader, ParseLayers, ParseNodes, ParseIntegrity, ParseTail, Take;
    TakeLaws(s, 8, t);
    var s1 := Take(s, 8).value.1;
    HeaderExtends(s1, t);
    var h := ParseHeader(s1).value;
    LayersExtend(h.0.nlayers, h.1, t);
    var l := ParseLayers(h.0.nlayers, h.1).value;
    NodesExtend(l.1, t);
    var n := ParseNodes(l.1).value;
    IntegrityExtends(h.0.channels, h.0.nlayers, n.1, t);
    var i := ParseIntegrity(h.0.channels, h.0.nlayers, n.1).value;
    TailExtends(i.1, t);
  }

  /** Decoding an encoding, whatever follows it, gives the manifest back. */
  lemma ManifestRoundTrip(m: Manifest, t: Bytes)
    requires Encodable(m)
    ensures ParseManifest(ManifestBytes(m, t)) == Some((m, t))
  {
    hide ParseHeader, ParseLayers, ParseNodes, ParseIntegrity, ParseTail, Take;
    hide HeaderBytes, LayerBytes, NodeBytes, IntegrityBytes, TailBytes;
    hide LayersFit, NodesFit, IntegrityFits, TailFits;
    var t4 := TailBytes(TailOf(m), t);
    var t3 := IntegrityBytes(IntegrityOf(m), t4);
    var t2 := NodeBytes(NodesOf(m), t3);
    var t1 := LayerBytes(LayersOf(m), t2);
    TakeLaws(MAGIC, 8, HeaderBytes(HeaderOf(m), t1));
    HeaderReads(HeaderOf(m), t1);
    LayersRead(LayersOf(m), m.nlayers, t2);
    NodesRead(NodesOf(m), t3);
    IntegrityReads(IntegrityOf(m), m.channels, m.nlayers, t4);
    TailReads(TailOf(m), t);
  }

  /** Every strict prefix of an encoding is rejected. */
  lemma ManifestPrefixRejected(m: Manifest, cut: nat)
    requires Encodable(m) && cut < |ManifestBytes(m, [])|
    ensures ParseManifest(ManifestBytes(m, [])[..cut]).None?
  {
    hide ParseManifest, ManifestBytes;
    forall s, t | ParseManifest(s).Some?
      ensures ParseManifest(s + t) == Some((ParseManifest(s).value.0, ParseManifest(s).value.1 + t))
    {
      ManifestExtends(s, t);
    }
    ManifestRoundTrip(m, []);
    PrefixRejected(ParseManifest, ManifestBytes(m, []), m, cut);
  }

  /** A manifest written under the earlier magic reads the same. */
  lemma LegacyMagicReads(m: Manifest, t: Bytes)
    requires Encodable(m)
    ensures ParseManifest(MAGIC_LEGACY + ManifestBytes(m, t)[8..]) == Some((m, t))
  {
    hide ParseHeader, ParseLayers, ParseNodes, ParseIntegrity, ParseTail, Take;
    hide HeaderBytes, LayerBytes, NodeBytes, IntegrityBytes, TailBytes, Encodable;
    ManifestRoundTrip(m, t);
    var rest := ManifestBytes(m, t)[8..];
    assert ManifestBytes(m, t) == MAGIC + rest;
    TakeLaws(MAGIC, 8, rest);
    TakeLaws(MAGIC_LEGACY, 8, rest);
  }

  // ---- Where the fields are ---------------------------------------------------------------------------------

  /** The number in the w bytes from place i on. */
  function FieldAt(s: Bytes, i: nat, w: nat): nat
    requires i + w <= |s|
  {
    NumberOf(s[i..i + w])
  }

  /** A field behind p, in front of t: where it is read, and what is then behind it. */
  lemma Field(s: Bytes, p: Bytes, n: nat, w: nat, t: Bytes)
    requires s == p + (BigEndian(n, w) + t) && n < Pow256(w)
    ensures |p| + w <= |s| && FieldAt(s, |p|, w) == n && s == (p + BigEndian(n, w)) + t
  {
    NumberOfBigEndian(n, w);
    assert s[|p|..|p| + w] == BigEndian(n, w);
  }

  /** The fixed header: the magic "HOLOFSM7", then each field at its own offset, 30 bytes in all. */
  lemma HeaderLayout(m: Manifest, t: Bytes)
    ensures var s := ManifestBytes(m, t);
      && |s| >= 30
      && s[..8] == [72, 79, 76, 79, 70, 83, 77, 55]
      && FieldAt(s, 8, 8) == m.objectId && FieldAt(s, 16, 2) == m.k
      && FieldAt(s, 18, 1) == m.nlayers && FieldAt(s, 19, 1) == m.channels
      && FieldAt(s, 20, 4) == m.width && FieldAt(s, 24, 4) == m.height && FieldAt(s, 28, 1) == m.levels
      && FieldAt(s, 29, 1) == (match m.placement case RoundRobin => 0 case Rendezvous => 1 case RendezvousZoneAware => 2)
      && s[30..] == LayerBytes(LayersOf(m), NodeBytes(NodesOf(m), IntegrityBytes(IntegrityOf(m), TailBytes(TailOf(m), t))))
  {
    hide LayerBytes, NodeBytes, IntegrityBytes, TailBytes, BigEndian, FieldAt, NumberOf, Pow256;
    PowValues();
    var s := ManifestBytes(m, t);
    var t8 := LayerBytes(LayersOf(m), NodeBytes(NodesOf(m), IntegrityBytes(IntegrityOf(m), TailBytes(TailOf(m), t))));
    var tag := PlacementTag(m.placement);
    var t7 := BigEndian(tag, 1) + t8;
    var t6 := BigEndian(m.levels, 1) + t7;
    var t5 := BigEndian(m.height, 4) + t6;
    var t4 := BigEndian(m.width, 4) + t5;
    var t3 := BigEndian(m.channels, 1) + t4;
    var t2 := BigEndian(m.nlayers, 1) + t3;
    var t1 := BigEndian(m.k, 2) + t2;
    var p0 := MAGIC;
    Field(s, p0, m.objectId, 8, t1);
    var p1 := p0 + BigEndian(m.objectId, 8);
    Field(s, p1, m.k, 2, t2);
    var p2 := p1 + BigEndian(m.k, 2);
    Field(s, p2, m.nlayers, 1, t3);
    var p3 := p2 + BigEndian(m.nlayers, 1);
    Field(s, p3, m.channels, 1, t4);
    var p4 := p3 + BigEndian(m.channels, 1);
    Field(s, p4, m.width, 4, t5);
    var p5 := p4 + BigEndian(m.width, 4);
    Field(s, p5, m.height, 4, t6);
    var p6 := p5 + BigEndian(m.height, 4);
    Field(s, p6, m.levels, 1, t7);
    var p7 := p6 + BigEndian(m.levels, 1);
    Field(s, p7, tag, 1, t8);
  }

  lemma {:induction false} NumbersAt(xs: seq<u32>, i: nat, t: Bytes)
    requires i < |xs|
    ensures |Concat(xs, EncodeU32)| == 4 * |xs| && FieldAt(Concat(xs, EncodeU32) + t, 4 * i, 4) == xs[i]
  {
    PowValues();
    hide BigEndian, FieldAt, NumberOf;
    var m := |xs| - 1;
    NumbersLength(xs[..m]);
    var front := Concat(xs[..m], EncodeU32);
    assert Concat(xs, EncodeU32) + t == front + (BigEndian(xs[m], 4) + t);
    if i < m {
      NumbersAt(xs[..m], i, BigEndian(xs[m], 4) + t);
    } else {
      Field(Concat(xs, EncodeU32) + t, front, xs[m], 4, t);
    }
  }

  lemma {:induction false} NumbersLength(xs: seq<u32>)
    ensures |Concat(xs, EncodeU32)| == 4 * |xs|
  {
    if xs != [] { NumbersLength(xs[..|xs| - 1]); }
  }

  /** The tables of shard counts and symbol lengths: four bytes a layer, one after the other. */
  lemma LayerLayout(m: Manifest, t: Bytes, l: nat)
    requires Encodable(m) && l < m.nlayers
    ensures var s := ManifestBytes(m, t);
      && 30 + 8 * m.nlayers <= |s|
      && FieldAt(s, 30 + 4 * l, 4) == m.nPerLayer[l] && FieldAt(s, 30 + 4 * m.nlayers + 4 * l, 4) == m.symLen[l]
  {
    hide ManifestBytes, NodeBytes, IntegrityBytes, TailBytes, FieldAt, EncodeU32, Concat;
    var s := ManifestBytes(m, t);
    HeaderLayout(m, t);
    var t2 := Concat(m.layerPositions, EncodeU32List)
      + NodeBytes(NodesOf(m), IntegrityBytes(IntegrityOf(m), TailBytes(TailOf(m), t)));
    var a, b := Concat(m.nPerLayer, EncodeU32), Concat(m.symLen, EncodeU32);
    NumbersAt(m.nPerLayer, l, b + t2);
    NumbersAt(m.symLen, l, t2);
    assert s == s[..30] + (a + (b + t2));
    FieldShifted(s[..30], a + (b + t2), 4 * l, 4);
    FieldShifted(s[..30] + a, b + t2, 4 * l, 4);
    assert s == (s[..30] + a) + (b + t2);
  }

  lemma FieldShifted(p: Bytes, s: Bytes, i: nat, w: nat)
    requires i + w <= |s|
    ensures FieldAt(p + s, |p| + i, w) == FieldAt(s, i, w)
  {
    assert (p + s)[|p| + i..|p| + i + w] == s[i..i + w];
  }

  lemma TailFront(s: Bytes, tag: u8, ct: Bytes, r: Bytes)
    requires |ct| < 0x1_0000 && s == BigEndian(tag, 1) + (BigEndian(|ct|, 2) + (ct + r))
    ensures |s| == 3 + |ct| + |r| && FieldAt(s, 0, 1) == tag && FieldAt(s, 1, 2) == |ct|
    ensures s[3..3 + |ct|] == ct && s[3 + |ct|..] == r
  {
    PowValues();
    hide BigEndian, FieldAt, NumberOf, Pow256;
    var p1 := BigEndian(tag, 1);
    EmptyFront(s);
    Field(s, [], tag, 1, BigEndian(|ct|, 2) + (ct + r));
    Field(s, p1, |ct|, 2, ct + r);
    Behind(s, p1 + BigEndian(|ct|, 2), ct, r);
  }

  lemma TailBack(r: Bytes, n: u32, lens: Bytes, rate: u32, n': u32, last: Bytes)
    requires r == BigEndian(n, 4) + (lens + (BigEndian(rate, 4) + (BigEndian(n', 4) + last)))
    ensures |r| == 12 + |lens| + |last| && FieldAt(r, 0, 4) == n
    ensures FieldAt(r, 4 + |lens|, 4) == rate && FieldAt(r, 8 + |lens|, 4) == n'
  {
    PowValues();
    hide BigEndian, FieldAt, NumberOf, Pow256;
    var t5 := BigEndian(n', 4) + last;
    var t4 := BigEndian(rate, 4) + t5;
    var p1 := BigEndian(n, 4);
    EmptyFront(r);
    Field(r, [], n, 4, lens + t4);
    Behind(r, p1, lens, t4);
    Field(r, p1 + lens, rate, 4, t5);
    Field(r, p1 + lens + BigEndian(rate, 4), n', 4, last);
  }

  lemma CutFields(s: Bytes, r: Bytes, c: nat, i: nat)
    requires c <= |s| && s[c..] == r && i + 4 <= |r|
    ensures FieldAt(s, c + i, 4) == FieldAt(r, i, 4)
  {
    assert s == s[..c] + r;
    FieldShifted(s[..c], r, i, 4);
  }

  lemma EmptyFront(s: Bytes)
    ensures [] + s == s
  {}

  lemma Behind(s: Bytes, p: Bytes, x: Bytes, t: Bytes)
    requires s == p + (x + t)
    ensures s == (p + x) + t && |p| + |x| <= |s| && s[|p|..|p| + |x|] == x
  {}

  /** Behind the hash lists: the kind's number, the content type behind its length, and so on to the end. */
  lemma TailLayout(x: Tail)
    requires TailFits(x)
    ensures var s, c := TailBytes(x, []), |x.contentType|;
      && |s| == 15 + c + 4 * |x.chunkLens| + 4 * |x.textMinhash|
      && FieldAt(s, 0, 1) == (match x.kind case Image => 0 case Text => 1 case Audio => 2 case Opaque => 3 case Directory => 4)
      && FieldAt(s, 1, 2) == c && s[3..3 + c] == x.contentType
      && FieldAt(s, 3 + c, 4) == |x.chunkLens| && FieldAt(s, 7 + c + 4 * |x.chunkLens|, 4) == x.audioSampleRate
      && FieldAt(s, 11 + c + 4 * |x.chunkLens|, 4) == |x.textMinhash|
  {
    hide BigEndian, FieldAt, Concat, EncodeU32, ValidUtf8, TailBytes;
    var s, r, c := TailBytes(x, []), BackBytes(x), 3 + |x.contentType|;
    BackLayout(x);
    TailRegrouped(x);
    TailFront(s, KindTag(x.kind), x.contentType, r);
    hide BackBytes;
    CutFields(s, r, c, 0); CutFields(s, r, c, 4 + 4 * |x.chunkLens|); CutFields(s, r, c, 8 + 4 * |x.chunkLens|);
  }

  /** What follows the content type. */
  function BackBytes(x: Tail): Bytes {
    BigEndian(|x.chunkLens|, 4) + (Concat(x.chunkLens, EncodeU32) + (BigEndian(x.audioSampleRate, 4)
    + (BigEndian(|x.textMinhash|, 4) + Concat(x.textMinhash, EncodeU32))))
  }

  lemma BackLayout(x: Tail)
    requires ListFits(x.chunkLens) && ListFits(x.textMinhash)
    ensures var r, n := BackBytes(x), 4 * |x.chunkLens|;
      && |r| == 12 + n + 4 * |x.textMinhash| && FieldAt(r, 0, 4) == |x.chunkLens|
      && FieldAt(r, 4 + n, 4) == x.audioSampleRate && FieldAt(r, 8 + n, 4) == |x.textMinhash|
  {
    hide BigEndian, FieldAt, Concat, EncodeU32;
    NumbersLength(x.chunkLens); NumbersLength(x.textMinhash);
    TailBack(BackBytes(x), |x.chunkLens|, Concat(x.chunkLens, EncodeU32), x.audioSampleRate, |x.textMinhash|,
             Concat(x.textMinhash, EncodeU32));
  }

  lemma TailRegrouped(x: Tail)
    ensures TailBytes(x, []) == BigEndian(KindTag(x.kind), 1) + (BigEndian(|x.contentType|, 2) + (x.contentType + BackBytes(x)))
  {
    hide BigEndian, Concat, EncodeU32;
    var lens, last := Concat(x.chunkLens, EncodeU32), Concat(x.textMinhash, EncodeU32);
    var t5 := BigEndian(|x.textMinhash|, 4) + last;
    var t4 := BigEndian(x.audioSampleRate, 4) + t5;
    assert EncodeU32List(x.textMinhash) + [] == t5;
    assert EncodeU32List(x.chunkLens) + t4 == BackBytes(x);
    assert EncodeText(x.contentType) + BackBytes(x) == BigEndian(|x.contentType|, 2) + (x.contentType + BackBytes(x));
  }
}
