/** Whole runs of the cluster: puts, reads and repairs by the client, interleaved with node
    wipes and arbitrary planted shards. */
module ClusterRun {
  import opened LinAlg
  import opened ReducedSystem
  import opened Encoder
  import opened Quotients
  import opened Merkle
  import opened NodeStore
  import opened U64
  import opened Text
  import opened Utf8
  import opened Cluster
  import opened ClusterRepair
  import opened ClusterOpaque
  import opened ClusterText

  datatype Op =
    | Put(live: seq<u64>, id: u64, data: seq<seq<Vec>>)
    | PutText(live: seq<u64>, id: u64, text: Vec)
    | PutFile(live: seq<u64>, id: u64, bytes: Vec)
    | Read(live: seq<u64>, layers: nat)
    | ReadText(live: seq<u64>)
    | ReadFile(live: seq<u64>)
    | Repair(live: seq<u64>, replacement: u64, d: nat)
    | Wipe(node: nat)
    | Inject(node: nat, key: Key, shard: Shard)

  /** What the client asserts of its arguments; every put and read is for objects of its own kind. */
  ghost predicate OpOk(cl: Client, lens: seq<nat>, op: Op) {
    match op
    case Put(live, _, data) =>
      cl.LiveOk(live) && cl.Layered() && |data| == cl.plan.channels && forall c :: 0 <= c < |data| ==> cl.FitsLengths(lens, data[c])
    case PutText(live, _, _) => cl.LiveOk(live) && cl.kind.Text? && cl.OneLayer()
    case PutFile(live, _, _) => cl.LiveOk(live) && cl.kind.Opaque? && cl.OneLayer()
    case Read(live, n) => cl.InRange(live) && cl.Layered() && n <= |cl.plan.nPerLayer|
    case ReadText(live) => cl.InRange(live) && cl.kind.Text? && cl.OneLayer()
    case ReadFile(live) => cl.InRange(live) && cl.kind.Opaque? && cl.OneLayer()
    case Repair(live, replacement, _) => cl.LiveOk(live) && replacement in live
    case Wipe(n) => n < |cl.nodes|
    case Inject(n, _, _) => n < |cl.nodes|
  }

  lemma OpOkAgain(cl: Client, lens: seq<nat>, now: seq<nat>, op: Op)
    requires OpOk(cl, lens, op) && (cl.Layered() ==> now == lens)
    ensures OpOk(cl, now, op)
  {}

  // ---- What a run has stored, and what it has recorded ---------------------------------------

  datatype Content = Layers(data: seq<seq<Vec>>) | TextOf(text: Vec) | FileOf(bytes: Vec)

  function DataOf(c: Content, k: nat): seq<seq<Vec>>
    requires k >= 1
  {
    match c
    case Layers(data) => data
    case TextOf(t) => [[PaddedText(t, k, k)]]
    case FileOf(bytes) => [[bytes]]
  }

  function AfterPut(op: Op, done: bool, c: Content): Content {
    if !done then c
    else match op
      case Put(_, _, data) => Layers(data)
      case PutText(_, _, t) => TextOf(t)
      case PutFile(_, _, bytes) => FileOf(bytes)
      case _ => c
  }

  /** What the last completed put stored. */
  function LastContent(ops: seq<Op>, done: seq<bool>, start: Content): Content
    requires |ops| == |done|
  {
    if ops == [] then start
    else
      var m := |ops| - 1;
      AfterPut(ops[m], done[m], LastContent(ops[..m], done[..m], start))
  }

  /** What the last put begun was to store, completed or not. */
  function LastBegun(ops: seq<Op>, start: Content): Content {
    if ops == [] then start
    else AfterPut(ops[|ops| - 1], true, LastBegun(ops[..|ops| - 1], start))
  }

  /** The recorded lengths are those of this content. */
  ghost predicate Records(cl: Client, c: Content)
    reads cl
  {
    match c
    case Layers(_) => true
    case TextOf(t) => RecordsText(cl, t)
    case FileOf(bytes) => RecordsFile(cl, |bytes|)
  }

  /** What a read must return while `content` is stored and the lengths of `begun` are recorded. */
  ghost predicate ReadsBack(op: Op, r: ReadResult, content: Content, begun: Content, k: nat)
    requires k >= 1
  {
    match op
    case Read(_, n) => ObjectRight(r, DataOf(content, k), n, k)
    case ReadFile(_) => content.FileOf? && begun.FileOf? ==> FileRight(r, content.bytes, |begun.bytes|, k)
    case ReadText(_) => content.TextOf? && begun.TextOf? ==> TextRight(r, content.text, begun.text, k)
    case _ => true
  }

  /** The zero-padded layers, or an honest failure. */
  ghost predicate ObjectRight(r: ReadResult, data: seq<seq<Vec>>, n: nat, k: nat)
    requires k >= 1
  {
    && (r.Object? || r.LayerLost? || r.Unavailable?)
    && (r.Object? ==> |r.layers| == |data| && forall c :: 0 <= c < |data| ==> ChannelRight(r.layers[c], data[c], n, k))
  }

  ghost predicate ChannelRight(layers: seq<Vec>, data: seq<Vec>, n: nat, k: nat)
    requires k >= 1
  {
    |layers| == n <= |data| && forall l :: 0 <= l < n ==> layers[l] == Padded(data[l], k)
  }

  /** The file itself, exactly when the recorded length n is good. */
  ghost predicate FileRight(r: ReadResult, file: Vec, n: nat, k: nat)
    requires k >= 1
  {
    && !r.TextBytes? && !r.Object?
    && (r.Bytes? ==> (r.value == file <==> n == |file| || (n > |file| && |file| % k == 0)))
    && (r.Panicked? ==> n > |file|)
  }

  ghost predicate TextRight(r: ReadResult, t: Vec, newest: Vec, k: nat)
    requires k >= 1
  {
    && !r.Bytes? && !r.LayerLost? && !r.Object?
    && (r.TextBytes? ==> exists known: seq<bool> ::
          |known| == k && TextAnswer(r.bytes, r.holes, t, k, ChunkLengths(newest, k), known))
    && (r.Panicked? ==> Longest(newest, k, k) > Longest(t, k, k))
  }

  // ---- One step --------------------------------------------------------------------------------

  method StepFile(cl: Client, live: seq<u64>, ghost content: Content, ghost begun: Content) returns (r: ReadResult)
    requires cl.Valid() && OpOk(cl, cl.symLen, ReadFile(live)) && cl.SourceIs(DataOf(content, cl.k)) && Records(cl, begun)
    ensures ReadsBack(ReadFile(live), r, content, begun, cl.k)
  {
    hide Client.Valid, CeilDiv;
    r := GetOpaque(cl, live);
    if content.FileOf? && begun.FileOf? {
      FileReadIs(cl, live, r, content.bytes, |begun.bytes|);
      FileReadExact(content.bytes, cl.k, |begun.bytes|, cl.Verified(live, 0, 0));
      LongerOnly(|begun.bytes|, |content.bytes|, cl.k);
    }
  }

  lemma LongerOnly(n: nat, m: nat, k: nat)
    requires k >= 1
    ensures CeilDiv(n, k) > CeilDiv(m, k) ==> n > m
  {
    if n <= m { DivideMonotone(n + k - 1, m + k - 1, k); }
  }

  method StepText(cl: Client, live: seq<u64>, ghost content: Content, ghost begun: Content) returns (r: ReadResult)
    requires cl.Valid() && OpOk(cl, cl.symLen, ReadText(live)) && cl.SourceIs(DataOf(content, cl.k)) && Records(cl, begun)
    ensures ReadsBack(ReadText(live), r, content, begun, cl.k)
  {
    hide Client.Valid, Client.HolesRead, TextAnswer, Assembled;
    ghost var pieces;
    r, pieces := GetTextWithHoles(cl, live);
    if content.TextOf? && begun.TextOf? {
      TextLayer(cl, content.text);
      if r.TextBytes? { TextAnswered(cl, live, pieces, content.text, begun.text); }
    }
  }

  lemma TextLayer(cl: Client, t: Vec)
    requires cl.HasLayer(0, 0) && HoldsText(cl, t)
    ensures cl.stored[0] == Longest(t, cl.k, cl.k)
  {
    var k := cl.k;
    ghost var data := [[PaddedText(t, k, k)]];
    assert cl.ChannelIs(0, data[0]);
    EncoderAgrees(t, k);
    hide PaddedText, Longest, Chunk, PadTo, SourceChunks;
    assert |SourceChunks(PaddedText(t, k, k), k)[0]| == Longest(t, k, k);
  }

  method StepObject(cl: Client, live: seq<u64>, n: nat, ghost data: seq<seq<Vec>>) returns (r: ReadResult)
    requires cl.Valid() && OpOk(cl, cl.symLen, Read(live, n)) && cl.SourceIs(data)
    ensures ObjectRight(r, data, n, cl.k)
  {
    SourceShape(cl, data);
    hide Client.Valid, Client.Readable, Client.ChannelRead, ChannelRight, Client.SourceIs;
    r := cl.ReadObject(live, n);
    if r.Object? {
      forall c | 0 <= c < |data| ensures ChannelRight(r.layers[c], data[c], n, cl.k) {
        ChannelIsData(cl, c, n, r.layers[c], data);
      }
    }
  }

  lemma SourceShape(cl: Client, data: seq<seq<Vec>>)
    requires cl.ManifestValid() && cl.SourceIs(data)
    ensures |data| == cl.plan.channels && |cl.symLen| == |cl.plan.nPerLayer|
    ensures forall c :: 0 <= c < |data| ==> |cl.symLen| <= |data[c]|
  {
    hide SourceChunks;
    forall c | 0 <= c < |data| && |cl.symLen| > 0 ensures |cl.symLen| <= |data[c]| {
      assert LayerValid(cl.shardHashes, cl.source, cl.stored, cl.k, c, 0);
      assert cl.ChannelIs(c, data[c]);
    }
  }

  lemma ChannelIsData(cl: Client, c: nat, n: nat, layers: seq<Vec>, data: seq<seq<Vec>>)
    requires cl.SourceIs(data) && c < |data| && cl.ChannelRead(c, n, layers)
    requires n <= |data[c]|
    ensures ChannelRight(layers, data[c], n, cl.k)
  {
    hide SourceChunks, Padded;
    assert cl.ChannelIs(c, data[c]);
    forall l | 0 <= l < n ensures layers[l] == Padded(data[c][l], cl.k) {
      FlattenSource(data[c][l], cl.k);
    }
  }

  predicate IsPut(op: Op) { op.Put? || op.PutText? || op.PutFile? }

  predicate IsRead(op: Op) { op.Read? || op.ReadText? || op.ReadFile? }

  method StepPut(cl: Client, op: Op, rng: Rng, ghost content: Content) returns (done: bool)
    requires cl.Valid() && Apart(cl, rng) && OpOk(cl, cl.symLen, op) && IsPut(op)
    requires cl.SourceIs(DataOf(content, cl.k))
    modifies cl, cl.nodes, rng
    ensures cl.Valid() && (cl.Layered() ==> cl.symLen == old(cl.symLen))
    ensures cl.SourceIs(DataOf(AfterPut(op, done, content), cl.k)) && Records(cl, AfterPut(op, true, content))
    ensures done ==> cl.AllReadable(op.live)
    ensures done || old(cl.RootIsCurrent()) ==> cl.RootIsCurrent()
  {
    hide ListsValid, SourceChunks, Client.AllReadable, Client.NodesValid, Root, AllHashes;
    match op {
      case Put(live, id, data) =>
        done := cl.PutObject(live, id, data, rng);
      case PutText(live, id, t) =>
        done := ClusterText.PutText(cl, live, id, t, rng);
      case PutFile(live, id, bytes) =>
        done := PutOpaque(cl, live, id, bytes, rng);
    }
  }

  method StepRead(cl: Client, op: Op, ghost content: Content, ghost begun: Content) returns (r: ReadResult)
    requires cl.Valid() && OpOk(cl, cl.symLen, op) && IsRead(op)
    requires cl.SourceIs(DataOf(content, cl.k)) && Records(cl, begun)
    ensures ReadsBack(op, r, content, begun, cl.k)
  {
    assert cl.k >= 1;
    hide Client.Valid, OpOk, Client.SourceIs, DataOf, Records;
    match op {
      case Read(live, n) =>
        r := StepObject(cl, live, n, DataOf(content, cl.k));
      case ReadText(live) =>
        r := StepText(cl, live, content, begun);
      case ReadFile(live) =>
        r := StepFile(cl, live, content, begun);
    }
  }

  /** Repairs, deaths and planted shards change neither what is stored nor what is recorded. */
  method StepOther(cl: Client, op: Op, rng: Rng) returns (done: bool)
    requires cl.Valid() && Apart(cl, rng) && OpOk(cl, cl.symLen, op) && !IsPut(op) && !IsRead(op)
    modifies cl`shardHashes, cl`merkleRoot, cl.nodes, rng
    ensures cl.Valid()
    ensures (if op.Repair? then done else old(cl.RootIsCurrent())) ==> cl.RootIsCurrent()
  {
    hide ListsValid, Root, AllHashes;
    done := true;
    match op {
      case Repair(live, replacement, d) =>
        ghost var purged;
        done, purged := RepairNode(cl, live, replacement, d, rng);
      case Wipe(n) =>
        cl.nodes[n].Wipe();
      case Inject(n, key, shard) =>
        cl.nodes[n].InjectCorrupt(key, shard);
    }
  }

  method Step(cl: Client, op: Op, rng: Rng, ghost content: Content, ghost begun: Content)
    returns (done: bool, r: ReadResult)
    requires cl.Valid() && Apart(cl, rng) && OpOk(cl, cl.symLen, op)
    requires cl.SourceIs(DataOf(content, cl.k)) && Records(cl, begun)
    modifies cl, cl.nodes, rng
    ensures cl.Valid() && (cl.Layered() ==> cl.symLen == old(cl.symLen))
    ensures cl.SourceIs(DataOf(AfterPut(op, done, content), cl.k)) && Records(cl, AfterPut(op, true, begun))
    ensures ReadsBack(op, r, content, begun, cl.k)
    ensures IsPut(op) && done ==> cl.AllReadable(op.live)
    ensures RootAfter(op, done, old(cl.RootIsCurrent())) ==> cl.RootIsCurrent()
  {
    assert cl.k >= 1;
    hide Client.Valid, OpOk, DataOf, Client.AllReadable, ReadsBack, Root, AllHashes;
    done, r := true, Unavailable;
    OtherOps(op, content, begun, r, cl.k);
    if IsPut(op) {
      done := StepPut(cl, op, rng, content);
      PutIgnores(op, content, begun);
    } else if IsRead(op) {
      r := StepRead(cl, op, content, begun);
    } else {
      done := StepOther(cl, op, rng);
    }
  }

  /** A completed put or repair leaves the root of the listed hashes, and only a repair that was broken
      off may leave another one. */
  predicate RootAfter(op: Op, done: bool, before: bool) {
    if op.Repair? then done else before || (IsPut(op) && done)
  }

  lemma RootMonotone(op: Op, before: bool, more: bool)
    requires before ==> more
    ensures forall done :: RootAfter(op, done, before) ==> RootAfter(op, done, more)
  {}

  predicate RootStays(ops: seq<Op>, done: seq<bool>, start: bool)
    requires |ops| == |done|
  {
    if ops == [] then start
    else
      var m := |ops| - 1;
      RootAfter(ops[m], done[m], RootStays(ops[..m], done[..m], start))
  }

  lemma OtherOps(op: Op, content: Content, begun: Content, r: ReadResult, k: nat)
    requires k >= 1
    ensures !IsRead(op) ==> ReadsBack(op, r, content, begun, k)
    ensures !IsPut(op) ==> forall done :: AfterPut(op, done, content) == content && AfterPut(op, done, begun) == begun
  {}

  lemma PutIgnores(op: Op, c: Content, d: Content)
    ensures IsPut(op) ==> AfterPut(op, true, c) == AfterPut(op, true, d)
  {}

  /** Step i of the run answered as it must. */
  ghost predicate Answered(ops: seq<Op>, done: seq<bool>, results: seq<ReadResult>, start: Content, k: nat, i: nat)
    requires k >= 1 && i < |done| == |results| <= |ops|
  {
    ReadsBack(ops[i], results[i], LastContent(ops[..i], done[..i], start), LastBegun(ops[..i], start), k)
  }

  lemma AnsweredStill(ops: seq<Op>, done: seq<bool>, results: seq<ReadResult>, start: Content, k: nat, ok: bool, r: ReadResult)
    requires k >= 1 && |done| == |results| < |ops|
    requires forall j :: 0 <= j < |done| ==> Answered(ops, done, results, start, k, j)
    requires var n := |done|; ReadsBack(ops[n], r, LastContent(ops[..n], done, start), LastBegun(ops[..n], start), k)
    ensures forall j :: 0 <= j <= |done| ==> Answered(ops, done + [ok], results + [r], start, k, j)
  {
    hide ReadsBack, LastContent, LastBegun;
    forall j | 0 <= j <= |done| ensures Answered(ops, done + [ok], results + [r], start, k, j) {
      assert (done + [ok])[..j] == done[..j];
      if j < |done| {
        assert Answered(ops, done, results, start, k, j);
      } else {
        assert done[..j] == done;
      }
    }
  }

  lemma OneOpMore(ops: seq<Op>, done: seq<bool>, ok: bool, start: Content)
    requires |done| < |ops|
    ensures var n := |done|;
      LastContent(ops[..n + 1], done + [ok], start) == AfterPut(ops[n], ok, LastContent(ops[..n], done, start))
      && LastBegun(ops[..n + 1], start) == AfterPut(ops[n], true, LastBegun(ops[..n], start))
    ensures var n := |done|; forall b :: RootStays(ops[..n + 1], done + [ok], b) == RootAfter(ops[n], ok, RootStays(ops[..n], done, b))
  {
    var n := |done|;
    assert ops[..n + 1][..n] == ops[..n] && (done + [ok])[..n] == done;
  }

  /** Over every run, whatever fails, dies or is planted: the safety invariant holds, and each read
      yields exactly what the last completed put stored, as far as the lengths recorded by the last put
      begun allow, or an honest failure; the Merkle root is that of the listed hashes unless a repair
      was broken off since the last put or repair that was completed. */
  method Run(cl: Client, ops: seq<Op>, rng: Rng, ghost start: Content) returns (done: seq<bool>, results: seq<ReadResult>)
    requires cl.Valid() && Apart(cl, rng) && cl.SourceIs(DataOf(start, cl.k)) && Records(cl, start)
    requires forall i :: 0 <= i < |ops| ==> OpOk(cl, cl.symLen, ops[i])
    modifies cl, cl.nodes, rng
    ensures cl.Valid() && |done| == |results| == |ops|
    ensures cl.SourceIs(DataOf(LastContent(ops, done, start), cl.k)) && Records(cl, LastBegun(ops, start))
    ensures forall i :: 0 <= i < |ops| ==> Answered(ops, done, results, start, cl.k, i)
    ensures RootStays(ops, done, old(cl.RootIsCurrent())) ==> cl.RootIsCurrent()
  {
    assert cl.k >= 1;
    hide Client.Valid, OpOk, Client.SourceIs, ReadsBack, Records, DataOf, AfterPut, Answered, LastContent, LastBegun, Apart, RootAfter, RootStays, Client.RootIsCurrent;
    ghost var lens := cl.symLen;
    done, results := [], [];
    assert ops[..0] == [];
    RunStart(start);
    for i := 0 to |ops|
      invariant cl.Valid() && Apart(cl, rng) && |done| == |results| == i
      invariant cl.Layered() ==> cl.symLen == lens
      invariant cl.SourceIs(DataOf(LastContent(ops[..i], done, start), cl.k)) && Records(cl, LastBegun(ops[..i], start))
      invariant forall j :: 0 <= j < i ==> Answered(ops, done, results, start, cl.k, j)
      invariant RootStays(ops[..i], done, old(cl.RootIsCurrent())) ==> cl.RootIsCurrent()
    {
      RootMonotone(ops[i], RootStays(ops[..i], done, old(cl.RootIsCurrent())), cl.RootIsCurrent());
      OpOkAgain(cl, lens, cl.symLen, ops[i]);
      var ok, r := Step(cl, ops[i], rng, LastContent(ops[..i], done, start), LastBegun(ops[..i], start));
      AnsweredStill(ops, done, results, start, cl.k, ok, r);
      OneOpMore(ops, done, ok, start);
      done := done + [ok];
      results := results + [r];
    }
    assert ops[..|ops|] == ops;
  }

  lemma RunStart(start: Content)
    ensures LastContent([], [], start) == LastBegun([], start) == start
    ensures forall b :: RootStays([], [], b) == b
  {}

  /** The last put begun, if any, was completed. */
  predicate Settled(ops: seq<Op>, done: seq<bool>)
    requires |ops| == |done|
  {
    ops == [] ||
    var m := |ops| - 1;
    if IsPut(ops[m]) then done[m] else Settled(ops[..m], done[..m])
  }

  /** Then what is stored and what is recorded are of one object. */
  lemma {:induction false} SettledAgrees(ops: seq<Op>, done: seq<bool>, start: Content)
    requires |ops| == |done| && Settled(ops, done)
    ensures LastContent(ops, done, start) == LastBegun(ops, start)
  {
    if ops == [] {
    } else {
      var m := |ops| - 1;
      if !IsPut(ops[m]) { SettledAgrees(ops[..m], done[..m], start); }
    }
  }

  /** Then a file read back is the file, and a text read back is the text with exactly the missing
      chunks marked. */
  lemma SettledReads(op: Op, r: ReadResult, c: Content, k: nat)
    requires k >= 1 && ReadsBack(op, r, c, c, k)
    ensures op.ReadFile? && c.FileOf? ==> !r.Panicked? && (r.Bytes? ==> r.value == c.bytes)
    ensures op.ReadText? && c.TextOf? ==> !r.Panicked? && (r.TextBytes? ==> exists known: seq<bool> ::
      |known| == k && r.bytes == TextWithHoles(c.text, k, known, k) && (r.holes == 0 ==> r.bytes == c.text))
  {
    hide TextWithHoles, TextRead, LengthsGood, Longest, ValidUtf8, Codes;
    if op.ReadText? && c.TextOf? && r.TextBytes? {
      var known: seq<bool> :| |known| == k && TextAnswer(r.bytes, r.holes, c.text, k, ChunkLengths(c.text, k), known);
      LengthsFit(c.text, k);
    }
  }
}
