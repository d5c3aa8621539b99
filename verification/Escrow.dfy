/** Splitting a file into shares and recovering it (crates/holofs-analytics/src/escrow.rs). */
module Escrow {
  import opened Wrappers
  import opened LinAlg
  import opened GfTables
  import opened U64
  import opened Utf8
  import opened Fips180
  import opened Sha256
  import opened ObjectManifest
  import opened ReducedSystem
  import opened Decoder
  import opened Encoder
  import opened Quotients

  datatype ShareFile = ShareFile(escrowId: seq<u8>, shardIdx: u16, totalN: u16, totalK: u16, realLen: u64,
                                 contentType: seq<u8>, filename: seq<u8>, coeffs: Vec, payload: Vec)

  datatype EscrowParams = EscrowParams(k: nat, n: nat, contentType: seq<u8>, filename: seq<u8>)

  datatype EscrowError = NoShares | DifferentEscrows | CountsDisagree | TooFew | TooFewDistinct | Dependent

  datatype Recovery = Recovered(data: Vec, contentType: seq<u8>, filename: seq<u8>) | Failed(error: EscrowError)

  /** "holofs-escrow-v1" */
  const ESCROW_TAG: seq<u8> := [104, 111, 108, 111, 102, 115, 45, 101, 115, 99, 114, 111, 119, 45, 118, 49]

  // ---- Splitting ----------------------------------------------------------------------------------

  function EscrowId(data: Vec, p: EscrowParams): (id: seq<u8>)
    ensures |id| == 16
  {
    Digest(ESCROW_TAG + BigEndian(p.k, 4) + BigEndian(p.n, 4) + p.contentType + Codes(data))[..16]
  }

  function Packaged(s: Shard, idx: nat, data: Vec, p: EscrowParams): ShareFile {
    ShareFile(EscrowId(data, p), idx % 0x1_0000, p.n % 0x1_0000, p.k % 0x1_0000, |data| % W,
              p.contentType, p.filename, s.coeffs, s.payload)
  }

  /** The shares are the packaged shards of one encoding of the data. */
  ghost predicate IsSplit(shares: seq<ShareFile>, data: Vec, p: EscrowParams) {
    && 1 <= p.k <= 256 && p.n >= p.k && |data| < W
    && exists shards, draws :: Encodes(shards, SourceChunks(data, p.k), CeilDiv(|data|, p.k), p.n, draws)
         && PackagesOf(shares, shards, data, p)
  }

  ghost predicate PackagesOf(shares: seq<ShareFile>, shards: seq<Shard>, data: Vec, p: EscrowParams) {
    |shares| == |shards| && forall i :: 0 <= i < |shares| ==> shares[i] == Packaged(shards[i], i, data, p)
  }

  method ComputeEscrowId(data: Vec, p: EscrowParams) returns (id: seq<u8>)
    ensures id == EscrowId(data, p)
  {
    hide Digest, Hasher.Holding, Hasher.Valid, Codes;
    var hasher := new Hasher();
    hasher.Update(ESCROW_TAG);
    hasher.Update(BigEndian(p.k, 4));
    hasher.Update(BigEndian(p.n, 4));
    hasher.Update(p.contentType);
    hasher.Update(Codes(data));
    assert [] + ESCROW_TAG == ESCROW_TAG;
    var cid := hasher.Finalize();
    id := cid[..16];
  }

  /** split_into_shares */
  method SplitIntoShares(data: Vec, p: EscrowParams, rng: Rng) returns (shares: seq<ShareFile>)
    requires 1 <= p.k <= 256 && p.n >= p.k && |data| < W
    modifies rng
    ensures IsSplit(shares, data, p)
  {
    hide Encodes, EscrowId, SourceChunks;
    var gf := new Gf();
    var id := ComputeEscrowId(data, p);
    var sl, shards;
    ghost var draws;
    sl, shards, draws := EncodeLayerWithK(gf, data, p.k, p.n, rng);
    shares := [];
    for idx := 0 to |shards|
      invariant |shares| == idx && forall i :: 0 <= i < idx ==> shares[i] == Packaged(shards[i], i, data, p)
    {
      shares := shares + [ShareFile(id, idx % 0x1_0000, p.n % 0x1_0000, p.k % 0x1_0000, |data| % W,
                                    p.contentType, p.filename, shards[idx].coeffs, shards[idx].payload)];
    }
    assert PackagesOf(shares, shards, data, p);
  }

  // ---- Recovering ---------------------------------------------------------------------------------

  /** The first share of each index, in order. */
  function FirstDistinct(shares: seq<ShareFile>): (u: seq<ShareFile>)
    ensures |u| <= |shares|
  {
    if shares == [] then [] else
      var m := |shares| - 1;
      var u := FirstDistinct(shares[..m]);
      if shares[m].shardIdx in Indices(shares[..m]) then u else u + [shares[m]]
  }

  function Indices(shares: seq<ShareFile>): set<u16> {
    set s | s in shares :: s.shardIdx
  }

  /** Each index is represented once. */
  lemma {:induction false} DistinctCounts(shares: seq<ShareFile>)
    ensures |FirstDistinct(shares)| == |Indices(shares)|
    ensures forall s :: s in FirstDistinct(shares) ==> s in shares
  {
    if shares == [] {
      assert Indices(shares) == {};
    } else {
      var m := |shares| - 1;
      var before, last := shares[..m], shares[m];
      assert shares == before + [last];
      DistinctCounts(before);
      IndicesSnoc(before, last);
      assert FirstDistinct(shares) == if last.shardIdx in Indices(before) then FirstDistinct(before) else FirstDistinct(before) + [last];
      hide FirstDistinct, Indices;
      GrowByOne(Indices(before), last.shardIdx);
    }
  }

  lemma GrowByOne(s: set<u16>, i: u16)
    ensures |s + {i}| == |s| + if i in s then 0 else 1
  {
    if i in s { assert s + {i} == s; }
  }

  lemma IndicesSnoc(shares: seq<ShareFile>, s: ShareFile)
    ensures Indices(shares + [s]) == Indices(shares) + {s.shardIdx}
  {
    forall i ensures i in Indices(shares + [s]) <==> i in Indices(shares) + {s.shardIdx} {
      if i in Indices(shares) {
        var t :| t in shares && t.shardIdx == i;
        assert t in shares + [s];
      }
      assert s in shares + [s];
    }
  }

  /** The error of the first share that disagrees with the first one. */
  function Disagreement(shares: seq<ShareFile>, first: ShareFile): Option<EscrowError> {
    if shares == [] then None
    else if shares[0].escrowId != first.escrowId then Some(DifferentEscrows)
    else if shares[0].totalK != first.totalK || shares[0].totalN != first.totalN then Some(CountsDisagree)
    else Disagreement(shares[1..], first)
  }

  function ShardOf(s: ShareFile): Shard { Shard(s.coeffs, s.payload) }

  function ShardsOf(shares: seq<ShareFile>): (r: seq<Shard>)
    ensures |r| == |shares|
  {
    seq(|shares|, i requires 0 <= i < |shares| => ShardOf(shares[i]))
  }

  /** What the decoder demands of the shares it is handed. */
  ghost predicate Usable(shares: seq<ShareFile>) {
    shares != [] ==> forall i :: 0 <= i < |shares| ==>
      |shares[i].coeffs| == shares[0].totalK && |shares[i].payload| == |shares[0].payload|
  }

  /** The checks before decoding, in order. */
  function Refusal(shares: seq<ShareFile>): Option<EscrowError> {
    if shares == [] then Some(NoShares)
    else if Disagreement(shares, shares[0]).Some? then Disagreement(shares, shares[0])
    else if |shares| < shares[0].totalK then Some(TooFew)
    else if |FirstDistinct(shares)| < shares[0].totalK then Some(TooFewDistinct)
    else None
  }

  /** The shards handed to the decoder: the first totalK distinct ones. */
  function Chosen(shares: seq<ShareFile>): seq<Shard>
    requires Refusal(shares).None?
  {
    ShardsOf(FirstDistinct(shares)[..shares[0].totalK])
  }

  /** What recovery yields, given what decoding the chosen shards yields. */
  ghost predicate RecoversTo(shares: seq<ShareFile>, r: Recovery)
    requires Usable(shares)
  {
    if Refusal(shares).Some? then r == Failed(Refusal(shares).value)
    else
      var first := shares[0];
      && AllWellFormed(Chosen(shares), first.totalK, |first.payload|)
      && exists decoded :: DecodesTo(Chosen(shares), first.totalK, |first.payload|, decoded) && r == Trim(decoded, first)
  }

  function Trim(decoded: Option<Vec>, first: ShareFile): Recovery {
    match decoded
    case None => Failed(Dependent)
    case Some(d) => Recovered(d[..if first.realLen <= |d| then first.realLen else |d|], first.contentType, first.filename)
  }

  method FindDisagreement(shares: seq<ShareFile>) returns (e: Option<EscrowError>)
    requires shares != []
    ensures e == Disagreement(shares, shares[0])
  {
    for i := 0 to |shares|
      invariant Disagreement(shares, shares[0]) == Disagreement(shares[i..], shares[0])
    {
      assert shares[i..][1..] == shares[i + 1..];
      if shares[i].escrowId != shares[0].escrowId {
        return Some(DifferentEscrows);
      }
      if shares[i].totalK != shares[0].totalK || shares[i].totalN != shares[0].totalN {
        return Some(CountsDisagree);
      }
    }
    e := None;
  }

  method Dedup(shares: seq<ShareFile>) returns (uniq: seq<ShareFile>)
    ensures uniq == FirstDistinct(shares)
  {
    var seen: set<u16> := {};
    uniq := [];
    for i := 0 to |shares|
      invariant seen == Indices(shares[..i]) && uniq == FirstDistinct(shares[..i])
    {
      assert shares[..i + 1][..i] == shares[..i];
      assert shares[..i + 1] == shares[..i] + [shares[i]];
      IndicesSnoc(shares[..i], shares[i]);
      if shares[i].shardIdx !in seen {
        uniq := uniq + [shares[i]];
      }
      seen := seen + {shares[i].shardIdx};
    }
    assert shares[..|shares|] == shares;
  }

  /** recover_from_shares */
  method RecoverFromShares(shares: seq<ShareFile>) returns (r: Recovery)
    requires Usable(shares)
    ensures RecoversTo(shares, r)
  {
    hide Disagreement, FirstDistinct, DecodesTo, AllWellFormed, Usable, ShardsOf;
    if shares == [] {
      return Failed(NoShares);
    }
    var first := shares[0];
    var k := first.totalK;
    var e := FindDisagreement(shares);
    if e.Some? {
      return Failed(e.value);
    }
    if |shares| < k {
      return Failed(TooFew);
    }
    var uniq := Dedup(shares);
    if |uniq| < k {
      return Failed(TooFewDistinct);
    }
    var symLen := |first.payload|;
    var gf := new Gf();
    var shards := ShardsOf(uniq[..k]);
    ChosenWellFormed(shares);
    var decoded := DecodeLayerWithK(gf, shards, k, symLen);
    r := Trim(decoded, first);
  }

  lemma ChosenWellFormed(shares: seq<ShareFile>)
    requires Usable(shares) && Refusal(shares).None?
    ensures AllWellFormed(Chosen(shares), shares[0].totalK, |shares[0].payload|)
  {
    hide FirstDistinct, Disagreement;
    DistinctCounts(shares);
    var chosen := FirstDistinct(shares)[..shares[0].totalK];
    forall i | 0 <= i < |chosen|
      ensures |chosen[i].coeffs| == shares[0].totalK && |chosen[i].payload| == |shares[0].payload|
    {
      assert chosen[i] in FirstDistinct(shares);
    }
  }

  // ---- Shares of one split --------------------------------------------------------------------------

  /** Any list of shares of one split, repeats allowed. */
  ghost predicate SharesOf(list: seq<ShareFile>, all: seq<ShareFile>) {
    forall s :: s in list ==> s in all
  }

  /** Every share of a split carries the same facts and a shard consistent with the data. */
  ghost predicate Belongs(s: ShareFile, data: Vec, p: EscrowParams)
    requires p.k >= 1
  {
    && s.escrowId == EscrowId(data, p) && s.totalN == p.n % 0x1_0000 && s.totalK == p.k && s.realLen == |data|
    && s.contentType == p.contentType && s.filename == p.filename
    && |s.coeffs| == p.k && |s.payload| == CeilDiv(|data|, p.k)
    && Consistent(ShardOf(s), SourceChunks(data, p.k), CeilDiv(|data|, p.k))
  }

  lemma EncodedConsistent(shards: seq<Shard>, chunks: seq<Vec>, sl: nat, n: nat, draws: seq<Vec>)
    requires Matrix(chunks, sl) && |chunks| >= 1 && Encodes(shards, chunks, sl, n, draws)
    ensures forall i :: 0 <= i < |shards| ==>
      |shards[i].coeffs| == |chunks| && |shards[i].payload| == sl && Consistent(shards[i], chunks, sl)
  {
    hide Combo, Guarded;
  }

  lemma SplitBelongs(all: seq<ShareFile>, data: Vec, p: EscrowParams)
    requires IsSplit(all, data, p)
    ensures p.k >= 1 && forall s :: s in all ==> Belongs(s, data, p)
  {
    hide EscrowId, SourceChunks, Encodes, Consistent, CeilDiv;
    var shards, draws :| Encodes(shards, SourceChunks(data, p.k), CeilDiv(|data|, p.k), p.n, draws)
      && PackagesOf(all, shards, data, p);
    EncodedConsistent(shards, SourceChunks(data, p.k), CeilDiv(|data|, p.k), p.n, draws);
    forall s | s in all ensures Belongs(s, data, p) {
      var i :| 0 <= i < |all| && all[i] == s;
      assert ShardOf(Packaged(shards[i], i, data, p)) == shards[i];
    }
  }

  lemma {:induction false} SplitAgrees(list: seq<ShareFile>, first: ShareFile, data: Vec, p: EscrowParams)
    requires p.k >= 1 && (forall s :: s in list ==> Belongs(s, data, p)) && Belongs(first, data, p)
    ensures Disagreement(list, first).None?
  {
    hide Consistent, EscrowId, SourceChunks;
    if list == [] {
    } else {
      assert Belongs(list[0], data, p);
      SplitAgrees(list[1..], first, data, p);
    }
  }

  /** Recovery from shares of one split fails with fewer than k distinct indices, succeeds exactly
      when the first k distinct shares are independent, and then returns the file itself. */
  lemma EscrowIsExact(list: seq<ShareFile>, all: seq<ShareFile>, data: Vec, p: EscrowParams, r: Recovery)
    requires IsSplit(all, data, p) && SharesOf(list, all)
    ensures Usable(list)
    ensures |Indices(list)| >= p.k <==> Refusal(list).None?
    ensures RecoversTo(list, r) && |Indices(list)| < p.k ==> r.Failed?
    ensures RecoversTo(list, r) && |Indices(list)| >= p.k ==> (r.Recovered? <==> FirstKIndependent(list, p.k))
    ensures RecoversTo(list, r) && r.Recovered? ==> r == Recovered(data, p.contentType, p.filename)
  {
    hide Disagreement, FirstDistinct, Consistent, EscrowId, SourceChunks, DecodesTo, TrivialKernel;
    SplitBelongs(all, data, p);
    SplitUsable(list, data, p);
    DistinctCounts(list);
    if list == [] {
      assert Indices(list) == {};
    } else {
      assert list[0] in list;
      SplitAgrees(list, list[0], data, p);
      if Refusal(list).None? && RecoversTo(list, r) {
        var first := list[0];
        var decoded :| DecodesTo(Chosen(list), p.k, |first.payload|, decoded) && r == Trim(decoded, first);
        RecoveredData(list, data, p, decoded);
      }
    }
  }

  /** The first k distinct shares have independent coefficient vectors. */
  ghost predicate FirstKIndependent(list: seq<ShareFile>, k: nat) {
    Refusal(list).None? && Matrix(Coeffs(Chosen(list)), k) && TrivialKernel(Coeffs(Chosen(list)), k)
  }

  lemma SplitUsable(list: seq<ShareFile>, data: Vec, p: EscrowParams)
    requires p.k >= 1 && forall s :: s in list ==> Belongs(s, data, p)
    ensures Usable(list)
  {
    hide Consistent, EscrowId, SourceChunks;
    forall i | 0 <= i < |list| ensures Belongs(list[i], data, p) { assert list[i] in list; }
  }

  lemma RecoveredData(list: seq<ShareFile>, data: Vec, p: EscrowParams, decoded: Option<Vec>)
    requires p.k >= 1 && (forall s :: s in list ==> Belongs(s, data, p)) && Refusal(list).None?
    requires AllWellFormed(Chosen(list), p.k, CeilDiv(|data|, p.k))
    requires DecodesTo(Chosen(list), p.k, CeilDiv(|data|, p.k), decoded)
    ensures decoded.Some? <==> FirstKIndependent(list, p.k)
    ensures decoded.Some? ==> decoded.value == Padded(data, p.k)
  {
    hide Disagreement, FirstDistinct, Consistent, EscrowId, SourceChunks, TrivialKernel;
    var chosen := Chosen(list);
    var sl := CeilDiv(|data|, p.k);
    DistinctCounts(list);
    forall i | 0 <= i < |chosen| ensures Consistent(chosen[i], SourceChunks(data, p.k), sl) {
      assert FirstDistinct(list)[i] in FirstDistinct(list);
    }
    assert IsSource(SourceChunks(data, p.k), chosen, p.k, sl);
    FlattenSource(data, p.k);
  }

  // ---- k shares that do not recover ---------------------------------------------------------------

  /** The encoding of the data with k = 2, n = 4 and the draws [1, 1], [1, 1]. */
  function TwinEncoding(data: Vec): seq<Shard> {
    var chunks, sl := SourceChunks(data, 2), CeilDiv(|data|, 2);
    var twin := Shard([1, 1], Combo([1, 1], chunks, sl));
    [Shard(Unit(2, 0), chunks[0]), Shard(Unit(2, 1), chunks[1]), twin, twin]
  }

  lemma TwinsEncode(data: Vec)
    ensures Encodes(TwinEncoding(data), SourceChunks(data, 2), CeilDiv(|data|, 2), 4, [[1, 1], [1, 1]])
  {
    hide Combo, SourceChunks, CeilDiv, Unit;
    var chunks, sl := SourceChunks(data, 2), CeilDiv(|data|, 2);
    CountTwo([1, 1], 0, 1);
    assert Guarded([1, 1]) == [1, 1];
    RawCopyConsistent(chunks, sl, 0);
    RawCopyConsistent(chunks, sl, 1);
  }

  lemma EqualRowsAreDependent(row: Vec)
    requires |row| == 2
    ensures !TrivialKernel([row, row], 2)
  {
    hide Dot;
    var y := Underdetermined([row], 2);
    assert Dot([row][0], y) == 0;
    assert Kills([row, row], y);
  }

  /** A failing input for "any k shares recover the file": with k = 2, n = 4 and the draws [1, 1], [1, 1],
      shares 2 and 3 have different indices, and every recovery from them fails. */
  lemma TwinSharesFail(data: Vec, p: EscrowParams) returns (all: seq<ShareFile>)
    requires p.k == 2 && p.n == 4 && |data| < W
    ensures IsSplit(all, data, p) && |all| == 4
    ensures |Indices([all[2], all[3]])| == p.k && Usable([all[2], all[3]])
    ensures forall r :: RecoversTo([all[2], all[3]], r) ==> r == Failed(Dependent)
  {
    hide EscrowId, Encodes, SourceChunks, CeilDiv, TrivialKernel, RecoversTo, Combo;
    var shards := TwinEncoding(data);
    TwinsEncode(data);
    all := seq(4, i requires 0 <= i < 4 => Packaged(shards[i], i, data, p));
    assert PackagesOf(all, shards, data, p);
    var list := [all[2], all[3]];
    TwinIndices(all[2], all[3]);
    forall r ensures Usable(list) && |Indices(list)| == 2 && (RecoversTo(list, r) ==> r == Failed(Dependent)) {
      EscrowIsExact(list, all, data, p, r);
      if Refusal(list).None? {
        TwinsChosen(all[2], all[3]);
        EqualRowsAreDependent([1, 1]);
      }
      OnlyDependent(list, r);
    }
  }

  lemma TwinIndices(a: ShareFile, b: ShareFile)
    requires a.shardIdx != b.shardIdx
    ensures |Indices([a, b])| == 2 && FirstDistinct([a, b]) == [a, b]
  {
    assert [a, b][..1] == [a] && [a][..0] == [];
    assert Indices([a, b]) == {a.shardIdx, b.shardIdx} && Indices([a]) == {a.shardIdx} && Indices([]) == {};
  }

  lemma TwinsChosen(a: ShareFile, b: ShareFile)
    requires Refusal([a, b]).None? && FirstDistinct([a, b]) == [a, b] && a.totalK == 2 && a.coeffs == b.coeffs
    ensures Coeffs(Chosen([a, b])) == [a.coeffs, a.coeffs]
  {
    hide FirstDistinct, Disagreement;
    assert [a, b][..2] == [a, b];
  }

  /** Once the checks pass, a recovery fails only because the chosen shares are dependent. */
  lemma OnlyDependent(list: seq<ShareFile>, r: Recovery)
    requires Usable(list) && Refusal(list).None?
    ensures RecoversTo(list, r) && r.Failed? ==> r == Failed(Dependent)
  {
    hide DecodesTo, Chosen, Refusal, AllWellFormed;
  }
}
