# Holofs: a verified model

Holofs stores images, audio, text and arbitrary files as shards on a cluster of nodes. A layer of
an object is cut into k chunks; its shards are raw copies of the chunks and random linear
combinations of them over GF(2^8). A layer is read back by Gauss-Jordan elimination, and a dead
node is refilled by mixing surviving shards without decoding anything. This project models the
logic of that system in Dafny and proves what it promises. `dafny verify dfyconfig.toml` checks
everything.

The parts, bottom up:

- **The field** (`Field`, `GfTables`): multiplication modulo x^8+x^4+x^3+x^2+1 with its laws, and
  the log/exp tables filled by the source's loop, proved to compute it.
- **Linear algebra and elimination** (`LinAlg`, `Elimination`, `ReducedSystem`): spans, kernels and
  the duality between them; one pivot step in place; kernel vectors read off the reduced rows.
- **Erasure code** (`Encoder`, `Decoder`, `Shortening`, `DecodingTheorems`, `Soundness`): the encoder
  with its guard, the three decoders, and when exactly they succeed. A shard is *consistent* with
  chunks when its payload is the combination of the chunks that its coefficients announce. The
  decoders are told a symbol length, which need not be that of the payloads.
- **Repair** (`Repair`, `RepairTheorems`): mixing donors, refilling a node, and any series of
  deaths and repairs.
- **The cluster** (`Merkle`, `NodeStore`, `Cluster`, `ClusterRepair`, `ClusterOpaque`, `ClusterText`,
  `ClusterRun`): the client over node stores that may be wiped, fed with arbitrary shards, or fail to answer. Each
  remote call is one step whose request may be lost before or after it took effect. The invariant is
  that every hash the manifest lists names a shard consistent with its layer's source.
- **Placement** (`U64`, `Quotients`, `Placement`, `PlacementTheorems`, `Health`): rendezvous and zone-aware
  placement, what a score depends on, and the zone-failure forecast computed from it.
- **The wavelet transform** (`Haar`, `HaarInPlace`, `HaarTheorems`, `HaarBlocks`, `Layers`, `AudioLayers`):
  the transform of planes and lines in one buffer over exact reals, each coefficient as a signed block
  sum of the input, its priority layers, and progressive reads. The divisor is any real s with s * s = 2.
- **SHA-256** (`Fips180`, `Fips180Theorems`, `Sha256`): the standard's definition, its word functions bit
  by bit and its constants as roots of primes, and the streaming hasher.
- **The catalog** (`Paths`, `ObjectManifest`, `CatalogTree`, `Catalog`, `CatalogRun`): a map of path
  keys that mkdir, rmdir, rename, put and delete keep a tree.
- **Text** (`Utf8`, `Text`): cutting at character boundaries, and assembly around holes.
- **Escrow** (`Escrow`): splitting a file into shares and recovering it.
- **Formats** (`Codec`, `ManifestFormat`, `ManifestCodec`, `CatalogCodec`): the binary form of
  manifests and catalogs.

The number k of chunks, the random bytes, the set of live nodes, which requests are lost, and what
is planted on a node are parameters or unconstrained. Where the source changes a buffer, a row
array, a map or an object in place, so does the model; each such method is proved against a function
or predicate about which the lemmas then speak.

Where the code and what is written beside it differ, the model follows the code:

- `crates/holofs-core/src/gf.rs:9` calls the field polynomial the AES one; the code reduces by 0x11d.
- `crates/holofs-core/src/rlnc.rs:236-242` promises two nonzero coefficients. Two draws defeat the
  guard (`Encoder.GuardedTwoNonzero` says exactly which); what holds for k >= 2 is that a guarded
  vector is neither zero nor a unit vector.
- `crates/holofs-analytics/src/escrow.rs:8` lets any k shares recover the file. Recovery succeeds
  exactly when the first k distinct shares are independent (`Escrow.EscrowIsExact`), and two shares
  of one split need not be (`Escrow.TwinSharesFail`).
- `put_text_object` and `put_opaque_object` record the new lengths and the new object id before any
  node has acknowledged a shard (`crates/holofs-client/src/client.rs:265-280`, `:499-511`), while the
  hash lists change at the end. After a put that was broken off, shards of the old object found
  under the new id are read with the new lengths. `ClusterOpaque.FileReadExact` says exactly when a
  file is right, `Text.PlaceRight` when one chunk of a text is, and `Text.TextReadExact` when the
  whole of a text without zero bytes is; `ClusterOpaque.HalfOfTheOldFile` and
  `ClusterText.NothingLeft` are inputs for which the result is wrong. After a completed put reads
  are exact (`ClusterRun.SettledReads`).
- `crates/holofs-model/src/placement.rs:72-74` describes a case in which every zone has used up its
  quota; that case cannot arise (`Placement.SomeZoneBelow`).
- The inverse transform restores exactly the planes whose sides 2^levels divides; on every other
  size some nonzero plane is mapped to zero (`HaarTheorems.RoundTripExactly`).
- `crates/holofs-gateway/src/http_gateway.rs:942-944` guards against taken targets inside a
  directory rename; in a tree catalog none is ever taken (`Catalog.NoCollision`).
- The Merkle root determines the leaves of lists of one length, but not the length. Two lists of
  shard hashes share a root exactly when they agree once the repetitions of unpaired hashes are
  written out (`Merkle.RootsAgree`); for instance, repeating the last leaf of an odd list keeps the
  root exactly when there are three leaves or more (`Merkle.RepeatedLastLeaf`).

## Model

| member | source | states |
|---|---|---|
| Field.MulIsRemainder | crates/holofs-core/src/gf.rs:45-78 | the product used everywhere is the remainder of the carry-less product of two bytes modulo x^8+x^4+x^3+x^2+1 (0x11d), with the quotient as witness |
| Field.MulComm | crates/holofs-core/src/gf.rs:122-130 | multiplication commutes |
| Field.MulAssoc | crates/holofs-core/src/gf.rs:132-142 | multiplication associates |
| Field.MulAddRight | crates/holofs-core/src/gf.rs:144-155 | multiplication distributes over xor, for all bytes |
| Field.AlphaNotOne | crates/holofs-core/src/gf.rs:45-56 | no smaller positive power of x than the 255th is 1 |
| Field.AlphaOnto | crates/holofs-core/src/gf.rs:45-56 | every nonzero byte is one of the 255 powers, so the log table is total on nonzero bytes |
| Field.MulCancel | crates/holofs-core/src/gf.rs:86-90 | a nonzero factor can be cancelled and multiplying by the inverse undoes it |
| GfTables.Gf.constructor | crates/holofs-core/src/gf.rs:45-61 | the filled tables hold exactly the powers of x and their logarithms |
| GfTables.Gf.FillPowers | crates/holofs-core/src/gf.rs:45-56 | one pass of the doubling loop enters each of the 255 powers once and its exponent in the log table |
| GfTables.Gf.DoubleTable | crates/holofs-core/src/gf.rs:57-59 | the upper half continues the powers, so that the sum of two logarithms needs no reduction |
| GfTables.Gf.Mul | crates/holofs-core/src/gf.rs:72-78 | the table lookup is the field multiplication, including zero operands |
| GfTables.Gf.Inv | crates/holofs-core/src/gf.rs:88-90 | the lookup yields the multiplicative inverse of every nonzero byte |
| LinAlg.Separate | crates/holofs-core/src/rlnc.rs:383-488 | a vector outside the span of the given rows is told apart from them by some vector orthogonal to all of them: the duality behind "decodes exactly when the shards span" |
| LinAlg.SpanIsDoubleKernel | crates/holofs-core/src/rlnc.rs:383-488 | a vector lies in the span of rows exactly when every vector they annihilate annihilates it |
| LinAlg.SpansAllIsTrivialKernel | crates/holofs-core/src/rlnc.rs:383-488 | coefficient vectors span the whole space exactly when only zero is orthogonal to all of them |
| LinAlg.Underdetermined | crates/holofs-core/src/rlnc.rs:384-386 | fewer than k rows always have a nonzero vector in their kernel (the first early exit) |
| Elimination.PivotColumn | crates/holofs-core/src/rlnc.rs:446-475 | search, swap, scale and clear of one column in place: a pivot is found exactly when some remaining row has a nonzero entry, and otherwise nothing changes |
| Elimination.PivotedKernel | crates/holofs-core/src/rlnc.rs:446-475 | one pivot step keeps the kernel of the rows |
| Elimination.PivotedEntries | crates/holofs-core/src/rlnc.rs:446-475 | after the step the column is a unit column; columns already cleared are untouched |
| Elimination.FreeVector | crates/holofs-core/src/rlnc.rs:325-358 | a processed column without a pivot yields an explicit kernel vector with 1 in that column |
| Decoder.IdentityIndex | crates/holofs-core/src/rlnc.rs:37-51 | returns i exactly for the i-th unit vector, nothing for any other coefficient vector |
| Decoder.Classify | crates/holofs-core/src/rlnc.rs:388-401 | raw copies fill the known chunks, first copy wins; later copies are dropped or kept as combinations, and the kernel of the system is that of the shards |
| Decoder.ReduceShard | crates/holofs-core/src/rlnc.rs:419-443 | the reduced row holds the unknown coefficients and the payload minus the known chunks' contribution |
| Decoder.SplitKernel | crates/holofs-core/src/rlnc.rs:388-443 | splitting off the known chunks keeps exactly the kernel of the shards' coefficient vectors |
| Decoder.SolveUnknown | crates/holofs-core/src/rlnc.rs:402-488 | succeeds exactly when the unknown part of the kernel is trivial, and then the parts are the chunks of every explaining source |
| Decoder.DecodeLayer | crates/holofs-core/src/rlnc.rs:383-488 | told any symbol length: bytes only when the coefficient vectors have a trivial kernel, lost only when they have not, an index error only when that length exceeds the payloads'; the bytes are the raw copies whole and everything else cut to that length, of whatever source the shards are consistent with |
| Decoder.RightLength | crates/holofs-core/src/rlnc.rs:383-488 | told the payloads' own length, decode_layer returns bytes exactly when the kernel is trivial, and they are the concatenated source |
| Decoder.DecodeLayerWithK | crates/holofs-core/src/rlnc.rs:103-210 | the same for the custom-k decoder, which keeps a second copy of a raw chunk as an ordinary row |
| Decoder.DecodeLayerWithHoles | crates/holofs-core/src/rlnc.rs:275-379 | told any symbol length: chunk i is filled exactly when every kernel vector vanishes at i, a raw copy whole and anything else cut to that length; an index error only when it exceeds the payloads' and a raw copy is missing |
| Decoder.RightLengthHoles | crates/holofs-core/src/rlnc.rs:275-379 | told the payloads' own length, every determined chunk is that of every source consistent with the shards |
| Shortening.ShortExplains | crates/holofs-core/src/rlnc.rs:419-443 | cutting all payloads to one shorter length turns a source of the shards into a source of the cut shards |
| Decoder.CollectClean | crates/holofs-core/src/rlnc.rs:360-379 | after full elimination a pivot row gives its chunk exactly when it carries no other unknown |
| DecodingTheorems.DecodesIffSpanning | crates/holofs-core/src/rlnc.rs:383-488 | decoding succeeds exactly when the coefficient vectors span GF(2^8)^k |
| DecodingTheorems.TooFewNeverDecode | crates/holofs-core/src/rlnc.rs:384-386 | fewer than k shards never decode |
| DecodingTheorems.UndeterminedHasTwin | crates/holofs-core/src/rlnc.rs:275-379 | where a position is not determined there is a second source, different at that position, that yields the same shards |
| DecodingTheorems.FailureMeansAmbiguous | crates/holofs-core/src/rlnc.rs:383-488 | on consistent shards decode_layer fails exactly when two different sources explain them |
| DecodingTheorems.HolesExact | crates/holofs-core/src/rlnc.rs:275-379 | a hole is left at i exactly when another source that differs in chunk i yields the same shards; a filled place holds the true chunk |
| DecodingTheorems.DecodeIsHolesWithoutHoles | crates/holofs-core/src/rlnc.rs:275-379 | decode_layer succeeds exactly when hole decoding leaves no hole, and then it is the concatenation of the filled places |
| DecodingTheorems.DecodersAgree | crates/holofs-core/src/rlnc.rs:103-210 | on shards of one source the two decoders return the same result although they treat duplicates differently |
| Encoder.EncodeLayerWithK | crates/holofs-core/src/rlnc.rs:55-99 | min(n, k) raw copies, then one combination for each draw: a draw with two nonzero bytes is kept as it is, any other differs from it by 0x80 in front and, for k >= 2, by 0x40 behind it; every shard is consistent with the zero-padded chunks; exactly the drawn bytes are consumed |
| Encoder.Combine | crates/holofs-core/src/rlnc.rs:85-95 | each payload byte is the dot product of the coefficients with the chunks in the field |
| Encoder.GuardedIs | crates/holofs-core/src/rlnc.rs:230-242 | the guard byte by byte: unchanged exactly when two different places are nonzero |
| Encoder.GuardedIsNeitherZeroNorUnit | crates/holofs-core/src/rlnc.rs:236-242 | for k >= 2 a guarded coefficient vector is never zero and never a unit vector |
| Encoder.GuardedTwoNonzero | crates/holofs-core/src/rlnc.rs:236-242 | the promised two nonzero coefficients result for every draw except exactly two: 0x80 alone in front and 0x40 alone in second place |
| Encoder.FlattenSource | crates/holofs-core/src/rlnc.rs:215-218 | the chunks concatenate to the data padded with zeros to k * symbol length |
| Soundness.DecodeIsSound | crates/holofs-core/src/rlnc.rs:215-257 | for all data, k, n and draws, and any list of encoded or repeatedly mixed shards in any order with repetitions, either decoder returns nothing or exactly the padded source, and both agree |
| Soundness.EncodingDecodes | crates/holofs-core/src/rlnc.rs:491-508 | the full output of an encoding with n >= k decodes to the padded source |
| Repair.MixDonors | crates/holofs-core/src/repair.rs:19-51 | as many shards as needed; each coefficient and each payload byte is the dot product of the drawn weights with the donors' bytes at that place, and donor 0 stands in exactly when all these coefficients are zero |
| Repair.MixPicks | crates/holofs-core/src/repair.rs:25-44 | a unit vector of weights that picks a donor with a nonzero coefficient gives that donor |
| Repair.MixedInSpan | crates/holofs-core/src/repair.rs:25-44 | a mix has coefficients in the donors' span |
| Repair.MixedConsistent | crates/holofs-core/src/repair.rs:25-44 | a mix of consistent shards is consistent, byte by byte |
| Repair.Pool.RegenerateNode | crates/holofs-core/src/repair.rs:66-137 | the node's old shards go; every layer keeps the survivors in order and, if it has a donor and d >= 1, is refilled to exactly its target count with mixes of its first d donors, each byte by byte under weights that are the drawn bytes in order; the statistics are the sums over the layers |
| Repair.TrafficAtMostRebuild | crates/holofs-core/src/repair.rs:99-115 | with d at most k a regeneration downloads no more than rebuilding the layers would |
| RepairTheorems.RefillKeepsSpan | crates/holofs-core/src/repair.rs:66-137 | after a regeneration each layer spans exactly what the survivors on other nodes span: same decodability, same determined positions |
| RepairTheorems.RunRefilled | crates/holofs-core/src/repair.rs:66-137 | over any series of deaths and repairs with d >= 1, a layer is at its target count or above, or empty, and empty exactly when some death took its last shard |
| RepairTheorems.RefillKeepsConsistency | crates/holofs-core/src/repair.rs:66-137 | regeneration keeps every shard consistent with its source |
| RepairTheorems.RunDecodable | crates/holofs-core/src/repair.rs:66-137 | after any series of deaths and repairs, any random stream and donor counts, a layer decodes exactly when the survivors of each single death did |
| RepairTheorems.ReadAfterRun | crates/holofs-core/src/repair.rs:66-137 | reading after such a run yields the source bytes when they did, and nothing otherwise |
| Merkle.MerkleRoot | crates/holofs-core/src/merkle.rs:50-70 | the level-by-level loop computes the recursive root; empty and single-leaf lists as in the source |
| Merkle.RootBindsLeaves | crates/holofs-core/src/merkle.rs:50-78 | for a given number of leaves the root determines every leaf |
| Merkle.RootsAgree | crates/holofs-core/src/merkle.rs:50-70 | two lists of shard hashes of any lengths have one root exactly when writing out the repetitions of unpaired hashes makes them the same list |
| Merkle.OneContinuesOther | crates/holofs-core/src/merkle.rs:50-70 | lists of shard hashes that share a root start alike: one continues the other, and equal lengths mean equal lists |
| Merkle.RepeatedLastLeaf | crates/holofs-core/src/merkle.rs:56-66 | repeating the last leaf of an odd list keeps the root exactly when there are three leaves or more |
| Merkle.RepeatedLastPair | crates/holofs-core/src/merkle.rs:56-66 | an even list can collide too: six leaves, and the same six with the last pair repeated |
| NodeStore.Store.Put | crates/holofs-storage/src/node_service.rs:88-102 | adds the shard to its bucket unless it was there; other buckets are untouched |
| NodeStore.Store.Get | crates/holofs-storage/src/node_service.rs:104-109 | every shard of the bucket, each once |
| NodeStore.Store.Purge | crates/holofs-storage/src/node_service.rs:117-133 | empties exactly the buckets of the object and returns how many shards it dropped |
| NodeStore.Store.Wipe | crates/holofs-storage/src/node_service.rs:140-155 | empties the node |
| NodeStore.Store.InjectCorrupt | crates/holofs-storage/src/node_service.rs:158-161 | plants an arbitrary shard under its own hash |
| Cluster.Client.GatherLayer | crates/holofs-client/src/client.rs:576-600 | exactly the shards the listed nodes hold for the layer, or a failure |
| Cluster.Client.ReadLayer | crates/holofs-client/src/client.rs:207-221 | what the recorded symbol length lets through of the layer, or lost exactly when the verified shards do not determine it, or an unanswered request; an index error only when the recorded length exceeds the stored one |
| Cluster.Client.ReadObject | crates/holofs-client/src/client.rs:148-191 | every layer asked for in every channel, byte for byte as stored, or the first failure: a layer that the verified shards do not determine, or an unanswered request |
| Cluster.Client.PutObject | crates/holofs-client/src/client.rs:70-138 | on success every layer's listed hashes are, in order, those of one encoding of its data, each shard lies on the node that placement names for its index, the root is that of the flattened lists, and every layer with n >= k can be read back; on failure lists and root stay |
| Cluster.Client.PutLayer | crates/holofs-client/src/client.rs:97-132 | one layer: the hashes listed are those of the shards of one encoding under the drawn bytes, in order, and when all is acknowledged each shard lies on the node that placement names for its index |
| Cluster.Client.DispatchLayer | crates/holofs-client/src/client.rs:108-128 | the shards go out in order, each to the node that placement names for its index among the live nodes |
| ClusterRepair.CountNeed | crates/holofs-client/src/client.rs:652-658 | counts the shards of the layer that placement assigns to the replaced node |
| ClusterRepair.AssignedOnce | crates/holofs-client/src/client.rs:652-658 | that count is determined by the set of live nodes |
| ClusterRepair.CollectDonors | crates/holofs-client/src/client.rs:663-704 | at most d verified shards of the other nodes, and fewer than d only when these are all there are |
| ClusterRepair.RepairLayer | crates/holofs-client/src/client.rs:652-740 | the fresh shards are byte by byte mixes of at most d verified shards of the other nodes under weights that are the drawn bytes in order; they are listed and sent; the layer's verified shards keep exactly the information of the other nodes; a completed layer lists as many as placement assigns, each of them stored on the node |
| ClusterRepair.RepairNode | crates/holofs-client/src/client.rs:616-754 | however the repair ends after the purge, each layer's verified shards determine exactly what those on the other nodes did, every listed hash still names a consistent shard, and no other node changes; a completed repair has listed in every layer with a donor as many shards as placement assigns, each a mix of at most d shards of the others, the node holds exactly these, and the root is recomputed |
| ClusterRepair.SeriesDetermined | crates/holofs-client/src/client.rs:616-754 | for any sequence of states of a layer in which each results from the one before by repairing one loss: determined at the end exactly when it was at the start and by the other nodes at every single loss |
| ClusterRepair.RepairSeries | crates/holofs-client/src/client.rs:616-754 | a series of losses, each repaired before the next, runs through such states from the state before to the state after: each step changes only the replaced node and the end of the list, refills the layer and keeps its information |
| ClusterRun.Run | crates/holofs-client/src/client.rs:70-754 | over every run of puts and reads of images, texts and files, repairs, wipes and planted shards, failures included, the invariant holds, each read returns what the last completed put stored, as far as the lengths recorded by the last put begun allow, or an honest failure, and the Merkle root is that of the listed hashes unless a repair was broken off since the last completed put or repair |
| ClusterRun.SettledAgrees | crates/holofs-client/src/client.rs:243-543 | when the last put begun was completed, the recorded lengths are those of what is stored |
| ClusterRun.SettledReads | crates/holofs-client/src/client.rs:316-573 | then a file read back is the file, and a text read back the text with exactly the missing chunks marked |
| ClusterOpaque.PutOpaque | crates/holofs-client/src/client.rs:484-543 | the lengths are recorded whether the put completes or not; lists, root and stored file change only when it completes; then every shard of one encoding, listed in order, lies on the node placement names, and the file can be read back |
| ClusterOpaque.GetOpaque | crates/holofs-client/src/client.rs:547-573 | the delivered layer trimmed to the recorded length, or lost when the verified shards do not determine it, or an index error when the recorded symbol length is too long |
| ClusterOpaque.FileReadExact | crates/holofs-client/src/client.rs:499-571 | while shards of one file are read with the recorded length of another, the result is the stored file exactly when the lengths agree, or the recorded one is longer and the stored file fills its chunks |
| ClusterOpaque.HalfOfTheOldFile | crates/holofs-client/src/client.rs:499-571 | an input that fails: 32 bytes stored with k = 16, a put of 16 others broken off, the old raw copies under the new id; the read returns half of the old file |
| Placement.Mix64Injective | crates/holofs-model/src/placement.rs:139-144 | mix64 maps different words to different words |
| PlacementTheorems.Mix64OfZero | crates/holofs-model/src/placement.rs:139-144 | the published first value of SplitMix64 for seed 0 |
| Placement.NoTies | crates/holofs-model/src/placement.rs:131-144 | two different nodes never score equally for one key |
| PlacementTheorems.ScoreOfPosition | crates/holofs-model/src/placement.rs:131-136 | for one object and node, different positions (shard, channel, layer) never score equally |
| PlacementTheorems.ScoreOfObject | crates/holofs-model/src/placement.rs:131-136 | for one position and node, different objects never score equally |
| PlacementTheorems.ScoreCancels | crates/holofs-model/src/placement.rs:131-136 | object, node and position are mixed alike and combined by exclusive-or, so two equal ones cancel |
| PlacementTheorems.NextStart | crates/holofs-model/src/placement.rs:43-47 | the next shard of a layer starts one node further around the ring, short of the wrap of the 64-bit sum |
| PlacementTheorems.StartOfLayer | crates/holofs-model/src/placement.rs:43-47 | before the reduction, different layers of an object start at different places |
| Placement.Place | crates/holofs-model/src/placement.rs:37-66 | plain placement picks the live node with the highest score; round robin the first live node from its start |
| Placement.WinnerOfSet | crates/holofs-model/src/placement.rs:55-64 | the winner depends only on the set of live nodes |
| Placement.SurvivingWinnerStays | crates/holofs-model/src/placement.rs:55-64 | when nodes disappear, a shard moves only if it sat on one of them |
| Placement.SomeZoneBelow | crates/holofs-model/src/placement.rs:115-124 | some live zone is always below quota, so the over-quota fallback is unreachable |
| Placement.PlaceLayerZoneAware | crates/holofs-model/src/placement.rs:77-129 | n live nodes, each the best below quota in its turn, and no zone more than ceil(n / live zones) |
| Placement.LayoutOfSet | crates/holofs-model/src/placement.rs:108-113 | the zone-aware layout depends only on the set of live nodes |
| Health.PlaceShard | crates/holofs-model/src/manifest.rs:127-151 | the node of one shard under each scheme; for the zone-aware one the entry of the whole layout |
| Health.OneByOneIsLayout | crates/holofs-cluster/src/health.rs:311-324 | placing the shards of a layer one by one yields the zone-aware layout |
| Health.ZoneShare | crates/holofs-model/src/placement.rs:77-129 | no zone holds more than ceil(n / live zones) shards of a layer |
| Health.ZoneLossSurvivable | crates/holofs-cluster/src/health.rs:254-299 | a layer with n - ceil(n / live zones) >= k survives the loss of any one zone in every channel |
| Health.ForecastLowerBound | crates/holofs-cluster/src/health.rs:254-299 | the reported resolution is at least the longest prefix of such layers |
| Health.SimulateZoneFailures | crates/holofs-cluster/src/health.rs:254-299 | one forecast for each zone: the longest prefix of layers that survives its loss; none for a single zone |
| Health.PlacedUnique | crates/holofs-model/src/manifest.rs:127-151 | under every scheme a shard has one place for a set of live nodes |
| Health.CurrentResolution | crates/holofs-cluster/src/health.rs:139-160 | the last layer up to which every layer decodes in every channel |
| Haar.AnalyzeUndo | crates/holofs-core/src/transform.rs:8-73 | over exact reals with s * s = 2 the synthesis step undoes the analysis step on an even line |
| Haar.PassUndo | crates/holofs-core/src/transform.rs:42-73 | undoing the lines of a pass in the same order restores the buffer, since they are disjoint |
| HaarInPlace.HaarForward | crates/holofs-core/src/transform.rs:8-40 | the in-place loops over rows and columns of shrinking corners compute the forward transform, for every size |
| HaarInPlace.HaarInverse | crates/holofs-core/src/transform.rs:42-73 | the loops from the innermost level outwards compute the inverse transform, for every size |
| HaarInPlace.HaarForward1D | crates/holofs-core/src/transform.rs:78-93 | the one-dimensional forward transform in place |
| HaarInPlace.HaarInverse1D | crates/holofs-core/src/transform.rs:96-110 | the one-dimensional inverse transform in place |
| HaarTheorems.RoundTripExactly | crates/holofs-core/src/transform.rs:8-73 | the inverse undoes the transform on every plane of a size, in both orders, exactly when 2^levels divides both sides |
| HaarTheorems.RoundTrip1DExactly | crates/holofs-core/src/transform.rs:77-110 | in one dimension the two undo each other on every line of a length, in both orders, exactly when 2^levels divides it |
| HaarTheorems.RoundTrip1DHalvable | crates/holofs-core/src/transform.rs:77-110 | the one-dimensional transform of a prefix keeps the sum of squares and is undone whenever the length halves evenly at every level |
| HaarTheorems.EnergyKept | crates/holofs-core/src/transform.rs:8-73 | on such sizes transform and inverse keep the sum of squares |
| HaarTheorems.Subbands | crates/holofs-core/src/transform.rs:8-40 | one level turns each 2 x 2 block into half its sum and its three half differences, at the four quadrant places |
| HaarBlocks.PassesStayInCorner | crates/holofs-core/src/transform.rs:11-37 | a pass over rows or columns, in either direction, changes no sample outside the corner of its level |
| HaarBlocks.CornerIsBlockSums | crates/holofs-core/src/transform.rs:8-40 | for every size and number of levels: each coefficient of the remaining corner is the sum over its 2^levels x 2^levels block, divided by 2^levels |
| HaarBlocks.RingIsSignedSums | crates/holofs-core/src/transform.rs:8-40 | a detail coefficient of ring l is the signed sum of the four quarters of its 2^l x 2^l block, divided by 2^l, for each of the three kinds |
| HaarBlocks.RingRestIsZero | crates/holofs-core/src/transform.rs:8-40 | a place that its level finds without a partner in its row or column ends as zero |
| HaarBlocks.PlacesCovered | crates/holofs-core/src/transform.rs:8-40 | each place outside the remaining corner is in some ring, where it is a detail or has no partner, so these laws describe the whole plane |
| HaarBlocks.InverseIsRebuilt | crates/holofs-core/src/transform.rs:42-73 | the inverse of any plane, place by place: from one coefficient of the remaining corner and three of each ring above the place, zero where a level has no partner |
| HaarBlocks.PrefixIsSpans | crates/holofs-core/src/transform.rs:78-93 | in one dimension the remaining prefix holds the sums over stretches of 2^levels samples, divided by s^levels |
| HaarBlocks.OctaveIsDifferences | crates/holofs-core/src/transform.rs:78-93 | a detail of octave l is the difference of the two halves of its stretch of 2^l samples, divided by s^l |
| HaarBlocks.InverseIsRebuilt1D | crates/holofs-core/src/transform.rs:96-110 | the inverse of any line, place by place |
| Layers.LayerAtMost | crates/holofs-core/src/transform.rs:130-148 | layers 0..k are exactly the corner left after LEVELS - k halvings, which fixes the layer of every position |
| Layers.LayerPositions | crates/holofs-gateway/src/http_gateway.rs:377-386 | the lists of a blank manifest hold every position exactly once, in ascending order, under its layer |
| Layers.StoredLayers | crates/holofs-client/src/client.rs:95-102 | what a put encodes: the transformed plane, layer by layer |
| Layers.ReadUpTo | crates/holofs-client/src/client.rs:148-191 | a read up to a layer yields the inverse of the coefficients of those layers with zeros elsewhere |
| Layers.PreviewError | crates/holofs-client/src/client.rs:139-191 | its squared error is exactly the energy of the skipped coefficients |
| Layers.PreviewsImprove | crates/holofs-client/src/client.rs:139-191 | more layers never give a worse picture, and all layers give the picture itself |
| AudioLayers.Layer1DAtMost | crates/holofs-core/src/transform.rs:112-128 | in one dimension layers 0..k are exactly what is left of the line after LEVELS - k halvings |
| AudioLayers.AudioPositions | crates/holofs-gateway/src/http_gateway.rs:308-313 | the lists of an audio manifest hold every position exactly once, in ascending order, under its layer |
| AudioLayers.StoredAudio | crates/holofs-client/src/client.rs:380-392 | what a put of audio encodes: the transformed line, layer by layer |
| AudioLayers.ReadAudio | crates/holofs-client/src/client.rs:429-481 | a read up to a layer yields the inverse of the coefficients of those layers with zeros elsewhere |
| AudioLayers.AudioPreviewError | crates/holofs-client/src/client.rs:426-481 | its squared error is exactly the energy of the skipped coefficients |
| AudioLayers.AudioPreviewsImprove | crates/holofs-client/src/client.rs:426-481 | more layers never give worse sound, and all layers give the line itself |
| Sha256.Hasher.Update | crates/holofs-core/src/hash.rs:38-51 | however a message is cut into calls, the state is that of all bytes so far |
| Sha256.Hasher.ProcessBlock | crates/holofs-core/src/hash.rs:78-132 | one block is compressed as in section 6.2.2 of FIPS 180-4 |
| Sha256.Hasher.Pad | crates/holofs-core/src/hash.rs:53-72 | padding in one block or across two is the padding of section 5.1.1 |
| Sha256.Hasher.Finalize | crates/holofs-core/src/hash.rs:53-76 | the digest of everything given to update, as the standard defines it |
| Sha256.HashPieces | crates/holofs-core/src/hash.rs:38-76 | every way of cutting a message into updates gives the standard digest |
| Sha256.ScheduleNext | crates/holofs-core/src/hash.rs:88-95 | the message schedule with the sum taken in the order of the source |
| Fips180Theorems.ChBit | crates/holofs-core/src/hash.rs:106 | Ch takes each bit of the second word where the first has a one, of the third where it has a zero |
| Fips180Theorems.MajBit | crates/holofs-core/src/hash.rs:113 | Maj has a one exactly where two of the three words have one |
| Fips180Theorems.RotrBit | crates/holofs-core/src/hash.rs:88-105 | rotation by n moves bit i + n, counted around the word, to place i |
| Fips180Theorems.SigmaBits | crates/holofs-core/src/hash.rs:88-112 | each of the four sigmas is at every place the parity of the three bits the standard names |
| Fips180Theorems.PrimesInOrder | crates/holofs-core/src/hash.rs:6-15 | the list behind the constants holds the first 64 primes |
| Fips180Theorems.RoundConstants | crates/holofs-core/src/hash.rs:6-15 | each round constant is the first 32 bits of the fractional part of the cube root of its prime, by integer inequalities |
| Fips180Theorems.InitialState | crates/holofs-core/src/hash.rs:17-19 | each word of the initial state is the first 32 bits of the fractional part of the square root of its prime |
| Fips180.ZeroBytesLeast | crates/holofs-core/src/hash.rs:57-71 | the padding uses the fewest zero bytes that complete a block |
| Fips180.LengthField | crates/holofs-core/src/hash.rs:54-71 | the length field is the bit length modulo 2^64 even when the byte counter wrapped |
| Paths.ValidateMeansGood | crates/holofs-model/src/path.rs:64-89 | validate accepts a path exactly when every segment is acceptable |
| Paths.SplitJoin | crates/holofs-model/src/path.rs:73-88 | the segments of two paths joined by a slash are the segments of both |
| Paths.Ancestors | crates/holofs-model/src/path.rs:125-134 | the loop yields the prefixes that end before a slash, shortest first |
| Paths.AncestorsAre | crates/holofs-model/src/path.rs:122-134 | they are exactly the paths the given one lies below, each once |
| Paths.ParentIsNearest | crates/holofs-model/src/path.rs:96-98 | the ancestors of a path are its parent and the parent's ancestors |
| Paths.PrefixContiguous | crates/holofs-gateway/src/http_gateway.rs:935-939 | in byte order the keys with a given prefix are contiguous from the prefix on |
| CatalogTree.InsertKeepsTree | crates/holofs-gateway/src/http_gateway.rs:824-851 | inserting at a well-placed path that is not a directory keeps the tree |
| CatalogTree.RemoveKeepsTree | crates/holofs-gateway/src/http_gateway.rs:857-886 | removing an entry without descendants keeps the tree |
| CatalogTree.RenameKeepsTree | crates/holofs-gateway/src/http_gateway.rs:898-961 | renaming to a free, well-placed path keeps every key valid and every proper ancestor a directory |
| CatalogTree.RenamedAt | crates/holofs-gateway/src/http_gateway.rs:932-952 | after a rename the keys are exactly the moved ones, each with the entry it had |
| CatalogTree.RenameBack | crates/holofs-gateway/src/http_gateway.rs:898-961 | renaming back restores the catalog |
| CatalogTree.RenameKeepsSize | crates/holofs-gateway/src/http_gateway.rs:898-961 | a rename keeps the number of entries |
| Catalog.Directory.Mkdir | crates/holofs-gateway/src/http_gateway.rs:824-851 | which error, if any; otherwise one new directory entry under its hashed id; the tree is kept |
| Catalog.MkdirSucceeds | crates/holofs-gateway/src/http_gateway.rs:824-851 | in a tree mkdir succeeds exactly at an absent path all of whose ancestors are directories |
| Catalog.Directory.Rmdir | crates/holofs-gateway/src/http_gateway.rs:857-886 | refused exactly when something lies below, which the first key of the range decides; the tree is kept |
| Catalog.Directory.Remove | crates/holofs-gateway/src/http_gateway.rs:799-818 | removes a data entry and nothing else; the tree is kept |
| Catalog.Directory.Ingest | crates/holofs-gateway/src/http_gateway.rs:728-793 | the checks before and the insertion after storing a body; the tree is kept |
| Catalog.IngestSucceeds | crates/holofs-gateway/src/http_gateway.rs:728-793 | in a tree a put succeeds exactly with a stored nonempty body, at a path below directories that is no directory itself |
| Catalog.Directory.CollectMoves | crates/holofs-gateway/src/http_gateway.rs:932-947 | the range scan with early break lists the entry and all its descendants, each with its target, and nothing else |
| Catalog.Directory.Rename | crates/holofs-gateway/src/http_gateway.rs:898-961 | for any catalog: which error, a taken target inside included; otherwise exactly the entry and what lies below it is carried over, with its manifests, and the count is their number; on a tree this is the renaming of the subtree, and the tree is kept |
| Catalog.RenameSucceeds | crates/holofs-gateway/src/http_gateway.rs:898-961 | in a tree a rename to another path succeeds exactly for an entry, to an absent path below directories that is not inside the entry |
| Catalog.MovesCarry | crates/holofs-gateway/src/http_gateway.rs:932-952 | removing and inserting one by one carries exactly the listed entries when no target is taken |
| Catalog.CarriedInTree | crates/holofs-gateway/src/http_gateway.rs:898-961 | on a tree the outcome is the renaming, its count the size of the subtree |
| Catalog.Directory.ListDir | crates/holofs-gateway/src/http_gateway.rs:969-1008 | the immediate children in order, or the error |
| Catalog.Directory.SynthesizeMissingDirectories | crates/holofs-model/src/fs.rs:68-96 | adds exactly the missing ancestors of data entries and returns their number |
| Catalog.FirstDecides | crates/holofs-gateway/src/http_gateway.rs:866-877 | something lies below a path exactly when the first key from path/ on starts with it |
| Catalog.ScanIsComplete | crates/holofs-gateway/src/http_gateway.rs:935-946 | the scan that stops at the first key without the prefix has seen every descendant |
| Catalog.NoCollision | crates/holofs-gateway/src/http_gateway.rs:942-944 | in a tree no target of a rename to an absent path is taken |
| Catalog.ChildrenHaveThisParent | crates/holofs-gateway/src/http_gateway.rs:990-1006 | the listed children are the entries whose parent is the directory |
| CatalogRun.SynthesizeCompletes | crates/holofs-model/src/fs.rs:55-96 | no entry changes and every ancestor of every data entry is present |
| CatalogRun.SynthesizeTwice | crates/holofs-model/src/fs.rs:55-96 | a second run adds nothing |
| CatalogRun.SynthesizeMakesTree | crates/holofs-model/src/fs.rs:55-96 | the result is a tree exactly when all keys are valid and whatever lies above an entry is a directory or lies above a data entry and is missing |
| CatalogRun.Run | crates/holofs-gateway/src/http_gateway.rs:728-961 | every run of mkdir, rmdir, rename, put and delete, refused ones included, keeps the catalog a tree |
| CatalogRun.RenameThereAndBack | crates/holofs-gateway/src/http_gateway.rs:898-961 | after a rename that succeeds, renaming back succeeds and leaves the catalog as it was |
| Text.CutsAscend | crates/holofs-codec/src/text_codec.rs:38-47 | the cuts never go backwards, start at 0, end at the end, and lie at character boundaries |
| Text.CutNear | crates/holofs-codec/src/text_codec.rs:38-47 | each cut lies at or after the even share i * n / k and, for valid text, at most three bytes after it |
| Text.ChunkValid | crates/holofs-codec/src/text_codec.rs:34-49 | each chunk of valid UTF-8 text is valid UTF-8 |
| Text.ChunksMakeText | crates/holofs-codec/src/text_codec.rs:34-49 | the chunks concatenate to the text |
| Text.SplitText | crates/holofs-codec/src/text_codec.rs:34-62 | the in-place shifting of the cuts, the padded buffer, the common length and the recorded lengths |
| Text.LongestReached | crates/holofs-codec/src/text_codec.rs:50 | the common length is that of some chunk, or 1 |
| Text.LongestEven | crates/holofs-codec/src/text_codec.rs:50 | k times the common length holds the text, and for valid text the common length is at most n / k + 4 |
| Text.EncoderAgrees | crates/holofs-codec/src/text_codec.rs:50-62 | the encoder's symbol length is the split's, and its chunks are the padded chunks |
| Text.AssembleTextWithHoles | crates/holofs-codec/src/text_codec.rs:67-88 | the pieces in order, trimmed or marked, and the number of holes |
| Text.AssembledIs | crates/holofs-codec/src/text_codec.rs:67-88 | from chunks of the text, whole or cut, the output is place by place what the recorded lengths leave of them, with exactly the missing chunks replaced by their markers |
| Text.PlaceRight | crates/holofs-codec/src/text_codec.rs:75-78 | a chunk that arrived is read right exactly when its recorded length is its own, or longer while the chunk is as long as the longest |
| Text.TextReadRight | crates/holofs-codec/src/text_codec.rs:67-88 | with such lengths the output is the text with exactly the missing chunks marked |
| Text.TextReadExact | crates/holofs-codec/src/text_codec.rs:67-88 | for a text without zero bytes the output is the text with exactly the missing chunks marked if and only if the recorded length of every chunk that arrived is good |
| Text.PlacesAddUp | crates/holofs-codec/src/text_codec.rs:67-88 | with zero bytes wrong places can add up to the right text: an example |
| Text.ZeroHolesIsExact | crates/holofs-codec/src/text_codec.rs:67-88 | with such lengths zero holes means the exact text |
| Text.StillValidText | crates/holofs-codec/src/text_codec.rs:67-88 | whatever is missing, the output is valid UTF-8 |
| ClusterText.PutText | crates/holofs-client/src/client.rs:243-311 | the lengths are recorded whether the put completes or not; lists, root and stored text change only when it completes; then every shard of one encoding, listed in order, lies on the node placement names, and the text can be read back |
| ClusterText.GetTextWithHoles | crates/holofs-client/src/client.rs:316-333 | the chunks that the verified shards determine, as far as the recorded lengths let them through, and a marker for each of the others |
| ClusterText.TextAnswered | crates/holofs-client/src/client.rs:265-333 | whatever text the last put begun was for, the answer is made of the stored text: place by place cut to the recorded lengths, exact where those are good, and for a text without zero bytes only there |
| ClusterText.NothingLeft | crates/holofs-client/src/client.rs:265-333 | an input that fails: after a broken-off put of the empty text, with all raw copies of the old text under the new id, the read has no index error, reports no hole and returns no text |
| Utf8.CutValid | crates/holofs-codec/src/text_codec.rs:40-45 | cutting valid text at a boundary leaves two valid texts |
| Escrow.SplitIntoShares | crates/holofs-analytics/src/escrow.rs:174-207 | the shares are the packaged shards of one encoding under the hashed id |
| Escrow.RecoverFromShares | crates/holofs-analytics/src/escrow.rs:216-270 | which refusal, if any; otherwise the decoded first k distinct shares, trimmed |
| Escrow.DistinctCounts | crates/holofs-analytics/src/escrow.rs:239-246 | deduplication keeps one share of each index |
| Escrow.EscrowIsExact | crates/holofs-analytics/src/escrow.rs:216-270 | for any list of shares of one split: failure with fewer than k distinct indices, success exactly when the first k distinct ones are independent, and then exactly the file, its type and name |
| Escrow.TwinSharesFail | crates/holofs-analytics/src/escrow.rs:216-270 | an input that fails: with k = 2, n = 4 and the draws [1, 1], [1, 1], shares 2 and 3 have different indices and every recovery from them fails |
| Codec.PrefixRejected | crates/holofs-model/src/manifest.rs:407-418 | a parser that ignores later input and reads its encoding back rejects every strict prefix of it |
| Codec.Cursor.TakeBytes | crates/holofs-model/src/manifest.rs:407-418 | the next n bytes, or an error that leaves the cursor in place |
| ManifestFormat.ManifestRoundTrip | crates/holofs-model/src/manifest.rs:165-379 | decoding an encoding, whatever follows it, gives the manifest back |
| ManifestFormat.ManifestPrefixRejected | crates/holofs-model/src/manifest.rs:249-379 | every strict prefix of an encoded manifest is rejected |
| ManifestFormat.LegacyMagicReads | crates/holofs-model/src/manifest.rs:249-257 | the same bytes under the earlier magic read the same |
| ManifestFormat.HeaderLayout | crates/holofs-model/src/manifest.rs:165-179 | the magic and every fixed header field at its byte offset, with the numbers of the placement schemes |
| ManifestFormat.LayerLayout | crates/holofs-model/src/manifest.rs:185-190 | shard counts and symbol lengths of the layers at their offsets behind the header |
| ManifestFormat.TailLayout | crates/holofs-model/src/manifest.rs:226-246 | the last section field by field, with the numbers of the object kinds |
| ManifestCodec.Encode | crates/holofs-model/src/manifest.rs:165-247 | appending field by field gives the manifest's bytes |
| ManifestCodec.Decode | crates/holofs-model/src/manifest.rs:249-379 | the cursor loop decodes as the format says, unknown tags and invalid text included |
| CatalogCodec.DirectoryReads | crates/holofs-model/src/fs.rs:98-177 | decoding an encoded catalog, whatever follows it, gives its entries in key order |
| CatalogCodec.DirectoryPrefixRejected | crates/holofs-model/src/fs.rs:141-177 | every strict prefix of an encoded catalog is rejected |
| CatalogCodec.DirectoryLayout | crates/holofs-model/src/fs.rs:98-111 | magic, count, and the entries from byte 12 on |
| CatalogCodec.EntryLayout | crates/holofs-model/src/fs.rs:98-111 | an entry is its name behind two length bytes and its manifest behind four |
| CatalogCodec.EncodeDirectory | crates/holofs-model/src/fs.rs:98-111 | the entries in key order, each with its embedded manifest |
| CatalogCodec.DecodeDirectory | crates/holofs-model/src/fs.rs:141-177 | reads the entries; later ones replace earlier ones of the same name |
| CatalogCodec.SaveAndLoad | crates/holofs-model/src/fs.rs:98-177 | decoding what was encoded gives the same catalog |

## Left out

- Merkle.RootBindsLeaves: hashes are symbolic terms, so SHA-256 is taken as injective here, and the 16- and 32-bit length fields of `shard_hash` do not wrap.
- Merkle.MerkleRoot: shard hashes and tree hashes are symbolic terms rather than digests of bytes.
- NodeStore.Store.Put: the in-memory index only; shard files on disk are not part of this model.
- Cluster.Client.PutObject: the object id is an arbitrary number and the random stream arbitrary bytes; the content hash both are derived from is not computed, and the transform of an image precedes this step (`Layers.StoredLayers`).
- Cluster.Client.ReadLayer: a node may leave any request unanswered, so no read is promised an answer.
- ClusterRepair.RepairNode: traffic and operation counters are not kept; a layer without donors is skipped as in the source.
- Repair.Pool.RegenerateNode: the 64-bit counters of the statistics do not wrap.
- Placement.Place: round robin tests membership in the live list; the source finds it by binary search, which asks for a sorted list.
- Health.SimulateZoneFailures: the source sorts the live list first; the layout does not depend on its order (`Health.PlacedUnique`).
- HaarInPlace.HaarForward: exact reals; rounding of 32-bit floats is not modelled.
- Layers.ReadUpTo: coefficients are carried as numbers; their four-byte encoding inside a layer is not modelled.
- Catalog.Directory.Ingest: the checks and the insertion are one atomic step, and storing the body is a parameter.
- Text.SplitText: recorded chunk lengths do not wrap at 32 bits.
- ClusterText.GetTextWithHoles: the similarity fingerprint stored beside a text is not computed.
- ClusterOpaque.PutOpaque: the recorded length and symbol length of a file do not wrap at 32 bits.
- ClusterRun.Run: client calls follow each other; interleavings of concurrent calls are not modelled. An index error is an outcome of the read; what the caller makes of it is not modelled. Puts and reads are of the manifest's own kind, which the source asserts for texts, files and audio.
- Text.TextReadExact: the condition is exact for texts without zero bytes; with them it is sufficient, and wrong places may add up to the right text (`Text.PlacesAddUp`).
- Escrow.SplitIntoShares: the random stream is arbitrary instead of seeded from the content hash.
- Escrow.RecoverFromShares: asks that the shares have the coefficient and payload lengths that the decoder indexes; shares of one split always do.
- The byte format of share files repeats the manifest's kind of fields and adds nothing harder.
- The trigger policy of repair, reputation scores and random-loss simulation rest on floating-point thresholds or chance.
- That k - 1 shares reveal nothing about the file is a statement of probability over the random stream.
- Networking, TLS, identities and whitelists, disk files, caches, the web interface and media containers are plumbing around the modelled steps.
