/** The object manifest (crates/holofs-model/src/manifest.rs). */
module ObjectManifest {
  import opened U64
  import opened Placement

  type u16 = n: nat | n < 0x1_0000
  const ZERO_DIGEST: seq<u8> := [
    0, 0, 0, 0, 0, 0, 0, 0, 0, 0, 0, 0, 0, 0, 0, 0, 0, 0, 0, 0, 0, 0, 0, 0, 0, 0, 0, 0, 0, 0, 0, 0]

  type Digest32 = d: seq<u8> | |d| == 32 witness ZERO_DIGEST

  datatype ObjectKind = Image | Text | Audio | Opaque | Directory

  datatype Manifest = Manifest(
    objectId: u64, k: u16, nlayers: u8, nPerLayer: seq<u32>, symLen: seq<u32>, layerPositions: seq<seq<u32>>,
    channels: u8, width: u32, height: u32, levels: u8, nodes: seq<seq<u8>>, placement: Scheme, zones: seq<u8>,
    dataCid: Digest32, merkleRoot: Digest32, shardHashes: seq<seq<seq<Digest32>>>,
    kind: ObjectKind, contentType: seq<u8>, chunkLens: seq<u32>, audioSampleRate: u32, textMinhash: seq<u32>)

  /** "inode/directory" */
  const INODE_DIRECTORY: seq<u8> := [105, 110, 111, 100, 101, 47, 100, 105, 114, 101, 99, 116, 111, 114, 121]

  /** A directory marker: every field but the id is zero or empty. */
  function DirectoryManifest(objectId: u64): Manifest {
    Manifest(objectId, 0, 0, [], [], [], 0, 0, 0, 0, [], Rendezvous, [], ZERO_DIGEST, ZERO_DIGEST, [],
             Directory, INODE_DIRECTORY, [], 0, [])
  }
}
