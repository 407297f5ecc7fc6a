/** The thread-safe wrapper around the dense (RFC 6962) in-memory Merkle tree that
    DomainTree and SourceTree embed. The wrapper's own logic is bounds checks and the
    leaf count; the hashing itself belongs to the Merkle library and is a parameter
    here (`DenseHasher`): roots and paths are uninterpreted functions of the leaves. */
module DenseMerkle {
  import opened Types

  /** One entry of an audit or consistency path, as the Merkle library reports it. */
  datatype NodeDescriptor = NodeDescriptor(level: nat, index: nat, hash: Bytes)

  /** The RFC 6962 hashing of the Merkle library (section 2.1 of RFC 6962), uninterpreted:
      - rootOf(ls): the tree head of the leaf list ls (the empty list gives the empty root);
      - pathOf(ls, i): the audit path of leaf i in the tree over ls (section 2.1.1);
      - consistencyOf(ls, m, n): the consistency path between the sizes m and n of the
        tree whose leaves are ls (section 2.1.2). */
  datatype DenseHasher = DenseHasher(
    rootOf: seq<Bytes> -> Hash32,
    pathOf: (seq<Bytes>, nat) -> seq<NodeDescriptor>,
    consistencyOf: (seq<Bytes>, int, int) -> seq<NodeDescriptor>)

  /** `emptyDenseTreeRoot`: the root of the tree with no leaves. */
  function EmptyRoot(h: DenseHasher): Hash32 {
    h.rootOf([])
  }

  /** The hashes of a path, in path order. */
  function HashesOf(path: seq<NodeDescriptor>): (hs: seq<Bytes>)
    ensures |hs| == |path|
    ensures forall i :: 0 <= i < |path| ==> hs[i] == path[i].hash
  {
    seq(|path|, i requires 0 <= i < |path| => path[i].hash)
  }

  /** Appending leaves leaves every earlier snapshot (and so its root and audit paths) unchanged. */
  lemma SnapshotStable(leaves: seq<Bytes>, more: seq<Bytes>, k: nat)
    requires k <= |leaves|
    ensures (leaves + more)[..k] == leaves[..k]
  {
  }

  class MerkleTree {
    const hasher: DenseHasher
    var leaves: seq<Bytes>

    /** newMerkleTree */
    constructor (hasher: DenseHasher)
      ensures this.hasher == hasher && leaves == []
    {
      this.hasher := hasher;
      leaves := [];
    }

    function LeafCount(): nat
      reads this
    {
      |leaves|
    }

    /** The root of the snapshot of the first treeSize leaves; fails when treeSize is
        larger than the number of leaves. */
    method GetRoot(treeSize: nat) returns (r: Result<Hash32>)
      ensures r.Ok? <==> treeSize <= |leaves|
      ensures r.Ok? ==> r.value == hasher.rootOf(leaves[..treeSize])
      ensures r.Err? ==> r.error == TreeSizeTooLarge(treeSize, |leaves|)
    {
      var latestTreeSize := LeafCount();
      if treeSize > latestTreeSize {
        return Err(TreeSizeTooLarge(treeSize, latestTreeSize));
      }
      return Ok(hasher.rootOf(leaves[..treeSize]));
    }

    /** The raw audit path of leafIndex in the snapshot of size treeSize. */
    method GetRawProof(treeSize: nat, leafIndex: nat) returns (r: Result<seq<NodeDescriptor>>)
      ensures r.Ok? <==> leafIndex < treeSize <= |leaves|
      ensures r.Ok? ==> r.value == hasher.pathOf(leaves[..treeSize], leafIndex)
      ensures leafIndex >= treeSize ==> r == Err(LeafIndexTooLarge(leafIndex, treeSize))
      ensures leafIndex < treeSize && |leaves| < treeSize ==> r == Err(NoSuchTreeSize(treeSize, |leaves|))
    {
      if leafIndex >= treeSize {
        return Err(LeafIndexTooLarge(leafIndex, treeSize));
      }
      var leafCount := LeafCount();
      if leafCount < treeSize {
        return Err(NoSuchTreeSize(treeSize, leafCount));
      }
      return Ok(hasher.pathOf(leaves[..treeSize], leafIndex));
    }

    /** The audit proof: one hash per raw path entry, in path order; errors propagate. */
    method GetAuditProof(treeSize: nat, leafIndex: nat) returns (r: Result<seq<Bytes>>)
      ensures r.Ok? <==> leafIndex < treeSize <= |leaves|
      ensures r.Ok? ==> r.value == HashesOf(hasher.pathOf(leaves[..treeSize], leafIndex))
      ensures leafIndex >= treeSize ==> r == Err(LeafIndexTooLarge(leafIndex, treeSize))
      ensures leafIndex < treeSize && |leaves| < treeSize ==> r == Err(NoSuchTreeSize(treeSize, |leaves|))
    {
      var raw := GetRawProof(treeSize, leafIndex);
      if raw.Err? {
        return Err(raw.error);
      }
      var proof := CopyHashes(raw.value);
      return Ok(proof);
    }

    /** Adds one leaf: the leaf count grows by exactly one. */
    method AddLeaf(leafData: Bytes)
      modifies this
      ensures leaves == old(leaves) + [leafData]
    {
      leaves := leaves + [leafData];
    }

    /** The consistency proof between the sizes firstSize and secondSize (no bounds checks). */
    method GetConsistencyProof(firstSize: U64, secondSize: U64) returns (proof: seq<Bytes>)
      ensures proof == HashesOf(hasher.consistencyOf(leaves, firstSize, secondSize))
    {
      var raw := hasher.consistencyOf(leaves, firstSize, secondSize);
      proof := CopyHashes(raw);
    }
  }

  /** Fills a fresh array with the hash of every path entry, as both proof getters do. */
  method CopyHashes(raw: seq<NodeDescriptor>) returns (proof: seq<Bytes>)
    ensures |proof| == |raw|
    ensures forall i :: 0 <= i < |raw| ==> proof[i] == raw[i].hash
  {
    var a := new Bytes[|raw|];
    var i := 0;
    while i < a.Length
      invariant 0 <= i <= a.Length
      invariant forall j :: 0 <= j < i ==> a[j] == raw[j].hash
    {
      a[i] := raw[i].hash;
      i := i + 1;
    }
    proof := a[..];
  }
}
