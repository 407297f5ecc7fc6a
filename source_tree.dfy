/** The SourceTree lists the CT logs a DomainMap draws from: an append-only list of log
    IDs over a dense Merkle tree whose leaves are the IDs' bytes. */
module SourceTrees {
  import opened Types
  import opened DenseMerkle

  /** logid.LogID is a [32]byte. */
  type LogId = Hash32

  class SourceTree {
    const mt: MerkleTree
    var leaves: seq<LogId>

    ghost function Repr(): set<object> {
      {this, mt}
    }

    /** The Merkle tree has one leaf per log ID, in order. */
    ghost predicate Valid()
      reads this, mt
    {
      mt.leaves == leaves
    }

    /** NewSourceTree: no leaves and an empty Merkle tree. */
    constructor (hasher: DenseHasher)
      ensures leaves == [] && mt.leaves == [] && mt.hasher == hasher
      ensures Valid() && fresh(mt)
    {
      mt := new MerkleTree(hasher);
      leaves := [];
    }

    /** The root of the first treeSize log IDs. */
    method GetRoot(treeSize: nat) returns (r: Result<Hash32>)
      requires Valid()
      ensures r.Ok? <==> treeSize <= |leaves|
      ensures r.Ok? ==> r.value == mt.hasher.rootOf(leaves[..treeSize])
      ensures r.Err? ==> r.error == TreeSizeTooLarge(treeSize, |leaves|)
    {
      r := mt.GetRoot(treeSize);
    }

    /** The log IDs start..end (inclusive), as a copy. */
    method GetEntries(start: nat, end: nat) returns (r: Result<seq<LogId>>)
      ensures r.Ok? <==> start <= end < |leaves|
      ensures start > end ==> r == Err(IntervalReversed(start, end))
      ensures start <= end && end >= |leaves| ==> r == Err(IntervalEndTooLarge(end, |leaves|))
      ensures r.Ok? ==> |r.value| == end - start + 1 &&
                        forall k :: 0 <= k < |r.value| ==> r.value[k] == leaves[start + k]
    {
      if start > end {
        return Err(IntervalReversed(start, end));
      }
      if end >= |leaves| {
        return Err(IntervalEndTooLarge(end, |leaves|));
      }
      return Ok(leaves[start..end + 1]);
    }

    /** The log ID at leafIndex with its audit path in the tree of size treeSize. */
    method GetEntryAndProof(treeSize: nat, leafIndex: nat) returns (r: Result<(LogId, seq<Bytes>)>)
      requires Valid()
      ensures r.Ok? <==> leafIndex < treeSize <= |leaves|
      ensures leafIndex >= |leaves| ==> r == Err(IntervalEndTooLarge(leafIndex, |leaves|))
      ensures leafIndex < |leaves| && leafIndex >= treeSize ==> r == Err(LeafIndexTooLarge(leafIndex, treeSize))
      ensures leafIndex < |leaves| && leafIndex < treeSize && |leaves| < treeSize ==>
                r == Err(NoSuchTreeSize(treeSize, |leaves|))
      ensures r.Ok? ==> r.value.0 == leaves[leafIndex] &&
                        r.value.1 == HashesOf(mt.hasher.pathOf(leaves[..treeSize], leafIndex))
    {
      var entries := GetEntries(leafIndex, leafIndex);
      if entries.Err? {
        return Err(entries.error);
      }
      var proof := mt.GetAuditProof(treeSize, leafIndex);
      if proof.Err? {
        return Err(proof.error);
      }
      return Ok((entries.value[0], proof.value));
    }

    /** Appends the log ID as one Merkle leaf; returns the new leaf count. */
    method AddEntry(entry: LogId) returns (size: nat)
      requires Valid()
      modifies this, mt
      ensures Valid()
      ensures leaves == old(leaves) + [entry] && size == |leaves|
    {
      mt.AddLeaf(entry);
      leaves := leaves + [entry];
      size := |leaves|;
    }
  }
}
