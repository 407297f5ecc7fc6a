/** A DomainTree stores, like a CT log, the certificates seen for one domain: an
    append-only list of (log index, certificate index) entries over a dense Merkle tree,
    plus a per-log index from certificate index to position in the tree. */
module DomainTrees {
  import opened Types
  import opened DenseMerkle

  /** The head of a domain tree at some size. */
  datatype DomainTreeRoot = DomainTreeRoot(size: nat, rootHash: Hash32)

  /** Points to a certificate: LogIndex is the index of the CT log in the source tree. */
  datatype DomainTreeEntry = DomainTreeEntry(logIndex: U64, certificateIndex: U64)

  /** One element of a per-log index list. */
  datatype CertAndDTIndex = CertAndDTIndex(certificateIndex: U64, domainTreeIndex: nat)

  // ---------------------------------------------------------------------------
  // TLS encoding of a DomainTreeEntry: two big-endian uint64 values (16 bytes).

  function Pow256(n: nat): (p: nat)
    ensures p >= 1
  {
    if n == 0 then 1 else 256 * Pow256(n - 1)
  }

  /** The last n bytes of x in big-endian order. */
  function EncodeBE(x: nat, n: nat): (s: Bytes)
    ensures |s| == n
  {
    if n == 0 then [] else EncodeBE(x / 256, n - 1) + [x % 256]
  }

  function DecodeBE(s: Bytes): nat {
    if s == [] then 0 else DecodeBE(s[..|s| - 1]) * 256 + s[|s| - 1]
  }

  lemma {:induction false} DecodeBEBound(s: Bytes)
    ensures DecodeBE(s) < Pow256(|s|)
  {
    if s != [] {
      DecodeBEBound(s[..|s| - 1]);
    }
  }

  lemma {:induction false} DecodeEncodeBE(x: nat, n: nat)
    requires x < Pow256(n)
    ensures DecodeBE(EncodeBE(x, n)) == x
  {
    if n > 0 {
      var s := EncodeBE(x / 256, n - 1);
      assert x / 256 < Pow256(n - 1);
      DecodeEncodeBE(x / 256, n - 1);
      assert (s + [x % 256])[..|s|] == s;
    }
  }

  lemma Pow256Of8()
    ensures Pow256(8) == U64_LIMIT
  {
    assert Pow256(2) == 65536;
    assert Pow256(4) == 65536 * 65536 by {
      assert Pow256(4) == 256 * 256 * Pow256(2);
    }
    assert Pow256(6) == 256 * 256 * Pow256(4);
    assert Pow256(8) == 256 * 256 * Pow256(6);
  }

  function EncodeEntry(e: DomainTreeEntry): (s: Bytes)
    ensures |s| == 16
  {
    EncodeBE(e.logIndex, 8) + EncodeBE(e.certificateIndex, 8)
  }

  function DecodeEntry(s: Bytes): (e: DomainTreeEntry)
    requires |s| == 16
  {
    DecodeBEBound(s[..8]);
    DecodeBEBound(s[8..]);
    Pow256Of8();
    DomainTreeEntry(DecodeBE(s[..8]), DecodeBE(s[8..]))
  }

  /** The encoding is injective: the Merkle leaves determine the entries. */
  lemma EntryRoundTrip(e: DomainTreeEntry)
    ensures DecodeEntry(EncodeEntry(e)) == e
  {
    Pow256Of8();
    var s := EncodeEntry(e);
    assert s[..8] == EncodeBE(e.logIndex, 8);
    assert s[8..] == EncodeBE(e.certificateIndex, 8);
    DecodeEncodeBE(e.logIndex, 8);
    DecodeEncodeBE(e.certificateIndex, 8);
  }

  function EncodeEntries(es: seq<DomainTreeEntry>): (ls: seq<Bytes>)
    ensures |ls| == |es|
    ensures forall i :: 0 <= i < |es| ==> ls[i] == EncodeEntry(es[i])
  {
    seq(|es|, i requires 0 <= i < |es| => EncodeEntry(es[i]))
  }

  // ---------------------------------------------------------------------------
  // The per-log index.

  /** Every (c, i) in leavesPerLog[l] points at the leaf {l, c}. */
  ghost predicate IndexConsistent(leaves: seq<DomainTreeEntry>, perLog: seq<seq<CertAndDTIndex>>) {
    forall l, k :: 0 <= l < |perLog| && 0 <= k < |perLog[l]| ==>
      perLog[l][k].domainTreeIndex < |leaves| &&
      leaves[perLog[l][k].domainTreeIndex].logIndex == l &&
      leaves[perLog[l][k].domainTreeIndex].certificateIndex == perLog[l][k].certificateIndex
  }

  /** leavesPerLog after growLeavesPerLog(minSize): padded with empty lists. */
  function Padded(perLog: seq<seq<CertAndDTIndex>>, minSize: nat): (p: seq<seq<CertAndDTIndex>>)
    ensures |p| == if |perLog| < minSize then minSize else |perLog|
    ensures p[..|perLog|] == perLog
    ensures forall k :: |perLog| <= k < |p| ==> p[k] == []
  {
    if |perLog| < minSize then perLog + seq(minSize - |perLog|, _ => []) else perLog
  }

  ghost predicate SortedByCertificate(list: seq<CertAndDTIndex>) {
    forall a, b :: 0 <= a < b < |list| ==> list[a].certificateIndex <= list[b].certificateIndex
  }

  /** The first position whose certificate index is at least target (|list| if none). */
  function LowerBound(list: seq<CertAndDTIndex>, target: U64): (i: nat)
    ensures i <= |list|
    ensures forall k :: 0 <= k < i ==> list[k].certificateIndex < target
    ensures i < |list| ==> list[i].certificateIndex >= target
  {
    if list == [] || list[0].certificateIndex >= target then 0
    else 1 + LowerBound(list[1..], target)
  }

  /** sort.Search over the list with predicate `CertificateIndex >= target`. Whatever the
      order of the list, the result separates a failing position from a succeeding one;
      on a sorted list it is the lower bound. */
  method SearchCertificate(list: seq<CertAndDTIndex>, target: U64) returns (i: nat)
    ensures i <= |list|
    ensures 0 < i ==> list[i - 1].certificateIndex < target
    ensures i < |list| ==> list[i].certificateIndex >= target
    ensures SortedByCertificate(list) ==> i == LowerBound(list, target)
  {
    i := 0;
    var j := |list|;
    while i < j
      invariant 0 <= i <= j <= |list|
      invariant 0 < i ==> list[i - 1].certificateIndex < target
      invariant j < |list| ==> list[j].certificateIndex >= target
    {
      var h := (i + j) / 2;
      if list[h].certificateIndex < target {
        i := h + 1;
      } else {
        j := h;
      }
    }
  }

  /** What EntryToDomainTreeIndex does, as written, with the position i found by the
      search: `leaves[i]` is read even when i is the length of the list. */
  function ResolveAsWritten(list: seq<CertAndDTIndex>, i: nat, entry: DomainTreeEntry): (r: Result<nat>)
    requires i <= |list|
    ensures r == Err(Panic("index out of range")) <==> i == |list|
    ensures i < |list| ==> r == Resolve(list, i, entry)
  {
    if i == |list| then Err(Panic("index out of range"))
    else if list[i].certificateIndex != entry.certificateIndex then Err(NoEntryForLog(entry.logIndex))
    else Ok(list[i].domainTreeIndex)
  }

  /** The documented behaviour: an entry that is not in the tree is an error. */
  function Resolve(list: seq<CertAndDTIndex>, i: nat, entry: DomainTreeEntry): (r: Result<nat>)
    requires i <= |list|
    ensures r.Err? ==> r.error == NoEntryForLog(entry.logIndex)
    ensures r.Ok? ==> i < |list| && r.value == list[i].domainTreeIndex && list[i].certificateIndex == entry.certificateIndex
  {
    if i == |list| || list[i].certificateIndex != entry.certificateIndex then Err(NoEntryForLog(entry.logIndex))
    else Ok(list[i].domainTreeIndex)
  }

  /** The code as written panics whenever every certificate of the log is smaller than
      the requested one, in particular when the log has no entry at all in this tree. */
  lemma AsWrittenPanicsPastEnd(list: seq<CertAndDTIndex>, entry: DomainTreeEntry)
    requires forall k :: 0 <= k < |list| ==> list[k].certificateIndex < entry.certificateIndex
    ensures ResolveAsWritten(list, LowerBound(list, entry.certificateIndex), entry) == Err(Panic("index out of range"))
    ensures Resolve(list, LowerBound(list, entry.certificateIndex), entry) == Err(NoEntryForLog(entry.logIndex))
  {
  }

  /** The concrete instance: a fresh tree (no entry for log 0) asked for certificate 7 of log 0. */
  lemma AsWrittenPanicsOnEmptyLog()
    ensures ResolveAsWritten([], LowerBound([], 7), DomainTreeEntry(0, 7)) == Err(Panic("index out of range"))
    ensures Resolve([], LowerBound([], 7), DomainTreeEntry(0, 7)) == Err(NoEntryForLog(0))
  {
  }

  /** On a sorted list the corrected lookup succeeds exactly when the certificate is
      listed, and then returns the tree index stored with its first occurrence. */
  lemma {:induction false} ResolveFindsExactly(list: seq<CertAndDTIndex>, entry: DomainTreeEntry)
    requires SortedByCertificate(list)
    ensures Resolve(list, LowerBound(list, entry.certificateIndex), entry).Ok? <==>
            exists k :: 0 <= k < |list| && list[k].certificateIndex == entry.certificateIndex
  {
    var lb := LowerBound(list, entry.certificateIndex);
    if k :| 0 <= k < |list| && list[k].certificateIndex == entry.certificateIndex {
      assert lb <= k;
      assert list[lb].certificateIndex <= list[k].certificateIndex;
    }
  }

  // ---------------------------------------------------------------------------

  class DomainTree {
    const domainName: string
    const mt: MerkleTree
    var leaves: seq<DomainTreeEntry>
    var leavesPerLog: seq<seq<CertAndDTIndex>>

    ghost function Repr(): set<object> {
      {this, mt}
    }

    /** The Merkle tree holds the encoding of every entry, in order, and the per-log
        index points at matching entries. */
    ghost predicate Valid()
      reads this, mt
    {
      mt.leaves == EncodeEntries(leaves) && IndexConsistent(leaves, leavesPerLog)
    }

    constructor (name: string, hasher: DenseHasher)
      ensures domainName == name && mt.hasher == hasher
      ensures leaves == [] && leavesPerLog == [] && mt.leaves == []
      ensures Valid() && fresh(mt)
    {
      domainName := name;
      mt := new MerkleTree(hasher);
      leaves := [];
      leavesPerLog := [];
    }

    /** The root of the first treeSize entries; fails exactly when the Merkle tree rejects the size. */
    method GetRoot(treeSize: nat) returns (r: Result<DomainTreeRoot>)
      requires Valid()
      ensures r.Ok? <==> treeSize <= |leaves|
      ensures r.Ok? ==> r.value.size == treeSize &&
                        r.value.rootHash == mt.hasher.rootOf(EncodeEntries(leaves[..treeSize]))
      ensures r.Err? ==> r.error == TreeSizeTooLarge(treeSize, |leaves|)
    {
      var rootHash := mt.GetRoot(treeSize);
      if rootHash.Err? {
        return Err(rootHash.error);
      }
      assert mt.leaves[..treeSize] == EncodeEntries(leaves[..treeSize]);
      return Ok(DomainTreeRoot(treeSize, rootHash.value));
    }

    /** The entries start..end (inclusive), as a copy. */
    method GetEntries(start: nat, end: nat) returns (r: Result<seq<DomainTreeEntry>>)
      ensures r.Ok? <==> start <= end < |leaves|
      ensures start > end ==> r == Err(IntervalReversed(start, end))
      ensures start <= end && end >= |leaves| ==> r == Err(IntervalEndTooLarge(end, |leaves|))
      ensures r.Ok? ==> |r.value| == end - start + 1 &&
                        forall k :: 0 <= k < |r.value| ==> r.value[k] == leaves[start + k]
    {
      if start > end {
        return Err(IntervalReversed(start, end));
      }
      if end >= |leaves| {
        return Err(IntervalEndTooLarge(end, |leaves|));
      }
      return Ok(leaves[start..end + 1]);
    }

    /** The entry at leafIndex with its audit path in the tree of size treeSize. */
    method GetEntryAndProof(treeSize: nat, leafIndex: nat) returns (r: Result<(DomainTreeEntry, seq<Bytes>)>)
      requires Valid()
      ensures r.Ok? <==> leafIndex < treeSize <= |leaves|
      ensures leafIndex >= |leaves| ==> r == Err(IntervalEndTooLarge(leafIndex, |leaves|))
      ensures leafIndex < |leaves| && leafIndex >= treeSize ==> r == Err(LeafIndexTooLarge(leafIndex, treeSize))
      ensures leafIndex < |leaves| && leafIndex < treeSize && |leaves| < treeSize ==>
                r == Err(NoSuchTreeSize(treeSize, |leaves|))
      ensures r.Ok? ==> r.value.0 == leaves[leafIndex] &&
                        r.value.1 == HashesOf(mt.hasher.pathOf(EncodeEntries(leaves[..treeSize]), leafIndex))
    {
      var entries := GetEntries(leafIndex, leafIndex);
      if entries.Err? {
        return Err(entries.error);
      }
      var proof := mt.GetAuditProof(treeSize, leafIndex);
      if proof.Err? {
        return Err(proof.error);
      }
      assert mt.leaves[..treeSize] == EncodeEntries(leaves[..treeSize]);
      return Ok((entries.value[0], proof.value));
    }

    /** Pads leavesPerLog with empty lists up to minSize. */
    method GrowLeavesPerLog(minSize: nat)
      modifies this
      ensures leavesPerLog == Padded(old(leavesPerLog), minSize)
      ensures leaves == old(leaves)
    {
      while |leavesPerLog| < minSize
        invariant leavesPerLog == old(leavesPerLog) + seq(|leavesPerLog| - |old(leavesPerLog)|, _ => [])
        invariant leaves == old(leaves)
        invariant |old(leavesPerLog)| <= |leavesPerLog| <= if |old(leavesPerLog)| < minSize then minSize else |old(leavesPerLog)|
        decreases minSize - |leavesPerLog|
      {
        leavesPerLog := leavesPerLog + [[]];
      }
    }

    /** Appends the entry; indexes it under its log; returns the new leaf count. */
    method AddEntry(entry: DomainTreeEntry) returns (size: nat)
      requires Valid()
      modifies this, mt
      ensures Valid()
      ensures leaves == old(leaves) + [entry] && size == |leaves|
      ensures leavesPerLog ==
        var p := Padded(old(leavesPerLog), entry.logIndex + 1);
        p[entry.logIndex := p[entry.logIndex] + [CertAndDTIndex(entry.certificateIndex, size - 1)]]
    {
      mt.AddLeaf(EncodeEntry(entry));
      leaves := leaves + [entry];
      GrowLeavesPerLog(entry.logIndex + 1);
      leavesPerLog := leavesPerLog[entry.logIndex :=
        leavesPerLog[entry.logIndex] + [CertAndDTIndex(entry.certificateIndex, |leaves| - 1)]];
      size := |leaves|;
      assert IndexConsistent(leaves, leavesPerLog) by {
        forall l, k | 0 <= l < |leavesPerLog| && 0 <= k < |leavesPerLog[l]|
          ensures leavesPerLog[l][k].domainTreeIndex < |leaves|
          ensures leaves[leavesPerLog[l][k].domainTreeIndex].logIndex == l
          ensures leaves[leavesPerLog[l][k].domainTreeIndex].certificateIndex == leavesPerLog[l][k].certificateIndex
        {
          if l < |old(leavesPerLog)| && k < |old(leavesPerLog)[l]| {
            assert leavesPerLog[l][k] == old(leavesPerLog)[l][k];
          }
        }
      }
    }

    /** The tree index of an entry, via binary search of its log's list (which the
        caller must keep sorted by certificate index for the search to be exact).
        Like the Go code it first pads leavesPerLog. It reports a missing entry as an
        error where the Go code panics when no certificate index is at least the
        requested one (see ResolveAsWritten). */
    method EntryToDomainTreeIndex(entry: DomainTreeEntry) returns (r: Result<nat>)
      requires Valid()
      modifies this
      ensures Valid() && leaves == old(leaves)
      ensures leavesPerLog == Padded(old(leavesPerLog), entry.logIndex + 1)
      ensures r.Ok? ==> r.value < |leaves| && leaves[r.value] == entry
      ensures r.Err? ==> r.error == NoEntryForLog(entry.logIndex)
      ensures SortedByCertificate(leavesPerLog[entry.logIndex]) ==>
        r == Resolve(leavesPerLog[entry.logIndex], LowerBound(leavesPerLog[entry.logIndex], entry.certificateIndex), entry)
    {
      GrowLeavesPerLog(entry.logIndex + 1);
      var list := leavesPerLog[entry.logIndex];
      var i := SearchCertificate(list, entry.certificateIndex);
      r := Resolve(list, i, entry);
    }
  }

  /** NewDomainTree: a tree for the normalized name, or the normalization error. */
  method NewDomainTree(domain: string, normalize: string -> Option<string>, hasher: DenseHasher)
    returns (r: Result<DomainTree>)
    ensures normalize(domain).None? <==> r.Err?
    ensures r.Err? ==> r.error == NormalizationFailed(domain)
    ensures r.Ok? ==> fresh(r.value) && fresh(r.value.mt) && r.value.Valid() &&
                      r.value.domainName == normalize(domain).value &&
                      r.value.mt.hasher == hasher && r.value.leaves == [] && r.value.leavesPerLog == []
  {
    var n := normalize(domain);
    if n.None? {
      return Err(NormalizationFailed(domain));
    }
    var t := new DomainTree(n.value, hasher);
    return Ok(t);
  }
}
