/** The DomainMap: the signed map heads (SMHs) published so far, the sparse Merkle tree that
    maps each normalized domain name to the root of its domain tree, the domain trees
    themselves and the source tree of CT logs. */
module DomainMaps {
  import opened Types
  import opened DenseMerkle
  import opened DomainTrees
  import opened SourceTrees

  /** The Domain Transparency version written into every new map head. */
  const Version: nat := 1

  /** Node hashes of the sparse tree are SHA-256 digests; its placeholder is all zeros. */
  const SparseHashSize: nat := 32

  datatype LogRevision = LogRevision(treeSize: U64, rootHash: Hash32)

  datatype MapHead = MapHead(
    version: nat,
    timestamp: U64,
    mapSize: U64,
    mapRootHash: Hash32,
    sourceTreeRootHash: Hash32,
    sourceLogRevisions: seq<LogRevision>)

  /** An SMH; the initial, empty one carries no signature. */
  datatype SignedMapHead = SignedMapHead(head: MapHead, signature: Option<Bytes>)

  const EmptySMH := SignedMapHead(MapHead(Version, 0, 0, ZeroHash, ZeroHash, []), None)

  /** The sparse tree's answer to ProveForRoot: the side nodes from the leaf up, and the
      leaf found in place of the key when the key is absent (None for a placeholder). */
  datatype SparseProof = SparseProof(sideNodes: seq<Bytes>, nonMembershipLeafData: Option<Bytes>)

  /** A (non-)containment proof with the side nodes from the root down. */
  datatype DomainProof = DomainProof(proof: seq<Bytes>, leafHash: Bytes)

  /** The code the DomainMap calls but that is not modelled here:
      - normalize: util.NormalizeDomainName (None when it fails);
      - sign: TLS-marshalling the head and signing its hash (None when either fails);
      - sparseRoot: the root hash of a sparse tree holding exactly these contents;
      - prove: the sparse tree's ProveForRoot for a key under a known root;
      - saveNodes: the node store's SaveNodesForRoot verdict on a root;
      - dense: the RFC 6962 hasher of the domain and source trees. */
  datatype Environment = Environment(
    normalize: string -> Option<string>,
    sign: MapHead -> Option<Bytes>,
    sparseRoot: map<string, DomainTreeRoot> -> Hash32,
    prove: (Bytes, string) -> SparseProof,
    saveNodes: Bytes -> Option<Error>,
    dense: DenseHasher)

  type SparseRoots = map<Bytes, map<string, DomainTreeRoot>>

  // ---------------------------------------------------------------------------
  // Publishing an SMH

  /** b extends a: no smaller map, no fewer logs, and no log revision that shrank. */
  predicate Precedes(a: MapHead, b: MapHead) {
    a.mapSize <= b.mapSize &&
    |a.sourceLogRevisions| <= |b.sourceLogRevisions| &&
    forall i :: 0 <= i < |a.sourceLogRevisions| ==>
      a.sourceLogRevisions[i].treeSize <= b.sourceLogRevisions[i].treeSize
  }

  lemma PrecedesTransitive(a: MapHead, b: MapHead, c: MapHead)
    requires Precedes(a, b) && Precedes(b, c)
    ensures Precedes(a, c)
  {
    forall i | 0 <= i < |a.sourceLogRevisions|
      ensures a.sourceLogRevisions[i].treeSize <= c.sourceLogRevisions[i].treeSize
    {
      assert b.sourceLogRevisions[i].treeSize <= c.sourceLogRevisions[i].treeSize;
    }
  }

  /** The per-log check, from log i on: a republish must keep every size, a new root may
      only grow them; the first offending log is reported. */
  function RevisionError(current: seq<LogRevision>, revs: seq<LogRevision>, isRepublish: bool, i: nat): Option<Error>
    requires |current| <= |revs| && i <= |current|
    decreases |current| - i
  {
    if i == |current| then None
    else if isRepublish && revs[i].treeSize != current[i].treeSize then
      Some(InvalidSourceLogSizeForRepublish(i, revs[i].treeSize, current[i].treeSize))
    else if !isRepublish && revs[i].treeSize < current[i].treeSize then
      Some(InvalidSourceLogSize(i, revs[i].treeSize, current[i].treeSize))
    else RevisionError(current, revs, isRepublish, i + 1)
  }

  /** The checks of CheckAndPublishSMH against the current head, in the order it makes them. */
  function PublishCheck(current: MapHead, root: Bytes, mapSize: U64, revs: seq<LogRevision>): Option<Error> {
    var isRepublish := root == current.mapRootHash;
    var cur := current.sourceLogRevisions;
    if |root| != 32 then Some(InvalidMapRootLength(|root|))
    else if isRepublish && mapSize != current.mapSize then
      Some(InvalidMapSizeForRepublish(mapSize, current.mapSize))
    else if !isRepublish && mapSize <= current.mapSize then
      Some(InvalidMapSizeForNewRoot(mapSize, current.mapSize))
    else if isRepublish && |revs| != |cur| then
      Some(InvalidSourceLogCountForRepublish(|revs|, |cur|))
    else if !isRepublish && |revs| < |cur| then
      Some(InvalidSourceLogCount(|revs|, |cur|))
    else RevisionError(cur, revs, isRepublish, 0)
  }

  /** What the checks accept, stated independently of their order. */
  predicate Acceptable(current: MapHead, root: Bytes, mapSize: U64, revs: seq<LogRevision>) {
    var cur := current.sourceLogRevisions;
    |root| == 32 &&
    if root == current.mapRootHash then
      mapSize == current.mapSize && |revs| == |cur| &&
      forall i :: 0 <= i < |cur| ==> revs[i].treeSize == cur[i].treeSize
    else
      mapSize > current.mapSize && |revs| >= |cur| &&
      forall i :: 0 <= i < |cur| ==> revs[i].treeSize >= cur[i].treeSize
  }

  lemma {:induction false} RevisionErrorNoneIff(current: seq<LogRevision>, revs: seq<LogRevision>, isRepublish: bool, i: nat)
    requires |current| <= |revs| && i <= |current|
    ensures RevisionError(current, revs, isRepublish, i).None? <==>
      forall j :: i <= j < |current| ==>
        (isRepublish ==> revs[j].treeSize == current[j].treeSize) &&
        (!isRepublish ==> revs[j].treeSize >= current[j].treeSize)
    decreases |current| - i
  {
    if i < |current| {
      RevisionErrorNoneIff(current, revs, isRepublish, i + 1);
    }
  }

  /** CheckAndPublishSMH's checks pass exactly for the acceptable updates. */
  lemma PublishCheckAccepts(current: MapHead, root: Bytes, mapSize: U64, revs: seq<LogRevision>)
    ensures PublishCheck(current, root, mapSize, revs).None? <==> Acceptable(current, root, mapSize, revs)
  {
    var cur := current.sourceLogRevisions;
    if |root| == 32 && |cur| <= |revs| {
      RevisionErrorNoneIff(cur, revs, root == current.mapRootHash, 0);
    }
  }

  /** The head CheckAndPublishSMH would sign, or the source-tree error for a new root that
      names more logs than the source tree holds. */
  function NextHead(current: MapHead, root: Hash32, mapSize: U64, revs: seq<LogRevision>, now: U64,
                    sourceLeaves: seq<LogId>, dense: DenseHasher): (r: Result<MapHead>)
    ensures r.Err? <==> root != current.mapRootHash && |revs| != |current.sourceLogRevisions| && |revs| > |sourceLeaves|
    ensures r.Ok? ==> r.value.timestamp == now
    ensures r.Ok? && root == current.mapRootHash ==> r.value.(timestamp := current.timestamp) == current
    ensures r.Ok? && root != current.mapRootHash ==>
      r.value.mapRootHash == root && r.value.mapSize == mapSize && r.value.sourceLogRevisions == revs
    ensures r.Ok? && root != current.mapRootHash && |revs| == |current.sourceLogRevisions| ==>
      r.value.sourceTreeRootHash == current.sourceTreeRootHash
  {
    if root == current.mapRootHash then Ok(current.(timestamp := now))
    else if |revs| == |current.sourceLogRevisions| then
      Ok(MapHead(Version, now, mapSize, root, current.sourceTreeRootHash, revs))
    else if |revs| <= |sourceLeaves| then
      Ok(MapHead(Version, now, mapSize, root, dense.rootOf(sourceLeaves[..|revs|]), revs))
    else Err(TreeSizeTooLarge(|revs|, |sourceLeaves|))
  }

  /** The full outcome of CheckAndPublishSMH: the SMH it publishes or the error it returns. */
  function PublishOutcome(current: MapHead, root: Bytes, mapSize: U64, revs: seq<LogRevision>, now: U64,
                          sourceLeaves: seq<LogId>, env: Environment): Result<SignedMapHead>
  {
    var check := PublishCheck(current, root, mapSize, revs);
    if check.Some? then Err(check.value)
    else
      var head := NextHead(current, root, mapSize, revs, now, sourceLeaves, env.dense);
      if head.Err? then Err(head.error)
      else if env.sign(head.value).None? then Err(SigningFailed)
      else if root != current.mapRootHash && env.saveNodes(root).Some? then Err(env.saveNodes(root).value)
      else Ok(SignedMapHead(head.value, env.sign(head.value)))
  }

  /** A published SMH is signed, has the requested map size, extends the current head,
      and a republish changes nothing but the timestamp. */
  lemma PublishAdvances(current: MapHead, root: Bytes, mapSize: U64, revs: seq<LogRevision>, now: U64,
                        sourceLeaves: seq<LogId>, env: Environment)
    requires PublishOutcome(current, root, mapSize, revs, now, sourceLeaves, env).Ok?
    ensures var s := PublishOutcome(current, root, mapSize, revs, now, sourceLeaves, env).value;
      Acceptable(current, root, mapSize, revs) &&
      s.signature.Some? && s.signature == env.sign(s.head) &&
      s.head.mapSize == mapSize && Precedes(current, s.head) &&
      s.head.mapRootHash == root &&
      (root == current.mapRootHash ==> s.head == current.(timestamp := now)) &&
      (root != current.mapRootHash ==>
         s.head.sourceLogRevisions == revs && s.head.timestamp == now &&
         s.head.version == Version && env.saveNodes(root).None?)
  {
    PublishCheckAccepts(current, root, mapSize, revs);
  }

  // ---------------------------------------------------------------------------
  // Reading the sparse tree

  /** GetDomainTreeRoot: the recorded domain-tree root of a domain under a map root; a
      domain absent from the map reads as the empty tree; an unknown map root makes the
      sparse tree fail, on which the Go code panics. */
  function DomainRootIn(env: Environment, roots: SparseRoots, root: Bytes, domain: string): (r: Result<DomainTreeRoot>)
    ensures r.Ok? <==> env.normalize(domain).Some? && root in roots
    ensures env.normalize(domain).Some? && root !in roots ==> r.Err? && r.error.Panic?
    ensures r.Ok? && env.normalize(domain).value !in roots[root] ==> r.value.size == 0
  {
    var n := env.normalize(domain);
    if n.None? then Err(NormalizationFailed(domain))
    else if root !in roots then Err(Panic("unexpected error fetching domain in DomainMap"))
    else if n.value !in roots[root] then Ok(DomainTreeRoot(0, EmptyRoot(env.dense)))
    else Ok(roots[root][n.value])
  }

  /** HasDomain: whether the map under root holds a value for the normalized domain. */
  function HasDomainIn(env: Environment, roots: SparseRoots, root: Bytes, domain: string): (r: Result<bool>)
    ensures r.Err? <==> DomainRootIn(env, roots, root, domain).Err?
    ensures r.Err? ==> r.error == DomainRootIn(env, roots, root, domain).error
    ensures r == Ok(true) ==>
      env.normalize(domain).Some? && root in roots && env.normalize(domain).value in roots[root] &&
      DomainRootIn(env, roots, root, domain) == Ok(roots[root][env.normalize(domain).value])
    ensures r == Ok(false) ==>
      DomainRootIn(env, roots, root, domain) == Ok(DomainTreeRoot(0, EmptyRoot(env.dense)))
  {
    var n := env.normalize(domain);
    if n.None? then Err(NormalizationFailed(domain))
    else if root !in roots then Err(Panic("unexpected error fetching domain in DomainMap"))
    else Ok(n.value in roots[root])
  }

  /** After storing value for n under a new root, the new root reads value for every
      domain that normalizes to n and reads like the old root for every other domain. */
  lemma ReadAfterUpdate(env: Environment, roots: SparseRoots, root: Bytes, n: string, value: DomainTreeRoot,
                        newRoot: Bytes, domain: string)
    requires root in roots
    ensures var after := roots[newRoot := roots[root][n := value]];
      DomainRootIn(env, after, newRoot, domain) ==
        if env.normalize(domain) == Some(n) then Ok(value) else DomainRootIn(env, roots, root, domain)
  {
  }

  /** The side nodes in the opposite order. */
  function Reversed<T>(s: seq<T>): (r: seq<T>)
    ensures |r| == |s|
    ensures forall i :: 0 <= i < |s| ==> r[i] == s[|s| - 1 - i]
  {
    if s == [] then [] else Reversed(s[1..]) + [s[0]]
  }

  lemma ReversedTwice<T>(s: seq<T>)
    ensures Reversed(Reversed(s)) == s
  {
  }

  /** Every recorded SMH is stored under its map size and is extended by the latest one,
      which is recorded too once anything has been published. */
  ghost predicate HistoryValid(smhs: map<U64, SignedMapHead>, smh: SignedMapHead) {
    ((smhs == map[] && smh == EmptySMH) || (smh.head.mapSize in smhs && smhs[smh.head.mapSize] == smh)) &&
    forall k :: k in smhs ==> smhs[k].head.mapSize == k && Precedes(smhs[k].head, smh.head)
  }

  /** Publishing a head that extends the latest one keeps the history valid. */
  lemma HistoryExtends(smhs: map<U64, SignedMapHead>, smh: SignedMapHead, next: SignedMapHead)
    requires HistoryValid(smhs, smh) && Precedes(smh.head, next.head)
    ensures HistoryValid(smhs[next.head.mapSize := next], next)
  {
    forall k | k in smhs
      ensures Precedes(smhs[k].head, next.head)
    {
      PrecedesTransitive(smhs[k].head, smh.head, next.head);
    }
  }

  /** The domain trees: each valid, filed under its own normalized name, hashed like the
      map, and owning a Merkle tree of its own (so no two trees, nor the source tree, share
      one); objs holds the trees and their Merkle trees. */
  ghost predicate TreesValid(env: Environment, subtrees: map<string, DomainTree>,
                             owner: map<MerkleTree, string>, sourceMt: MerkleTree, objs: set<object>)
    reads objs
  {
    (forall n :: n in subtrees ==> subtrees[n] in objs && subtrees[n].mt in objs) &&
    (forall n :: n in subtrees ==>
       subtrees[n].Valid() && subtrees[n].domainName == n && env.normalize(n) == Some(n) &&
       subtrees[n].mt.hasher == env.dense &&
       subtrees[n].mt in owner && owner[subtrees[n].mt] == n) &&
    sourceMt !in owner
  }

  // ---------------------------------------------------------------------------

  class DomainMap {
    const env: Environment
    const sourceTree: SourceTree
    var smhs: map<U64, SignedMapHead>
    var smh: SignedMapHead
    /** The sparse tree: the contents under every map root it can read. */
    var roots: SparseRoots
    var subtrees: map<string, DomainTree>

    /** The map, its source tree and every domain tree with its Merkle tree. */
    ghost var Repr: set<object>
    /** The name of the domain tree each Merkle tree belongs to. */
    ghost var owner: map<MerkleTree, string>

    /** The map over its parts: the SMH history, the domain trees (whose objects, apart
        from the map itself, lie in Repr) and the source tree. */
    ghost predicate Valid()
      reads this, Repr
    {
      this in Repr && sourceTree in Repr && sourceTree.mt in Repr &&
      HistoryValid(smhs, smh) && TreesValid(env, subtrees, owner, sourceTree.mt, Repr - {this}) &&
      sourceTree.Valid() && sourceTree.mt.hasher == env.dense
    }

    /** The entries of every domain tree, by tree name. */
    ghost function TreeLeaves(): (m: map<string, seq<DomainTreeEntry>>)
      reads this, Repr
      requires Valid()
      ensures m.Keys == subtrees.Keys
      ensures forall n :: n in subtrees ==> m[n] == subtrees[n].leaves
    {
      map n | n in subtrees :: subtrees[n].leaves
    }

    /** NewDomainMap: the empty SMH, an empty sparse tree (whose root is the all-zero
        placeholder), no domain trees and an empty source tree. */
    constructor (env: Environment)
      ensures this.env == env && Valid() && fresh(Repr)
      ensures smhs == map[] && smh == EmptySMH && subtrees == map[]
      ensures roots == map[Zeros(SparseHashSize) := map[]]
      ensures sourceTree.leaves == []
    {
      this.env := env;
      sourceTree := new SourceTree(env.dense);
      smhs := map[];
      smh := EmptySMH;
      roots := map[Zeros(SparseHashSize) := map[]];
      subtrees := map[];
      owner := map[];
      new;
      Repr := {this, sourceTree, sourceTree.mt};
    }

    function GetLatestSMH(): (s: SignedMapHead)
      reads this
      ensures HistoryValid(smhs, smh) ==> s == EmptySMH || (s.head.mapSize in smhs && smhs[s.head.mapSize] == s)
    {
      smh
    }

    /** The SMH of the given map size, if one was published; it never runs ahead of the latest. */
    function GetSMH(mapSize: U64): (s: Option<SignedMapHead>)
      reads this
      ensures s.Some? <==> mapSize in smhs
      ensures HistoryValid(smhs, smh) && s.Some? ==> s.value.head.mapSize == mapSize && Precedes(s.value.head, smh.head)
    {
      if mapSize in smhs then Some(smhs[mapSize]) else None
    }

    function GetDomainTreeRoot(root: Bytes, domain: string): Result<DomainTreeRoot>
      reads this
    {
      DomainRootIn(env, roots, root, domain)
    }

    function HasDomain(root: Bytes, domain: string): Result<bool>
      reads this
    {
      HasDomainIn(env, roots, root, domain)
    }

    /** The per-log and size checks, stopping at the first offending log. */
    method CheckRevisions(current: seq<LogRevision>, revs: seq<LogRevision>, isRepublish: bool)
      returns (err: Option<Error>)
      requires |current| <= |revs|
      ensures err == RevisionError(current, revs, isRepublish, 0)
    {
      var i := 0;
      while i < |current|
        invariant 0 <= i <= |current|
        invariant RevisionError(current, revs, isRepublish, 0) == RevisionError(current, revs, isRepublish, i)
      {
        var newRev := revs[i];
        if isRepublish && newRev.treeSize != current[i].treeSize {
          return Some(InvalidSourceLogSizeForRepublish(i, newRev.treeSize, current[i].treeSize));
        } else if !isRepublish && newRev.treeSize < current[i].treeSize {
          return Some(InvalidSourceLogSize(i, newRev.treeSize, current[i].treeSize));
        }
        i := i + 1;
      }
      return None;
    }

    /** The checks of CheckAndPublishSMH against the latest SMH, in their order. */
    method CheckUpdate(root: Bytes, mapSize: U64, sourceRevisions: seq<LogRevision>) returns (err: Option<Error>)
      ensures err == PublishCheck(smh.head, root, mapSize, sourceRevisions)
    {
      if |root| != 32 {
        return Some(InvalidMapRootLength(|root|));
      }
      var current := GetLatestSMH().head;
      var cur := current.sourceLogRevisions;
      var isRepublish := root == current.mapRootHash;
      if isRepublish && mapSize != current.mapSize {
        return Some(InvalidMapSizeForRepublish(mapSize, current.mapSize));
      } else if !isRepublish && mapSize <= current.mapSize {
        return Some(InvalidMapSizeForNewRoot(mapSize, current.mapSize));
      }
      if isRepublish && |sourceRevisions| != |cur| {
        return Some(InvalidSourceLogCountForRepublish(|sourceRevisions|, |cur|));
      } else if !isRepublish && |sourceRevisions| < |cur| {
        return Some(InvalidSourceLogCount(|sourceRevisions|, |cur|));
      }
      err := CheckRevisions(cur, sourceRevisions, isRepublish);
    }

    /** The head to sign: the latest one re-timestamped for a republish; for a new root,
        one over the requested logs, whose source-tree root is recomputed when the number
        of logs changed. */
    method BuildHead(root: Hash32, mapSize: U64, sourceRevisions: seq<LogRevision>, now: U64)
      returns (r: Result<MapHead>)
      requires sourceTree.Valid()
      ensures r == NextHead(smh.head, root, mapSize, sourceRevisions, now, sourceTree.leaves, sourceTree.mt.hasher)
    {
      var current := GetLatestSMH().head;
      if root == current.mapRootHash {
        return Ok(current.(timestamp := now));
      }
      var sourceRoot: Hash32;
      if |sourceRevisions| == |current.sourceLogRevisions| {
        sourceRoot := current.sourceTreeRootHash;
      } else {
        var rt := sourceTree.GetRoot(|sourceRevisions|);
        if rt.Err? {
          return Err(rt.error);
        }
        sourceRoot := rt.value;
      }
      return Ok(MapHead(Version, now, mapSize, root, sourceRoot, sourceRevisions));
    }

    /** Checks the proposed root against the latest SMH and publishes the new SMH, or
        returns the first error and changes nothing; `now` is the clock reading. */
    method CheckAndPublishSMH(root: Bytes, mapSize: U64, sourceRevisions: seq<LogRevision>, now: U64)
      returns (err: Option<Error>)
      requires Valid()
      modifies this
      ensures Valid() && Repr == old(Repr)
      ensures roots == old(roots) && subtrees == old(subtrees)
      ensures var o := PublishOutcome(old(smh).head, root, mapSize, sourceRevisions, now, sourceTree.leaves, env);
        (o.Err? ==> err == Some(o.error) && smh == old(smh) && smhs == old(smhs)) &&
        (o.Ok? ==> err == None && smh == o.value && smhs == old(smhs)[mapSize := o.value])
    {
      err := CheckUpdate(root, mapSize, sourceRevisions);
      if err.Some? {
        return err;
      }
      var current := GetLatestSMH().head;
      var isRepublish := root == current.mapRootHash;
      var next := BuildHead(root, mapSize, sourceRevisions, now);
      if next.Err? {
        return Some(next.error);
      }
      var head := next.value;
      var sig := env.sign(head);
      if sig.None? {
        return Some(SigningFailed);
      }
      var signed := SignedMapHead(head, sig);

      if !isRepublish {
        var saved := env.saveNodes(root);
        if saved.Some? {
          return saved;
        }
      }

      assert PublishOutcome(current, root, mapSize, sourceRevisions, now, sourceTree.leaves, env) == Ok(signed);
      PublishAdvances(current, root, mapSize, sourceRevisions, now, sourceTree.leaves, env);
      HistoryExtends(smhs, smh, signed);
      label before:
      smh := signed;
      smhs := smhs[signed.head.mapSize := signed];
      assert unchanged@before(Repr - {this});
      assert TreesValid(env, subtrees, owner, sourceTree.mt, Repr - {this});
    }

    /** Records the domain tree's root at treeSize for the normalized domain under a new
        map root, which it returns; refuses to record a size that does not exceed the one
        recorded under root. */
    method UpdateDomainTreeRoot(root: Bytes, domain: string, treeSize: nat) returns (r: Result<Hash32>)
      requires Valid()
      modifies this
      ensures Valid() && Repr == old(Repr)
      ensures subtrees == old(subtrees) && smh == old(smh) && smhs == old(smhs)
      ensures r.Err? ==> roots == old(roots)
      ensures env.normalize(domain).None? ==> r == Err(NormalizationFailed(domain))
      ensures env.normalize(domain).Some? && env.normalize(domain).value !in subtrees ==>
        r == Err(NoDomainTree(domain))
      ensures var n := env.normalize(domain);
        n.Some? && n.value in subtrees && treeSize > |subtrees[n.value].leaves| ==>
          r == Err(TreeSizeTooLarge(treeSize, |subtrees[n.value].leaves|))
      ensures var n := env.normalize(domain);
        n.Some? && n.value in subtrees && treeSize <= |subtrees[n.value].leaves| ==>
          (root !in old(roots) ==> r.Err? && r.error.Panic?) &&
          (root in old(roots) && DomainRootIn(env, old(roots), root, n.value).value.size >= treeSize ==>
             r == Err(CannotGoBackInTime(DomainRootIn(env, old(roots), root, n.value).value.size, treeSize)))
      ensures r.Ok? ==>
        var n := env.normalize(domain).value;
        var tree := subtrees[n];
        var value := DomainTreeRoot(treeSize, env.dense.rootOf(EncodeEntries(tree.leaves[..treeSize])));
        n in subtrees && treeSize <= |tree.leaves| && root in old(roots) &&
        DomainRootIn(env, old(roots), root, n).value.size < treeSize &&
        r.value == env.sparseRoot(old(roots)[root][n := value]) &&
        roots == old(roots)[r.value := old(roots)[root][n := value]]
    {
      var n := env.normalize(domain);
      if n.None? {
        return Err(NormalizationFailed(domain));
      }
      if n.value !in subtrees {
        return Err(NoDomainTree(domain));
      }
      var dtree := subtrees[n.value];
      var treeRoot := dtree.GetRoot(treeSize);
      if treeRoot.Err? {
        return Err(treeRoot.error);
      }
      var prior := GetDomainTreeRoot(root, n.value);
      if prior.Ok? && prior.value.size >= treeSize {
        return Err(CannotGoBackInTime(prior.value.size, treeSize));
      } else if prior.Err? && prior.error.Panic? {
        return Err(prior.error);
      }
      if root !in roots {
        return Err(UnknownMapRoot);
      }
      var contents := roots[root][n.value := treeRoot.value];
      var newRoot := env.sparseRoot(contents);
      label before:
      roots := roots[newRoot := contents];
      assert unchanged@before(Repr - {this});
      assert TreesValid(env, subtrees, owner, sourceTree.mt, Repr - {this});
      return Ok(newRoot);
    }

    /** Files the tree under its name, which must already be normalized and not taken. */
    method AddDomainTree(tree: DomainTree) returns (err: Option<Error>)
      requires Valid() && tree.Valid() && tree.mt.hasher == env.dense
      requires {tree, tree.mt} !! Repr
      modifies this
      ensures Valid()
      ensures roots == old(roots) && smh == old(smh) && smhs == old(smhs)
      ensures env.normalize(tree.domainName).None? ==> err == Some(NormalizationFailed(tree.domainName))
      ensures env.normalize(tree.domainName).Some? && env.normalize(tree.domainName).value != tree.domainName ==>
        err == Some(DomainNotNormalized(tree.domainName))
      ensures env.normalize(tree.domainName) == Some(tree.domainName) && tree.domainName in old(subtrees) ==>
        err == Some(DomainTreeExists(tree.domainName))
      ensures err.None? <==> env.normalize(tree.domainName) == Some(tree.domainName) && tree.domainName !in old(subtrees)
      ensures err.None? ==> subtrees == old(subtrees)[tree.domainName := tree]
      ensures err.Some? ==> subtrees == old(subtrees)
      ensures Repr == old(Repr) + (if err.None? then {tree, tree.mt} else {})
    {
      var n := env.normalize(tree.domainName);
      if n.None? {
        return Some(NormalizationFailed(tree.domainName));
      }
      if n.value != tree.domainName {
        return Some(DomainNotNormalized(tree.domainName));
      }
      if n.value in subtrees {
        return Some(DomainTreeExists(tree.domainName));
      }
      subtrees := subtrees[n.value := tree];
      Repr := Repr + {tree, tree.mt};
      owner := owner[tree.mt := n.value];
      return None;
    }

    /** The tree filed under the normalized domain; it carries that name. */
    method GetDomainTree(domain: string) returns (r: Result<DomainTree>)
      requires Valid()
      ensures env.normalize(domain).None? ==> r == Err(NormalizationFailed(domain))
      ensures env.normalize(domain).Some? && env.normalize(domain).value !in subtrees ==>
        r == Err(NoSuchDomain(domain))
      ensures env.normalize(domain).Some? && env.normalize(domain).value in subtrees ==> r.Ok?
      ensures r.Ok? ==>
        env.normalize(domain).Some? && env.normalize(domain).value in subtrees &&
        r.value == subtrees[env.normalize(domain).value] &&
        r.value.domainName == env.normalize(domain).value && r.value.Valid()
    {
      var n := env.normalize(domain);
      if n.None? {
        return Err(NormalizationFailed(domain));
      }
      if n.value !in subtrees {
        return Err(NoSuchDomain(domain));
      }
      return Ok(subtrees[n.value]);
    }

    /** The worker's AddEntry call on the tree filed under n, keeping the map's invariant. */
    method AppendToDomainTree(n: string, entry: DomainTreeEntry) returns (size: nat)
      requires Valid() && n in subtrees
      modifies subtrees[n], subtrees[n].mt
      ensures Valid()
      ensures subtrees[n].leaves == old(subtrees[n].leaves) + [entry] && size == |subtrees[n].leaves|
      ensures forall m :: m in subtrees && m != n ==> subtrees[m].leaves == old(subtrees[m].leaves)
    {
      size := subtrees[n].AddEntry(entry);
    }

    /** The worker's AddEntry call on the source tree, keeping the map's invariant. */
    method AddSourceLog(logId: LogId)
      requires Valid()
      modifies sourceTree, sourceTree.mt
      ensures Valid()
      ensures sourceTree.leaves == old(sourceTree.leaves) + [logId]
    {
      var _ := sourceTree.AddEntry(logId);
    }

    /** The index of the entry in the domain's tree, found through that tree. */
    method EntryToDomainTreeIndex(entry: DomainTreeEntry, domain: string) returns (r: Result<nat>)
      requires Valid()
      modifies set m | m in subtrees :: subtrees[m]
      ensures Valid()
      ensures sourceTree.leaves == old(sourceTree.leaves)
      ensures forall m :: m in subtrees ==> subtrees[m].leaves == old(subtrees[m].leaves)
      ensures env.normalize(domain).Some? && env.normalize(domain).value in subtrees ==>
        var n := env.normalize(domain).value;
        subtrees[n].leavesPerLog == Padded(old(subtrees[n].leavesPerLog), entry.logIndex + 1) &&
        forall m :: m in subtrees && m != n ==> subtrees[m].leavesPerLog == old(subtrees[m].leavesPerLog)
      ensures env.normalize(domain).None? || env.normalize(domain).value !in subtrees ==>
        forall m :: m in subtrees ==> subtrees[m].leavesPerLog == old(subtrees[m].leavesPerLog)
      ensures env.normalize(domain).None? ==> r == Err(NormalizationFailed(domain))
      ensures env.normalize(domain).Some? && env.normalize(domain).value !in subtrees ==>
        r == Err(NoSuchDomain(domain))
      ensures r.Ok? ==> var tree := subtrees[env.normalize(domain).value];
        r.value < |tree.leaves| && tree.leaves[r.value] == entry
      ensures env.normalize(domain).Some? && env.normalize(domain).value in subtrees ==>
        var tree := subtrees[env.normalize(domain).value];
        entry.logIndex < |tree.leavesPerLog| &&
        var list := tree.leavesPerLog[entry.logIndex];
        (SortedByCertificate(list) ==> r == Resolve(list, LowerBound(list, entry.certificateIndex), entry))
    {
      var tree := GetDomainTree(domain);
      if tree.Err? {
        return Err(tree.error);
      }
      r := tree.value.EntryToDomainTreeIndex(entry);
    }

    /** A (non-)containment proof for the normalized domain under root: the sparse proof's
        side nodes reversed, and its non-membership leaf or else the placeholder. */
    method GetProofForDomain(root: Bytes, domain: string) returns (r: Result<DomainProof>)
      ensures env.normalize(domain).None? ==> r == Err(NormalizationFailed(domain))
      ensures env.normalize(domain).Some? && root !in roots ==> r == Err(UnknownMapRoot)
      ensures env.normalize(domain).Some? && root in roots ==> r.Ok?
      ensures r.Ok? ==>
        env.normalize(domain).Some? && root in roots &&
        var p := env.prove(root, env.normalize(domain).value);
        r.value.proof == Reversed(p.sideNodes) &&
        r.value.leafHash == (if p.nonMembershipLeafData.Some? then p.nonMembershipLeafData.value
                             else Zeros(SparseHashSize))
    {
      var n := env.normalize(domain);
      if n.None? {
        return Err(NormalizationFailed(domain));
      }
      if root !in roots {
        return Err(UnknownMapRoot);
      }
      var proof := env.prove(root, n.value);
      var leafHash := if proof.nonMembershipLeafData.Some? then proof.nonMembershipLeafData.value
                      else Zeros(SparseHashSize);
      var side := proof.sideNodes;
      var rev := new Bytes[|side|];
      var i := 0;
      while i < rev.Length
        invariant 0 <= i <= rev.Length
        invariant forall j :: 0 <= j < i ==> rev[j] == side[|side| - 1 - j]
      {
        rev[i] := side[rev.Length - i - 1];
        i := i + 1;
      }
      assert rev[..] == Reversed(side);
      return Ok(DomainProof(rev[..], leafHash));
    }
  }
}
