/** The worker that feeds a DomainMap: it applies each CT log's new certificates to the
    domain trees, keeps the per-log revisions and the map size, queues transactions that
    arrive before their log can be added, and publishes SMHs. */
module Workers {
  import opened Types
  import opened DenseMerkle
  import opened DomainTrees
  import opened SourceTrees
  import opened DomainMaps

  /** The certificates of one log revision; the Go map from domain to certificate
      indices is given here in the order the worker visits it. */
  datatype WorkerTransaction = WorkerTransaction(
    logIndex: U64,
    logId: LogId,
    logRevision: LogRevision,
    newCertificatesIndices: seq<(string, seq<U64>)>)

  // ---------------------------------------------------------------------------
  // Sorting certificate indices (sort.Slice with <)

  /** Each index is at most the next one. */
  predicate SortedAsc(s: seq<U64>) {
    |s| < 2 || (s[0] <= s[1] && SortedAsc(s[1..]))
  }

  /** Sorted in the sense of sort.Slice with <: no index exceeds a later one. */
  lemma {:induction false} SortedAscOrdersAll(s: seq<U64>)
    requires SortedAsc(s)
    ensures forall i, j :: 0 <= i < j < |s| ==> s[i] <= s[j]
  {
    if |s| >= 2 {
      SortedAscOrdersAll(s[1..]);
      forall i, j | 0 <= i < j < |s|
        ensures s[i] <= s[j]
      {
        if i > 0 {
          assert s[i] == s[1..][i - 1] && s[j] == s[1..][j - 1];
        } else if j > 1 {
          assert s[1] == s[1..][0] && s[j] == s[1..][j - 1];
        }
      }
    }
  }

  /** x inserted before the first element that is not smaller. */
  function Insert(x: U64, s: seq<U64>): (r: seq<U64>)
    requires SortedAsc(s)
    ensures SortedAsc(r) && multiset(r) == multiset(s) + multiset{x}
    ensures |r| == |s| + 1 && (r[0] == x || (|s| > 0 && r[0] == s[0]))
  {
    if s == [] then [x]
    else if x <= s[0] then [x] + s
    else
      assert s == [s[0]] + s[1..];
      [s[0]] + Insert(x, s[1..])
  }

  /** The indices in ascending order: a sorted permutation of the input. */
  function SortAsc(s: seq<U64>): (r: seq<U64>)
    ensures SortedAsc(r) && multiset(r) == multiset(s) && |r| == |s|
  {
    if s == [] then []
    else
      assert s == [s[0]] + s[1..];
      Insert(s[0], SortAsc(s[1..]))
  }

  /** The entries the worker appends for a log's (sorted) certificate indices. */
  function EntriesFor(logIndex: U64, certs: seq<U64>): (es: seq<DomainTreeEntry>)
    ensures |es| == |certs|
    ensures forall i :: 0 <= i < |certs| ==> es[i] == DomainTreeEntry(logIndex, certs[i])
  {
    if certs == [] then [] else [DomainTreeEntry(logIndex, certs[0])] + EntriesFor(logIndex, certs[1..])
  }

  // ---------------------------------------------------------------------------
  // The map size

  /** The number of certificates the revisions account for: the map size the worker tracks. */
  function SumSizes(revs: seq<LogRevision>): nat {
    if revs == [] then 0 else revs[0].treeSize + SumSizes(revs[1..])
  }

  lemma {:induction false} SumSizesUpdate(revs: seq<LogRevision>, i: nat, r: LogRevision)
    requires i < |revs|
    ensures SumSizes(revs[i := r]) == SumSizes(revs) - revs[i].treeSize + r.treeSize
  {
    if i > 0 {
      SumSizesUpdate(revs[1..], i - 1, r);
      assert revs[i := r][1..] == revs[1..][i - 1 := r];
    }
  }

  lemma {:induction false} SumSizesAppend(revs: seq<LogRevision>, r: LogRevision)
    ensures SumSizes(revs + [r]) == SumSizes(revs) + r.treeSize
  {
    if revs != [] {
      SumSizesAppend(revs[1..], r);
      assert (revs + [r])[1..] == revs[1..] + [r];
    }
  }

  /** Adding to a number already reduced modulo 2^64 gives the same residue. */
  lemma ModAdd(a: int, b: int)
    ensures (a % U64_LIMIT + b) % U64_LIMIT == (a + b) % U64_LIMIT
  {
    var q := a / U64_LIMIT;
    assert a == q * U64_LIMIT + a % U64_LIMIT;
    ModShift(a % U64_LIMIT + b, q);
  }

  lemma ModShift(x: int, q: int)
    ensures (x + q * U64_LIMIT) % U64_LIMIT == x % U64_LIMIT
  {
    var r := x % U64_LIMIT;
    var d := x / U64_LIMIT;
    assert x + q * U64_LIMIT == (d + q) * U64_LIMIT + r;
  }

  /** The revisions after the transaction: a new log starts from an empty revision. */
  function Revised(revs: seq<LogRevision>, t: WorkerTransaction): seq<LogRevision>
    requires t.logIndex <= |revs|
  {
    var grown := if t.logIndex == |revs| then revs + [LogRevision(0, ZeroHash)] else revs;
    grown[t.logIndex := t.logRevision]
  }

  /** The name of the tree that getDomainTree yields for a domain: the normalization of
      its normalization (the first names the lookup, the second the tree). */
  function TreeNameFor(env: Environment, domain: string): Option<string> {
    var n := env.normalize(domain);
    if n.None? then None else env.normalize(n.value)
  }

  /** The root record of a domain tree holding these entries. */
  function TreeRootOf(dense: DenseHasher, leaves: seq<DomainTreeEntry>): DomainTreeRoot {
    DomainTreeRoot(|leaves|, dense.rootOf(EncodeEntries(leaves)))
  }

  /** A subsequence of s: the elements whose mask bit is set, in order. */
  function Kept<T>(s: seq<T>, mask: seq<bool>): seq<T>
    requires |mask| == |s|
  {
    if s == [] then []
    else Kept(s[..|s| - 1], mask[..|s| - 1]) + (if mask[|s| - 1] then [s[|s| - 1]] else [])
  }

  lemma KeptSnoc<T>(s: seq<T>, mask: seq<bool>, x: T, b: bool)
    requires |mask| == |s|
    ensures Kept(s + [x], mask + [b]) == Kept(s, mask) + (if b then [x] else [])
  {
    assert (s + [x])[..|s|] == s;
    assert (mask + [b])[..|s|] == mask;
  }

  // ---------------------------------------------------------------------------
  // The effect of propagating a transaction's domains, in the order they are visited

  /** The domain trees' entries after propagating the listed domains in order: a domain
      with certificates has them appended, sorted, to the tree its name normalizes to
      (an empty tree when there is none yet). */
  function Propagated(leaves: map<string, seq<DomainTreeEntry>>, env: Environment, logIndex: U64,
                      domains: seq<(string, seq<U64>)>): (r: map<string, seq<DomainTreeEntry>>)
    ensures r.Keys == leaves.Keys + TouchedTrees(env, domains)
    decreases |domains|
  {
    if domains == [] then leaves
    else
      var prev := Propagated(leaves, env, logIndex, domains[..|domains| - 1]);
      var d := domains[|domains| - 1];
      var n := TreeNameFor(env, d.0);
      if |d.1| == 0 || n.None? then prev
      else prev[n.value := (if n.value in prev then prev[n.value] else []) + EntriesFor(logIndex, SortAsc(d.1))]
  }

  /** The names of the trees the listed domains with certificates go to. */
  function TouchedTrees(env: Environment, domains: seq<(string, seq<U64>)>): set<string>
    decreases |domains|
  {
    if domains == [] then {}
    else
      var d := domains[|domains| - 1];
      var n := TreeNameFor(env, d.0);
      TouchedTrees(env, domains[..|domains| - 1]) + (if |d.1| == 0 || n.None? then {} else {n.value})
  }

  /** The sparse-map contents after each domain's tree root is recorded in turn, starting
      from the given contents. */
  function RecordedContents(contents: map<string, DomainTreeRoot>, leaves: map<string, seq<DomainTreeEntry>>,
                            env: Environment, logIndex: U64, domains: seq<(string, seq<U64>)>): map<string, DomainTreeRoot>
    decreases |domains|
  {
    if domains == [] then contents
    else
      var prev := RecordedContents(contents, leaves, env, logIndex, domains[..|domains| - 1]);
      var d := domains[|domains| - 1];
      var n := TreeNameFor(env, d.0);
      if |d.1| == 0 || n.None? then prev
      else prev[n.value := TreeRootOf(env.dense, Propagated(leaves, env, logIndex, domains)[n.value])]
  }

  /** A map updated at one name, given pointwise. */
  lemma LeavesStep(before: map<string, seq<DomainTreeEntry>>, after: map<string, seq<DomainTreeEntry>>,
                   n: string, added: seq<DomainTreeEntry>)
    requires after.Keys == before.Keys + {n}
    requires after[n] == (if n in before then before[n] else []) + added
    requires forall m :: m in before && m != n ==> after[m] == before[m]
    ensures after == before[n := (if n in before then before[n] else []) + added]
  {
  }

  /** One more domain propagated as PropagateEntry promises keeps the entries and the
      recorded contents in step with Propagated and RecordedContents. */
  lemma PropagateStep(contents0: map<string, DomainTreeRoot>, leaves0: map<string, seq<DomainTreeEntry>>,
                      roots0: SparseRoots, root0: Bytes, env: Environment, logIndex: U64,
                      done: seq<(string, seq<U64>)>, d: (string, seq<U64>),
                      leaves: map<string, seq<DomainTreeEntry>>, leaves': map<string, seq<DomainTreeEntry>>,
                      roots: SparseRoots, roots': SparseRoots, root: Bytes, root': Bytes)
    requires contents0 == if root0 in roots0 then roots0[root0] else map[]
    requires leaves == Propagated(leaves0, env, logIndex, done)
    requires TouchedTrees(env, done) == {} ==> root == root0 && roots == roots0
    requires TouchedTrees(env, done) != {} ==>
      root0 in roots0 && root in roots && roots[root] == RecordedContents(contents0, leaves0, env, logIndex, done) &&
      root == env.sparseRoot(roots[root])
    requires |d.1| == 0 ==> root' == root && roots' == roots && leaves' == leaves
    requires |d.1| > 0 ==>
      TreeNameFor(env, d.0).Some? &&
      var n := TreeNameFor(env, d.0).value;
      leaves' == leaves[n := (if n in leaves then leaves[n] else []) + EntriesFor(logIndex, SortAsc(d.1))] &&
      root in roots &&
      var contents := roots[root][n := TreeRootOf(env.dense, leaves'[n])];
      root' == env.sparseRoot(contents) && roots' == roots[root' := contents]
    ensures leaves' == Propagated(leaves0, env, logIndex, done + [d])
    ensures TouchedTrees(env, done + [d]) == {} ==> root' == root0 && roots' == roots0
    ensures TouchedTrees(env, done + [d]) != {} ==>
      root0 in roots0 && root' in roots' &&
      roots'[root'] == RecordedContents(contents0, leaves0, env, logIndex, done + [d]) &&
      root' == env.sparseRoot(roots'[root'])
  {
    PropagatedSnoc(contents0, leaves0, env, logIndex, done, d);
    if TouchedTrees(env, done) == {} {
      UntouchedUnchanged(contents0, leaves0, env, logIndex, done);
    }
  }

  /** Unfolds the three definitions at a domain appended to the list. */
  lemma PropagatedSnoc(contents: map<string, DomainTreeRoot>, leaves: map<string, seq<DomainTreeEntry>>,
                       env: Environment, logIndex: U64, done: seq<(string, seq<U64>)>, d: (string, seq<U64>))
    ensures var n := TreeNameFor(env, d.0);
            var prev := Propagated(leaves, env, logIndex, done);
            (|d.1| == 0 || n.None? ==>
               Propagated(leaves, env, logIndex, done + [d]) == prev &&
               TouchedTrees(env, done + [d]) == TouchedTrees(env, done) &&
               RecordedContents(contents, leaves, env, logIndex, done + [d]) == RecordedContents(contents, leaves, env, logIndex, done)) &&
            (|d.1| > 0 && n.Some? ==>
               Propagated(leaves, env, logIndex, done + [d]) ==
                 prev[n.value := (if n.value in prev then prev[n.value] else []) + EntriesFor(logIndex, SortAsc(d.1))] &&
               TouchedTrees(env, done + [d]) == TouchedTrees(env, done) + {n.value} &&
               RecordedContents(contents, leaves, env, logIndex, done + [d]) ==
                 RecordedContents(contents, leaves, env, logIndex, done)[n.value :=
                   TreeRootOf(env.dense, Propagated(leaves, env, logIndex, done + [d])[n.value])])
  {
    PropagatedSnocLeaves(leaves, env, logIndex, done, d);
    TouchedSnoc(env, done, d);
    PropagatedSnocRecorded(contents, leaves, env, logIndex, done, d);
  }

  lemma PropagatedSnocLeaves(leaves: map<string, seq<DomainTreeEntry>>,
                             env: Environment, logIndex: U64, done: seq<(string, seq<U64>)>, d: (string, seq<U64>))
    ensures var n := TreeNameFor(env, d.0);
            var prev := Propagated(leaves, env, logIndex, done);
            Propagated(leaves, env, logIndex, done + [d]) ==
              if |d.1| == 0 || n.None? then prev
              else prev[n.value := (if n.value in prev then prev[n.value] else []) + EntriesFor(logIndex, SortAsc(d.1))]
  {
    var ds := done + [d];
    assert ds[..|ds| - 1] == done && ds != [];
  }

  lemma TouchedSnoc(env: Environment, done: seq<(string, seq<U64>)>, d: (string, seq<U64>))
    ensures var n := TreeNameFor(env, d.0);
            TouchedTrees(env, done + [d]) == TouchedTrees(env, done) + (if |d.1| == 0 || n.None? then {} else {n.value})
  {
    var ds := done + [d];
    assert ds[..|ds| - 1] == done;
  }

  lemma PropagatedSnocRecorded(contents: map<string, DomainTreeRoot>, leaves: map<string, seq<DomainTreeEntry>>,
                               env: Environment, logIndex: U64, done: seq<(string, seq<U64>)>, d: (string, seq<U64>))
    ensures var n := TreeNameFor(env, d.0);
            (|d.1| == 0 || n.None? ==>
               RecordedContents(contents, leaves, env, logIndex, done + [d]) == RecordedContents(contents, leaves, env, logIndex, done)) &&
            (|d.1| > 0 && n.Some? ==>
               RecordedContents(contents, leaves, env, logIndex, done + [d]) ==
                 RecordedContents(contents, leaves, env, logIndex, done)[n.value :=
                   TreeRootOf(env.dense, Propagated(leaves, env, logIndex, done + [d])[n.value])])
  {
    assert (done + [d])[..|done|] == done;
  }

  /** When no listed domain reaches a tree, nothing is propagated or recorded. */
  lemma {:induction false} UntouchedUnchanged(contents: map<string, DomainTreeRoot>, leaves: map<string, seq<DomainTreeEntry>>,
                                              env: Environment, logIndex: U64, domains: seq<(string, seq<U64>)>)
    requires TouchedTrees(env, domains) == {}
    ensures Propagated(leaves, env, logIndex, domains) == leaves
    ensures RecordedContents(contents, leaves, env, logIndex, domains) == contents
    decreases |domains|
  {
    if domains != [] {
      UntouchedUnchanged(contents, leaves, env, logIndex, domains[..|domains| - 1]);
    }
  }

  /** Propagation only appends: every tree starts with its old entries, and every tree no
      listed domain reaches keeps them unchanged. */
  lemma {:induction false} PropagatedAppends(leaves: map<string, seq<DomainTreeEntry>>, env: Environment, logIndex: U64,
                                             domains: seq<(string, seq<U64>)>)
    ensures forall n :: n in leaves ==>
              |leaves[n]| <= |Propagated(leaves, env, logIndex, domains)[n]| &&
              Propagated(leaves, env, logIndex, domains)[n][..|leaves[n]|] == leaves[n]
    ensures forall n :: n in leaves && n !in TouchedTrees(env, domains) ==>
              Propagated(leaves, env, logIndex, domains)[n] == leaves[n]
    decreases |domains|
  {
    if domains != [] {
      var init := domains[..|domains| - 1];
      PropagatedAppends(leaves, env, logIndex, init);
      var prev := Propagated(leaves, env, logIndex, init);
      var d := domains[|domains| - 1];
      var n := TreeNameFor(env, d.0);
      if |d.1| > 0 && n.Some? && n.value in leaves {
        var p := prev[n.value];
        var k := |leaves[n.value]|;
        assert (p + EntriesFor(logIndex, SortAsc(d.1)))[..k] == p[..k];
      }
    }
  }

  /** The recorded contents hold, for every touched tree, the root over its final
      entries, and leave every other domain as it was. */
  lemma RecordedContentsSpec(contents: map<string, DomainTreeRoot>, leaves: map<string, seq<DomainTreeEntry>>,
                                                env: Environment, logIndex: U64, domains: seq<(string, seq<U64>)>)
    ensures forall n :: n in TouchedTrees(env, domains) ==>
              n in RecordedContents(contents, leaves, env, logIndex, domains) &&
              RecordedContents(contents, leaves, env, logIndex, domains)[n] ==
                TreeRootOf(env.dense, Propagated(leaves, env, logIndex, domains)[n])
    ensures forall n :: n !in TouchedTrees(env, domains) ==>
              (n in RecordedContents(contents, leaves, env, logIndex, domains) <==> n in contents) &&
              (n in contents ==> RecordedContents(contents, leaves, env, logIndex, domains)[n] == contents[n])
  {
    forall n | n in TouchedTrees(env, domains)
      ensures n in RecordedContents(contents, leaves, env, logIndex, domains) &&
              RecordedContents(contents, leaves, env, logIndex, domains)[n] ==
                TreeRootOf(env.dense, Propagated(leaves, env, logIndex, domains)[n])
    {
      RecordedTouched(contents, leaves, env, logIndex, domains, n);
    }
    forall n | n !in TouchedTrees(env, domains)
      ensures (n in RecordedContents(contents, leaves, env, logIndex, domains) <==> n in contents) &&
              (n in contents ==> RecordedContents(contents, leaves, env, logIndex, domains)[n] == contents[n])
    {
      RecordedUntouched(contents, leaves, env, logIndex, domains, n);
    }
  }

  lemma {:induction false} RecordedTouched(contents: map<string, DomainTreeRoot>, leaves: map<string, seq<DomainTreeEntry>>,
                                           env: Environment, logIndex: U64, domains: seq<(string, seq<U64>)>, n: string)
    requires n in TouchedTrees(env, domains)
    ensures n in RecordedContents(contents, leaves, env, logIndex, domains)
    ensures RecordedContents(contents, leaves, env, logIndex, domains)[n] ==
              TreeRootOf(env.dense, Propagated(leaves, env, logIndex, domains)[n])
    decreases |domains|
  {
    var init := domains[..|domains| - 1];
    var d := domains[|domains| - 1];
    assert init + [d] == domains;
    PropagatedSnoc(contents, leaves, env, logIndex, init, d);
    var name := TreeNameFor(env, d.0);
    if |d.1| == 0 || name != Some(n) {
      RecordedTouched(contents, leaves, env, logIndex, init, n);
    }
  }

  lemma {:induction false} RecordedUntouched(contents: map<string, DomainTreeRoot>, leaves: map<string, seq<DomainTreeEntry>>,
                                             env: Environment, logIndex: U64, domains: seq<(string, seq<U64>)>, n: string)
    requires n !in TouchedTrees(env, domains)
    ensures n in RecordedContents(contents, leaves, env, logIndex, domains) <==> n in contents
    ensures n in contents ==> RecordedContents(contents, leaves, env, logIndex, domains)[n] == contents[n]
    decreases |domains|
  {
    if domains != [] {
      var init := domains[..|domains| - 1];
      var d := domains[|domains| - 1];
      assert init + [d] == domains;
      PropagatedSnoc(contents, leaves, env, logIndex, init, d);
      RecordedUntouched(contents, leaves, env, logIndex, init, n);
    }
  }

  // ---------------------------------------------------------------------------
  // One pass over the queue

  /** The revisions after tryProcess: changed only when the transaction's log is known. */
  function Tried(revs: seq<LogRevision>, t: WorkerTransaction): (r: seq<LogRevision>)
    ensures |revs| <= |r|
  {
    if t.logIndex <= |revs| then Revised(revs, t) else revs
  }

  /** The revisions after one pass over the listed transactions, each tried in turn. */
  function PassRevisions(revs: seq<LogRevision>, ts: seq<WorkerTransaction>): (r: seq<LogRevision>)
    ensures |revs| <= |r|
    decreases |ts|
  {
    if ts == [] then revs else Tried(PassRevisions(revs, ts[..|ts| - 1]), ts[|ts| - 1])
  }

  /** Which transactions stay queued after the pass: those whose log was still unknown
      when their turn came. */
  function PassMask(revs: seq<LogRevision>, ts: seq<WorkerTransaction>): (m: seq<bool>)
    ensures |m| == |ts|
    decreases |ts|
  {
    if ts == [] then []
    else PassMask(revs, ts[..|ts| - 1]) + [ts[|ts| - 1].logIndex > |PassRevisions(revs, ts[..|ts| - 1])|]
  }

  /** The pass one transaction further along. */
  lemma PassStep(revs: seq<LogRevision>, ts: seq<WorkerTransaction>, m: nat)
    requires m < |ts|
    ensures PassRevisions(revs, ts[..m + 1]) == Tried(PassRevisions(revs, ts[..m]), ts[m])
    ensures PassMask(revs, ts[..m + 1]) == PassMask(revs, ts[..m]) + [ts[m].logIndex > |PassRevisions(revs, ts[..m])|]
  {
    assert ts[..m + 1][..m] == ts[..m];
  }

  /** The transaction at k stays queued exactly when its log index exceeds the number of
      logs known when it was tried; that number only grows along the pass. */
  lemma {:induction false} PassMaskMeaning(revs: seq<LogRevision>, ts: seq<WorkerTransaction>, k: nat)
    requires k < |ts|
    ensures PassMask(revs, ts)[k] <==> ts[k].logIndex > |PassRevisions(revs, ts[..k])|
    ensures |revs| <= |PassRevisions(revs, ts[..k])| <= |PassRevisions(revs, ts)|
    decreases |ts|
  {
    var init := ts[..|ts| - 1];
    if k < |init| {
      PassMaskMeaning(revs, init, k);
      assert init[..k] == ts[..k];
      assert |PassRevisions(revs, init)| <= |PassRevisions(revs, ts)|;
    } else {
      assert init == ts[..k];
    }
  }

  // ---------------------------------------------------------------------------

  class Worker {
    const dm: DomainMap
    var mapSize: U64
    var sourceRevisions: seq<LogRevision>
    var mapRoot: Bytes
    var queue: seq<WorkerTransaction>

    /** The map is valid and does not hold the worker in its footprint. */
    ghost predicate Valid()
      reads this, dm, dm.Repr
    {
      dm.Valid() && this !in dm.Repr
    }

    /** The tracked map size is the revisions' total, wrapped to 64 bits. */
    ghost predicate SizeConsistent()
      reads this
    {
      mapSize == SumSizes(sourceRevisions) % U64_LIMIT
    }

    /** newWorker: starts from the latest SMH, with an empty queue. */
    constructor (dm: DomainMap)
      requires dm.Valid()
      ensures this.dm == dm && Valid()
      ensures mapSize == dm.smh.head.mapSize && sourceRevisions == dm.smh.head.sourceLogRevisions
      ensures mapRoot == dm.smh.head.mapRootHash && queue == []
      ensures dm.smh == EmptySMH ==> SizeConsistent()
    {
      this.dm := dm;
      var smh := dm.GetLatestSMH();
      mapSize := smh.head.mapSize;
      sourceRevisions := smh.head.sourceLogRevisions;
      mapRoot := smh.head.mapRootHash;
      queue := [];
    }

    /** getDomainTree: the tree for the normalized domain, created and filed if missing. */
    method GetDomainTree(domain: string) returns (r: Result<DomainTree>)
      requires Valid()
      modifies dm
      ensures Valid() && fresh(dm.Repr - old(dm.Repr))
      ensures dm.roots == old(dm.roots) && dm.smh == old(dm.smh) && dm.smhs == old(dm.smhs)
      ensures dm.env.normalize(domain).None? ==> r == Err(NormalizationFailed(domain))
      ensures r.Ok? ==> TreeNameFor(dm.env, domain).Some?
      ensures r.Ok? ==>
        var n := TreeNameFor(dm.env, domain).value;
        r.value.domainName == n && dm.subtrees == old(dm.subtrees)[n := r.value] &&
        (n in old(dm.subtrees) ==> old(dm.subtrees)[n] == r.value) &&
        (n !in old(dm.subtrees) ==> r.value.leaves == [])
      ensures r.Err? ==> dm.subtrees == old(dm.subtrees) && !r.error.PropagationFailed?
      ensures forall m :: m in old(dm.subtrees) ==> dm.subtrees[m].leaves == old(dm.subtrees[m].leaves)
    {
      var n := dm.env.normalize(domain);
      if n.None? {
        return Err(NormalizationFailed(domain));
      }
      var found := dm.GetDomainTree(n.value);
      if found.Ok? {
        return found;
      }
      r := FileNewTree(n.value);
    }

    /** getDomainTree's second half: a new, empty tree for the name is created and filed
        under the name's normalization. */
    method FileNewTree(name: string) returns (r: Result<DomainTree>)
      requires Valid()
      requires dm.env.normalize(name).Some? ==> dm.env.normalize(name).value !in dm.subtrees
      modifies dm
      ensures Valid() && fresh(dm.Repr - old(dm.Repr))
      ensures dm.roots == old(dm.roots) && dm.smh == old(dm.smh) && dm.smhs == old(dm.smhs)
      ensures r.Ok? ==>
        dm.env.normalize(name).Some? && r.value.domainName == dm.env.normalize(name).value &&
        dm.subtrees == old(dm.subtrees)[r.value.domainName := r.value] && r.value.leaves == []
      ensures r.Err? ==> dm.subtrees == old(dm.subtrees) && !r.error.PropagationFailed?
      ensures forall m :: m in old(dm.subtrees) ==> dm.subtrees[m].leaves == old(dm.subtrees[m].leaves)
    {
      var created := NewDomainTree(name, dm.env.normalize, dm.env.dense);
      if created.Err? {
        return Err(created.error);
      }
      var tree := created.value;
      var err := dm.AddDomainTree(tree);
      assert unchanged(old(dm.Repr) - {dm});
      if err.Some? {
        return Err(err.value);
      }
      return Ok(tree);
    }

    /** The worker's loop over one domain's sorted certificate indices: one tree entry
        each, in order; the last AddEntry's result is the new tree size. */
    method AppendEntries(name: string, logIndex: U64, certs: seq<U64>) returns (treeSize: nat)
      requires Valid() && name in dm.subtrees && |certs| > 0
      modifies dm.Repr - {dm}
      ensures Valid()
      ensures dm.subtrees[name].leaves == old(dm.subtrees[name].leaves) + EntriesFor(logIndex, certs)
      ensures treeSize == |dm.subtrees[name].leaves|
      ensures forall m :: m in dm.subtrees && m != name ==> dm.subtrees[m].leaves == old(dm.subtrees[m].leaves)
      ensures dm.sourceTree.leaves == old(dm.sourceTree.leaves)
    {
      var i := 0;
      treeSize := 0;
      while i < |certs|
        invariant 0 <= i <= |certs|
        invariant Valid()
        invariant dm.subtrees[name].leaves == old(dm.subtrees[name].leaves) + EntriesFor(logIndex, certs[..i])
        invariant i > 0 ==> treeSize == |dm.subtrees[name].leaves|
        invariant forall m :: m in dm.subtrees && m != name ==> dm.subtrees[m].leaves == old(dm.subtrees[m].leaves)
        invariant dm.sourceTree.leaves == old(dm.sourceTree.leaves)
      {
        treeSize := dm.AppendToDomainTree(name, DomainTreeEntry(logIndex, certs[i]));
        assert certs[..i + 1] == certs[..i] + [certs[i]];
        EntriesForAppend(logIndex, certs[..i], certs[i]);
        i := i + 1;
      }
      assert certs[..i] == certs;
    }

    /** The first half of one domain's update: its tree (found or created) receives the
        certificates in ascending order; yields the tree's name and new size. */
    method AddCertificates(logIndex: U64, domain: string, certIndices: seq<U64>) returns (r: Result<(string, nat)>)
      requires Valid() && |certIndices| > 0
      modifies dm.Repr
      ensures Valid() && fresh(dm.Repr - old(dm.Repr))
      ensures dm.roots == old(dm.roots) && dm.smh == old(dm.smh) && dm.smhs == old(dm.smhs)
      ensures dm.sourceTree.leaves == old(dm.sourceTree.leaves)
      ensures old(dm.subtrees).Keys <= dm.subtrees.Keys
      ensures r.Err? ==> !r.error.PropagationFailed?
      ensures r.Ok? ==> TreeNameFor(dm.env, domain) == Some(r.value.0)
      ensures r.Ok? ==>
        var n := r.value.0;
        dm.subtrees.Keys == old(dm.subtrees).Keys + {n} &&
        (forall m :: m in old(dm.subtrees) && m != n ==> dm.subtrees[m].leaves == old(dm.subtrees[m].leaves)) &&
        n in dm.subtrees && r.value.1 == |dm.subtrees[n].leaves| &&
        dm.subtrees[n].leaves == (if n in old(dm.subtrees) then old(dm.subtrees[n].leaves) else []) +
                                 EntriesFor(logIndex, SortAsc(certIndices))
    {
      var found := GetDomainTree(domain);
      if found.Err? {
        return Err(found.error);
      }
      var dtree := found.value;
      var name := dtree.domainName;
      ghost var before := dtree.leaves;
      assert before == if name in old(dm.subtrees) then old(dm.subtrees[name].leaves) else [];
      var sorted := SortAsc(certIndices);
      var treeSize := AppendEntries(name, logIndex, sorted);
      return Ok((name, treeSize));
    }

    /** The second half of one domain's update: the tree's root over all its entries is
        recorded under a new map root, which becomes the worker's; a failure clears it. */
    method RecordRoot(name: string, treeSize: nat) returns (err: Option<Error>)
      requires Valid() && name in dm.subtrees && treeSize == |dm.subtrees[name].leaves|
      modifies this, dm
      ensures Valid() && dm.Repr == old(dm.Repr)
      ensures mapSize == old(mapSize) && sourceRevisions == old(sourceRevisions) && queue == old(queue)
      ensures dm.smh == old(dm.smh) && dm.smhs == old(dm.smhs) && dm.subtrees == old(dm.subtrees)
      ensures forall m :: m in dm.subtrees ==> dm.subtrees[m].leaves == old(dm.subtrees[m].leaves)
      ensures err.Some? ==> err.value.PropagationFailed? && mapRoot == []
      ensures err.None? ==>
        old(mapRoot) in old(dm.roots) &&
        var contents := old(dm.roots)[old(mapRoot)][name := TreeRootOf(dm.env.dense, dm.subtrees[name].leaves)];
        mapRoot == dm.env.sparseRoot(contents) && dm.roots == old(dm.roots)[mapRoot := contents]
    {
      ghost var leaves := dm.subtrees[name].leaves;
      assert dm.env.normalize(name) == Some(name);
      var r := dm.UpdateDomainTreeRoot(mapRoot, name, treeSize);
      if r.Err? {
        mapRoot := [];
        return Some(PropagationFailed(name, r.error));
      }
      assert leaves[..treeSize] == leaves;
      mapRoot := r.value;
      return None;
    }

    /** The certificates of one domain: appended in ascending order to its tree, whose new
        root is then recorded under a new map root. */
    method PropagateDomain(logIndex: U64, domain: string, certIndices: seq<U64>) returns (err: Option<Error>)
      requires Valid() && |certIndices| > 0
      modifies this, dm.Repr
      ensures Valid() && fresh(dm.Repr - old(dm.Repr))
      ensures mapSize == old(mapSize) && sourceRevisions == old(sourceRevisions) && queue == old(queue)
      ensures dm.smh == old(dm.smh) && dm.smhs == old(dm.smhs) && dm.sourceTree.leaves == old(dm.sourceTree.leaves)
      ensures old(dm.subtrees).Keys <= dm.subtrees.Keys
      ensures err.None? ==> TreeNameFor(dm.env, domain).Some?
      ensures err.None? ==>
        var n := TreeNameFor(dm.env, domain).value;
        n in dm.subtrees &&
        dm.subtrees[n].leaves == (if n in old(dm.subtrees) then old(dm.subtrees[n].leaves) else []) +
                                 EntriesFor(logIndex, SortAsc(certIndices)) &&
        dm.subtrees.Keys == old(dm.subtrees).Keys + {n} &&
        forall m :: m in old(dm.subtrees) && m != n ==> dm.subtrees[m].leaves == old(dm.subtrees[m].leaves)
      ensures err.None? ==>
        var n := TreeNameFor(dm.env, domain).value;
        old(mapRoot) in old(dm.roots) && n in dm.subtrees &&
        var contents := old(dm.roots)[old(mapRoot)][n := TreeRootOf(dm.env.dense, dm.subtrees[n].leaves)];
        mapRoot == dm.env.sparseRoot(contents) && dm.roots == old(dm.roots)[mapRoot := contents]
      ensures err.Some? && !err.value.PropagationFailed? ==> mapRoot == old(mapRoot)
      ensures err.Some? && err.value.PropagationFailed? ==> mapRoot == []
    {
      var added := AddCertificates(logIndex, domain, certIndices);
      if added.Err? {
        return Some(added.error);
      }
      err := RecordRoot(added.value.0, added.value.1);
    }

    /** One domain of the transaction: skipped, changing nothing, when it has no
        certificates; otherwise its tree receives them and its new root is recorded. */
    method PropagateEntry(logIndex: U64, domain: (string, seq<U64>)) returns (err: Option<Error>)
      requires Valid()
      modifies this, dm.Repr
      ensures Valid() && fresh(dm.Repr - old(dm.Repr))
      ensures mapSize == old(mapSize) && sourceRevisions == old(sourceRevisions) && queue == old(queue)
      ensures dm.smh == old(dm.smh) && dm.smhs == old(dm.smhs) && dm.sourceTree.leaves == old(dm.sourceTree.leaves)
      ensures old(dm.subtrees).Keys <= dm.subtrees.Keys
      ensures |domain.1| == 0 ==>
        err == None && mapRoot == old(mapRoot) && dm.roots == old(dm.roots) && dm.TreeLeaves() == old(dm.TreeLeaves())
      ensures err.None? && |domain.1| > 0 ==>
        TreeNameFor(dm.env, domain.0).Some? &&
        var n := TreeNameFor(dm.env, domain.0).value;
        var before := old(dm.TreeLeaves());
        dm.TreeLeaves() == before[n := (if n in before then before[n] else []) + EntriesFor(logIndex, SortAsc(domain.1))] &&
        old(mapRoot) in old(dm.roots) &&
        var contents := old(dm.roots)[old(mapRoot)][n := TreeRootOf(dm.env.dense, dm.TreeLeaves()[n])];
        mapRoot == dm.env.sparseRoot(contents) && dm.roots == old(dm.roots)[mapRoot := contents]
    {
      if |domain.1| == 0 {
        return None;
      }
      ghost var before := dm.TreeLeaves();
      err := PropagateDomain(logIndex, domain.0, domain.1);
      if err.None? {
        LeavesStep(before, dm.TreeLeaves(), TreeNameFor(dm.env, domain.0).value, EntriesFor(logIndex, SortAsc(domain.1)));
      }
    }

    /** The certificates of every domain in the transaction; domains with none are skipped
        and the first error stops the walk. */
    method PropagateAll(logIndex: U64, domains: seq<(string, seq<U64>)>) returns (err: Option<Error>)
      requires Valid()
      modifies this, dm.Repr
      ensures Valid() && fresh(dm.Repr - old(dm.Repr))
      ensures mapSize == old(mapSize) && sourceRevisions == old(sourceRevisions) && queue == old(queue)
      ensures dm.smh == old(dm.smh) && dm.smhs == old(dm.smhs) && dm.sourceTree.leaves == old(dm.sourceTree.leaves)
      ensures old(dm.subtrees).Keys <= dm.subtrees.Keys
      ensures err.None? ==> forall j :: 0 <= j < |domains| && |domains[j].1| > 0 ==>
        TreeNameFor(dm.env, domains[j].0).Some? && TreeNameFor(dm.env, domains[j].0).value in dm.subtrees
      ensures err.None? ==> dm.TreeLeaves() == Propagated(old(dm.TreeLeaves()), dm.env, logIndex, domains)
      ensures err.None? && TouchedTrees(dm.env, domains) == {} ==> mapRoot == old(mapRoot) && dm.roots == old(dm.roots)
      ensures err.None? && TouchedTrees(dm.env, domains) != {} ==>
        old(mapRoot) in old(dm.roots) && mapRoot in dm.roots &&
        dm.roots[mapRoot] == RecordedContents(old(dm.roots)[old(mapRoot)], old(dm.TreeLeaves()), dm.env, logIndex, domains) &&
        mapRoot == dm.env.sparseRoot(dm.roots[mapRoot])
    {
      ghost var leaves0, roots0, root0 := dm.TreeLeaves(), dm.roots, mapRoot;
      ghost var contents0 := if root0 in roots0 then roots0[root0] else map[];
      assert domains[..0] == [];
      var i := 0;
      while i < |domains|
        invariant 0 <= i <= |domains|
        invariant Valid() && fresh(dm.Repr - old(dm.Repr))
        invariant mapSize == old(mapSize) && sourceRevisions == old(sourceRevisions) && queue == old(queue)
        invariant dm.smh == old(dm.smh) && dm.smhs == old(dm.smhs)
        invariant dm.sourceTree.leaves == old(dm.sourceTree.leaves)
        invariant old(dm.subtrees).Keys <= dm.subtrees.Keys
        invariant Propagating(logIndex, domains, i, leaves0, contents0, roots0, root0)
      {
        err := PropagateNext(logIndex, domains, i, leaves0, contents0, roots0, root0);
        if err.Some? {
          return err;
        }
        i := i + 1;
      }
      PropagatedAll(logIndex, domains, i, leaves0, contents0, roots0, root0);
      return None;
    }

    /** At the end of the walk the whole list has been propagated. */
    lemma PropagatedAll(logIndex: U64, domains: seq<(string, seq<U64>)>, i: nat,
                        leaves0: map<string, seq<DomainTreeEntry>>, contents0: map<string, DomainTreeRoot>,
                        roots0: SparseRoots, root0: Bytes)
      requires i == |domains| && Propagating(logIndex, domains, i, leaves0, contents0, roots0, root0)
      ensures forall j :: 0 <= j < |domains| && |domains[j].1| > 0 ==>
        TreeNameFor(dm.env, domains[j].0).Some? && TreeNameFor(dm.env, domains[j].0).value in dm.subtrees
      ensures dm.TreeLeaves() == Propagated(leaves0, dm.env, logIndex, domains)
      ensures TouchedTrees(dm.env, domains) == {} ==> mapRoot == root0 && dm.roots == roots0
      ensures TouchedTrees(dm.env, domains) != {} ==>
        root0 in roots0 && mapRoot in dm.roots &&
        dm.roots[mapRoot] == RecordedContents(contents0, leaves0, dm.env, logIndex, domains) &&
        mapRoot == dm.env.sparseRoot(dm.roots[mapRoot])
    {
      assert domains[..i] == domains;
    }

    /** The state after the first i domains were propagated without error, starting from
        the entries leaves0 and the map root root0 among roots0. */
    ghost predicate Propagating(logIndex: U64, domains: seq<(string, seq<U64>)>, i: nat,
                                leaves0: map<string, seq<DomainTreeEntry>>, contents0: map<string, DomainTreeRoot>,
                                roots0: SparseRoots, root0: Bytes)
      reads this, dm, dm.Repr
    {
      Valid() && i <= |domains| &&
      contents0 == (if root0 in roots0 then roots0[root0] else map[]) &&
      (forall j :: 0 <= j < i && |domains[j].1| > 0 ==>
         TreeNameFor(dm.env, domains[j].0).Some? && TreeNameFor(dm.env, domains[j].0).value in dm.subtrees) &&
      dm.TreeLeaves() == Propagated(leaves0, dm.env, logIndex, domains[..i]) &&
      (TouchedTrees(dm.env, domains[..i]) == {} ==> mapRoot == root0 && dm.roots == roots0) &&
      (TouchedTrees(dm.env, domains[..i]) != {} ==>
         root0 in roots0 && mapRoot in dm.roots &&
         dm.roots[mapRoot] == RecordedContents(contents0, leaves0, dm.env, logIndex, domains[..i]) &&
         mapRoot == dm.env.sparseRoot(dm.roots[mapRoot]))
    }

    /** The loop body of PropagateAll: the domain at i is propagated. */
    method PropagateNext(logIndex: U64, domains: seq<(string, seq<U64>)>, i: nat,
                         ghost leaves0: map<string, seq<DomainTreeEntry>>, ghost contents0: map<string, DomainTreeRoot>,
                         ghost roots0: SparseRoots, ghost root0: Bytes) returns (err: Option<Error>)
      requires i < |domains| && Propagating(logIndex, domains, i, leaves0, contents0, roots0, root0)
      modifies this, dm.Repr
      ensures Valid() && fresh(dm.Repr - old(dm.Repr))
      ensures mapSize == old(mapSize) && sourceRevisions == old(sourceRevisions) && queue == old(queue)
      ensures dm.smh == old(dm.smh) && dm.smhs == old(dm.smhs) && dm.sourceTree.leaves == old(dm.sourceTree.leaves)
      ensures old(dm.subtrees).Keys <= dm.subtrees.Keys
      ensures err.None? ==> Propagating(logIndex, domains, i + 1, leaves0, contents0, roots0, root0)
    {
      ghost var leaves, roots, root := dm.TreeLeaves(), dm.roots, mapRoot;
      err := PropagateEntry(logIndex, domains[i]);
      if err.Some? {
        return;
      }
      assert domains[..i + 1] == domains[..i] + [domains[i]];
      PropagateStep(contents0, leaves0, roots0, root0, dm.env, logIndex, domains[..i], domains[i],
                    leaves, dm.TreeLeaves(), roots, dm.roots, root, mapRoot);
    }

    /** The bookkeeping half of processTransaction: a new log is listed with an empty
        revision and added to the source tree; then its revision is replaced and the map
        size moved by the difference, wrapping at 2^64. */
    method Revise(t: WorkerTransaction)
      requires Valid() && t.logIndex <= |sourceRevisions|
      modifies this, dm.sourceTree, dm.sourceTree.mt
      ensures Valid() && dm.Repr == old(dm.Repr)
      ensures queue == old(queue) && mapRoot == old(mapRoot)
      ensures sourceRevisions == Revised(old(sourceRevisions), t)
      ensures mapSize == (old(mapSize) + t.logRevision.treeSize -
                          (if t.logIndex == |old(sourceRevisions)| then 0 else old(sourceRevisions)[t.logIndex].treeSize))
                         % U64_LIMIT
      ensures dm.sourceTree.leaves == old(dm.sourceTree.leaves) +
                                      (if t.logIndex == |old(sourceRevisions)| then [t.logId] else [])
      ensures old(SizeConsistent()) ==> SizeConsistent()
    {
      if |sourceRevisions| == t.logIndex {
        sourceRevisions := sourceRevisions + [LogRevision(0, ZeroHash)];
        SumSizesAppend(old(sourceRevisions), LogRevision(0, ZeroHash));
        dm.AddSourceLog(t.logId);
      }
      var oldRev := sourceRevisions[t.logIndex];
      var newRev := t.logRevision;
      SumSizesUpdate(sourceRevisions, t.logIndex, newRev);
      ModAdd(SumSizes(sourceRevisions), newRev.treeSize - oldRev.treeSize);
      mapSize := (mapSize + newRev.treeSize - oldRev.treeSize) % U64_LIMIT;
      sourceRevisions := sourceRevisions[t.logIndex := newRev];
    }

    /** processTransaction: adds the log to the source tree when it is the next one, moves
        its revision and the map size forward, then propagates the certificates. */
    method ProcessTransaction(t: WorkerTransaction) returns (err: Option<Error>)
      requires Valid()
      modifies this, dm.Repr
      ensures Valid() && fresh(dm.Repr - old(dm.Repr))
      ensures queue == old(queue) && dm.smh == old(dm.smh) && dm.smhs == old(dm.smhs)
      ensures t.logIndex > |old(sourceRevisions)| ==>
        err == Some(LogNotYetAdded(t.logIndex, |old(sourceRevisions)|)) &&
        mapSize == old(mapSize) && sourceRevisions == old(sourceRevisions) && mapRoot == old(mapRoot) &&
        dm.sourceTree.leaves == old(dm.sourceTree.leaves) && dm.subtrees == old(dm.subtrees)
      ensures t.logIndex <= |old(sourceRevisions)| ==>
        sourceRevisions == Revised(old(sourceRevisions), t) &&
        mapSize == (old(mapSize) + t.logRevision.treeSize -
                    (if t.logIndex == |old(sourceRevisions)| then 0 else old(sourceRevisions)[t.logIndex].treeSize))
                   % U64_LIMIT &&
        dm.sourceTree.leaves == old(dm.sourceTree.leaves) +
                                (if t.logIndex == |old(sourceRevisions)| then [t.logId] else [])
      ensures old(SizeConsistent()) ==> SizeConsistent()
      ensures err.None? ==> forall j :: 0 <= j < |t.newCertificatesIndices| && |t.newCertificatesIndices[j].1| > 0 ==>
        TreeNameFor(dm.env, t.newCertificatesIndices[j].0).Some? &&
        TreeNameFor(dm.env, t.newCertificatesIndices[j].0).value in dm.subtrees
      ensures err.None? ==>
        dm.TreeLeaves() == Propagated(old(dm.TreeLeaves()), dm.env, t.logIndex, t.newCertificatesIndices)
      ensures err.None? && TouchedTrees(dm.env, t.newCertificatesIndices) == {} ==>
        mapRoot == old(mapRoot) && dm.roots == old(dm.roots)
      ensures err.None? && TouchedTrees(dm.env, t.newCertificatesIndices) != {} ==>
        old(mapRoot) in old(dm.roots) && mapRoot in dm.roots &&
        dm.roots[mapRoot] == RecordedContents(old(dm.roots)[old(mapRoot)], old(dm.TreeLeaves()), dm.env, t.logIndex,
                                              t.newCertificatesIndices) &&
        mapRoot == dm.env.sparseRoot(dm.roots[mapRoot])
    {
      if |sourceRevisions| < t.logIndex {
        return Some(LogNotYetAdded(t.logIndex, |sourceRevisions|));
      }
      ghost var leaves := dm.TreeLeaves();
      Revise(t);
      assert dm.TreeLeaves() == leaves;
      err := PropagateAll(t.logIndex, t.newCertificatesIndices);
    }

    /** tryProcess: a transaction is processed once every earlier log has been added. */
    method TryProcess(t: WorkerTransaction) returns (processed: bool, err: Option<Error>)
      requires Valid()
      modifies this, dm.Repr
      ensures Valid() && fresh(dm.Repr - old(dm.Repr))
      ensures queue == old(queue) && dm.smh == old(dm.smh) && dm.smhs == old(dm.smhs)
      ensures processed <==> t.logIndex <= |old(sourceRevisions)|
      ensures sourceRevisions == Tried(old(sourceRevisions), t)
      ensures old(SizeConsistent()) ==> SizeConsistent()
      ensures !processed ==>
        err == None && mapSize == old(mapSize) && mapRoot == old(mapRoot) && dm.roots == old(dm.roots) &&
        dm.sourceTree.leaves == old(dm.sourceTree.leaves) && dm.TreeLeaves() == old(dm.TreeLeaves())
      ensures processed ==>
        dm.sourceTree.leaves == old(dm.sourceTree.leaves) +
                                (if t.logIndex == |old(sourceRevisions)| then [t.logId] else [])
      ensures processed && err.None? ==>
        dm.TreeLeaves() == Propagated(old(dm.TreeLeaves()), dm.env, t.logIndex, t.newCertificatesIndices)
      ensures processed && err.None? && TouchedTrees(dm.env, t.newCertificatesIndices) == {} ==>
        mapRoot == old(mapRoot) && dm.roots == old(dm.roots)
      ensures processed && err.None? && TouchedTrees(dm.env, t.newCertificatesIndices) != {} ==>
        old(mapRoot) in old(dm.roots) && mapRoot in dm.roots &&
        dm.roots[mapRoot] == RecordedContents(old(dm.roots)[old(mapRoot)], old(dm.TreeLeaves()), dm.env, t.logIndex,
                                              t.newCertificatesIndices) &&
        mapRoot == dm.env.sparseRoot(dm.roots[mapRoot])
    {
      if |sourceRevisions| < t.logIndex {
        return false, None;
      }
      err := ProcessTransaction(t);
      processed := true;
    }

    /** addToQueueAndProcess: processes the transaction or queues it, then scans the queue. */
    method AddToQueueAndProcess(t: WorkerTransaction) returns (err: Option<Error>)
      requires Valid()
      modifies this, dm.Repr
      ensures Valid()
      ensures dm.smh == old(dm.smh) && dm.smhs == old(dm.smhs)
      ensures |old(sourceRevisions)| <= |sourceRevisions|
      ensures old(SizeConsistent()) ==> SizeConsistent()
      ensures err.None? ==>
        var revs := Tried(old(sourceRevisions), t);
        var arrived := old(queue) + (if t.logIndex > |old(sourceRevisions)| then [t] else []);
        sourceRevisions == PassRevisions(revs, arrived) && queue == Kept(arrived, PassMask(revs, arrived))
      ensures err.None? ==> forall k :: 0 <= k < |queue| ==> queue[k].logIndex > |old(sourceRevisions)|
    {
      var processed;
      processed, err := TryProcess(t);
      if err.Some? {
        return err;
      }
      if !processed {
        queue := queue + [t];
      }
      ghost var arrived := queue;
      assert arrived == old(queue) + (if t.logIndex > |old(sourceRevisions)| then [t] else []);
      ghost var mask;
      err, mask := ScanQueue();
    }

    /** One step of the pass: the transaction at i is tried; a processed one is removed
        from the queue, one that is still early is stepped over. */
    method ScanOne(i: nat, ghost arrived: seq<WorkerTransaction>, ghost mask: seq<bool>, ghost revs0: seq<LogRevision>)
      returns (next: nat, ghost mask': seq<bool>, err: Option<Error>)
      requires Valid() && i < |queue| && Scanning(revs0, arrived, mask, queue, sourceRevisions, i)
      modifies this, dm.Repr
      ensures Valid() && fresh(dm.Repr - old(dm.Repr))
      ensures dm.smh == old(dm.smh) && dm.smhs == old(dm.smhs)
      ensures |old(sourceRevisions)| <= |sourceRevisions|
      ensures old(SizeConsistent()) ==> SizeConsistent()
      ensures sourceRevisions == Tried(old(sourceRevisions), old(queue)[i])
      ensures err.None? ==>
        mask' == mask + [old(queue)[i].logIndex > |old(sourceRevisions)|] &&
        next == (if old(queue)[i].logIndex > |old(sourceRevisions)| then i + 1 else i)
      ensures err.None? ==> Scanning(revs0, arrived, mask', queue, sourceRevisions, next)
    {
      var t := queue[i];
      ghost var before := sourceRevisions;
      var done;
      done, err := TryProcess(t);
      if err.Some? {
        return i, mask, err;
      }
      if done {
        ScanAdvanceDrop(revs0, arrived, mask, queue, before, i, sourceRevisions);
        queue := queue[..i] + queue[i + 1..];
        next := i;
      } else {
        ScanAdvanceKeep(revs0, arrived, mask, queue, before, i, sourceRevisions);
        next := i + 1;
      }
      mask' := mask + [!done];
    }

    /** The pass over the queue: every transaction that has become ready is processed and
        removed (the index steps back over the removed slot); the rest stay in order. */
    method ScanQueue() returns (err: Option<Error>, ghost mask: seq<bool>)
      requires Valid()
      modifies this, dm.Repr
      ensures Valid() && fresh(dm.Repr - old(dm.Repr))
      ensures dm.smh == old(dm.smh) && dm.smhs == old(dm.smhs)
      ensures |old(sourceRevisions)| <= |sourceRevisions|
      ensures old(SizeConsistent()) ==> SizeConsistent()
      ensures err.None? ==>
        mask == PassMask(old(sourceRevisions), old(queue)) && queue == Kept(old(queue), mask) &&
        sourceRevisions == PassRevisions(old(sourceRevisions), old(queue))
      ensures err.None? ==> forall k :: 0 <= k < |queue| ==> queue[k].logIndex > |old(sourceRevisions)|
    {
      ghost var arrived, revs0 := queue, sourceRevisions;
      mask := [];
      assert arrived[..0] == [];
      var i: nat := 0;
      while i < |queue|
        invariant Scanning(revs0, arrived, mask, queue, sourceRevisions, i)
        invariant Valid() && fresh(dm.Repr - old(dm.Repr))
        invariant dm.smh == old(dm.smh) && dm.smhs == old(dm.smhs)
        invariant |old(sourceRevisions)| <= |sourceRevisions|
        invariant old(SizeConsistent()) ==> SizeConsistent()
        decreases |arrived| - |mask|
      {
        i, mask, err := ScanOne(i, arrived, mask, revs0);
        if err.Some? {
          return;
        }
      }
      ScanDone(arrived, mask, queue);
      assert arrived[..|mask|] == arrived;
      return None, mask;
    }

    /** One tick of the run loop: the update tick publishes only when the map size changed since
        the latest SMH, the MMD tick always (republishing an unchanged root); neither
        publishes before the first log revision has been counted. */
    method OnTick(isUpdateTick: bool, now: U64) returns (err: Option<Error>)
      requires Valid()
      modifies dm
      ensures Valid()
      ensures dm.roots == old(dm.roots) && dm.subtrees == old(dm.subtrees)
      ensures var publish := !(isUpdateTick && old(dm.smh).head.mapSize == mapSize) && mapSize != 0;
        (!publish ==> err == None && dm.smh == old(dm.smh) && dm.smhs == old(dm.smhs)) &&
        (publish ==>
           var o := PublishOutcome(old(dm.smh).head, mapRoot, mapSize, sourceRevisions, now,
                                   dm.sourceTree.leaves, dm.env);
           (o.Err? ==> err == Some(o.error) && dm.smh == old(dm.smh) && dm.smhs == old(dm.smhs)) &&
           (o.Ok? ==> err == None && dm.smh == o.value && dm.smhs == old(dm.smhs)[mapSize := o.value]))
    {
      if isUpdateTick && dm.GetLatestSMH().head.mapSize == mapSize {
        return None;
      }
      if mapSize == 0 {
        return None;
      }
      err := dm.CheckAndPublishSMH(mapRoot, mapSize, sourceRevisions, now);
    }
  }

  /** Midway through the pass: the first |mask| arrived transactions have been tried,
      those kept sit before `next` in the queue and the untried ones follow it. */
  ghost predicate Scanning(revs0: seq<LogRevision>, arrived: seq<WorkerTransaction>, mask: seq<bool>,
                           queue: seq<WorkerTransaction>, revs: seq<LogRevision>, next: nat)
  {
    |mask| <= |arrived| && next <= |queue| &&
    queue[..next] == Kept(arrived[..|mask|], mask) && queue[next..] == arrived[|mask|..] &&
    (forall k :: 0 <= k < next ==> queue[k].logIndex > |revs0|) &&
    mask == PassMask(revs0, arrived[..|mask|]) && revs == PassRevisions(revs0, arrived[..|mask|])
  }

  /** Trying the transaction at i when its log is known: it is processed and its slot
      closed, so the pass moves on without moving the index. */
  lemma ScanAdvanceDrop(revs0: seq<LogRevision>, arrived: seq<WorkerTransaction>, mask: seq<bool>,
                        queue: seq<WorkerTransaction>, revs: seq<LogRevision>, i: nat, revs': seq<LogRevision>)
    requires Scanning(revs0, arrived, mask, queue, revs, i) && i < |queue|
    requires queue[i].logIndex <= |revs| && revs' == Tried(revs, queue[i])
    ensures Scanning(revs0, arrived, mask + [false], queue[..i] + queue[i + 1..], revs', i)
  {
    ScanHead(arrived, |mask|, queue, i);
    PassStep(revs0, arrived, |mask|);
    ScanDrop(arrived, mask, queue, i);
    var q := queue[..i] + queue[i + 1..];
    assert forall k :: 0 <= k < i ==> q[k] == queue[k];
  }

  /** Trying the transaction at i while its log is still unknown: it is stepped over. */
  lemma ScanAdvanceKeep(revs0: seq<LogRevision>, arrived: seq<WorkerTransaction>, mask: seq<bool>,
                        queue: seq<WorkerTransaction>, revs: seq<LogRevision>, i: nat, revs': seq<LogRevision>)
    requires Scanning(revs0, arrived, mask, queue, revs, i) && i < |queue|
    requires queue[i].logIndex > |revs| && revs' == Tried(revs, queue[i])
    ensures Scanning(revs0, arrived, mask + [true], queue, revs', i + 1)
  {
    ScanHead(arrived, |mask|, queue, i);
    PassStep(revs0, arrived, |mask|);
    ScanKeep(arrived, mask, queue, i);
  }

  lemma ScanHead(arrived: seq<WorkerTransaction>, m: nat, queue: seq<WorkerTransaction>, i: nat)
    requires m <= |arrived| && i < |queue| && queue[i..] == arrived[m..]
    ensures m < |arrived| && queue[i] == arrived[m]
  {
    assert queue[i] == queue[i..][0];
  }

  /** Keeping the transaction at i (stepping over it) extends the scanned prefix by it. */
  lemma ScanKeep(arrived: seq<WorkerTransaction>, mask: seq<bool>, queue: seq<WorkerTransaction>, i: nat)
    requires |mask| < |arrived| && i < |queue| && queue[i] == arrived[|mask|]
    requires queue[..i] == Kept(arrived[..|mask|], mask) && queue[i..] == arrived[|mask|..]
    ensures queue[..i + 1] == Kept(arrived[..|mask| + 1], mask + [true])
    ensures queue[i + 1..] == arrived[|mask| + 1..]
  {
    var m := |mask|;
    assert arrived[..m + 1] == arrived[..m] + [arrived[m]];
    KeptSnoc(arrived[..m], mask, arrived[m], true);
    assert queue[..i + 1] == queue[..i] + [queue[i]];
    assert queue[i + 1..] == queue[i..][1..];
  }

  /** Dropping the transaction at i (closing the gap) extends the scanned prefix by nothing. */
  lemma ScanDrop(arrived: seq<WorkerTransaction>, mask: seq<bool>, queue: seq<WorkerTransaction>, i: nat)
    requires |mask| < |arrived| && i < |queue| && queue[i] == arrived[|mask|]
    requires queue[..i] == Kept(arrived[..|mask|], mask) && queue[i..] == arrived[|mask|..]
    ensures var q := queue[..i] + queue[i + 1..];
      q[..i] == Kept(arrived[..|mask| + 1], mask + [false]) && q[i..] == arrived[|mask| + 1..]
  {
    var m := |mask|;
    assert arrived[..m + 1] == arrived[..m] + [arrived[m]];
    KeptSnoc(arrived[..m], mask, arrived[m], false);
    var q := queue[..i] + queue[i + 1..];
    assert q[..i] == queue[..i];
    assert q[i..] == queue[i + 1..] == queue[i..][1..];
  }

  /** At the end of the scan the whole queue is the kept part of everything that arrived. */
  lemma ScanDone(arrived: seq<WorkerTransaction>, mask: seq<bool>, queue: seq<WorkerTransaction>)
    requires |mask| <= |arrived|
    requires queue[..|queue|] == Kept(arrived[..|mask|], mask) && queue[|queue|..] == arrived[|mask|..]
    ensures |mask| == |arrived| && queue == Kept(arrived, mask)
  {
    assert |arrived[|mask|..]| == 0;
    assert arrived[..|mask|] == arrived && queue[..|queue|] == queue;
  }

  lemma {:induction false} EntriesForAppend(logIndex: U64, certs: seq<U64>, c: U64)
    ensures EntriesFor(logIndex, certs + [c]) == EntriesFor(logIndex, certs) + [DomainTreeEntry(logIndex, c)]
  {
  }
}
