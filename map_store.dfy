/** The sparse-Merkle-tree node store: a wrapper around the write-once base store that
    answers the all-zero placeholder hash with an empty node, remembers every node
    inserted since the last prune, walks the node graph depth first (TraverseNodes),
    and on SaveNodesForRoot keeps the new nodes reachable from a root and drops the
    other new nodes inserted before it. */
module MapStore {
  import opened Types
  import opened MemStore

  const LeafPrefix: byte := 0
  const NodePrefix: byte := 1

  /** What a traversal handler returns: carry on, ErrSkipBranch, or another error. */
  datatype HandlerResult = Proceed | SkipBranch | HandlerError(reason: string)

  /** The optional node handler (hash, left, right) and leaf handler (path, hash, valueHash). */
  datatype Handlers = Handlers(
    node: Option<(Bytes, Bytes, Bytes) -> HandlerResult>,
    leaf: Option<(Bytes, Bytes, Bytes) -> HandlerResult>)

  /** One handler call made by a traversal, with its arguments. */
  datatype Visit =
    | NodeVisit(hash: Bytes, left: Bytes, right: Bytes)
    | LeafVisit(path: Bytes, hash: Bytes, valueHash: Bytes)

  /** The handler calls of a traversal, in order, and the error it returns (None for nil). */
  datatype Traversal = Traversal(visits: seq<Visit>, error: Option<Error>)

  /** The wrapper's Get as the traversal sees it: the placeholder key holds the empty
      node; any other key is looked up in the base store. */
  function Lookup(store: map<Bytes, Bytes>, placeholder: Bytes, key: Bytes): (d: Option<Bytes>)
    ensures key == placeholder ==> d == Some([])
    ensures key != placeholder ==> (d.Some? <==> key in store)
    ensures key != placeholder && key in store ==> d.value == store[key]
  {
    if key == placeholder then Some([])
    else if key in store then Some(store[key])
    else None
  }

  /** A leaf handler's result as the traversal returns it: ErrSkipBranch is ignored. */
  function LeafOutcome(res: HandlerResult): (e: Option<Error>)
    ensures e.Some? <==> res.HandlerError?
  {
    if res.HandlerError? then Some(HandlerFailed(res.reason)) else None
  }

  /** TraverseNodes: the depth-first, pre-order walk from root. An empty node is an empty
      leaf (reported with the placeholder as its path); prefix 1 is an inner node and
      prefix 0 a leaf, each exactly 1 + 2*hashSize bytes long. A node handler's
      ErrSkipBranch skips that node's descendants (without error); any other handler
      error stops the walk. The Go recursion is unbounded; `fuel` bounds its depth. */
  function Traverse(store: map<Bytes, Bytes>, hashSize: nat, root: Bytes, h: Handlers, fuel: nat): Traversal
    decreases fuel
  {
    if fuel == 0 then Traversal([], Some(TraversalTooDeep(root)))
    else
      match Lookup(store, Zeros(hashSize), root)
      case None => Traversal([], Some(NoNodeForHash(root)))
      case Some(data) =>
        if |data| == 0 then
          if h.leaf.None? then Traversal([], None)
          else Traversal([LeafVisit(Zeros(hashSize), root, data)], LeafOutcome(h.leaf.value(Zeros(hashSize), root, data)))
        else if data[0] == NodePrefix then
          if |data| != 1 + 2 * hashSize then Traversal([], Some(InvalidNodeData(root)))
          else
            var left := data[1..1 + hashSize];
            var right := data[1 + hashSize..];
            var pre := if h.node.Some? then [NodeVisit(root, left, right)] else [];
            var res := if h.node.Some? then h.node.value(root, left, right) else Proceed;
            if res == SkipBranch then Traversal(pre, None)
            else if res.HandlerError? then Traversal(pre, Some(HandlerFailed(res.reason)))
            else
              var l := Traverse(store, hashSize, left, h, fuel - 1);
              if l.error.Some? then Traversal(pre + l.visits, l.error)
              else
                var r := Traverse(store, hashSize, right, h, fuel - 1);
                Traversal(pre + l.visits + r.visits, r.error)
        else if data[0] == LeafPrefix then
          if |data| != 1 + 2 * hashSize then Traversal([], Some(InvalidLeafData(root)))
          else if h.leaf.None? then Traversal([], None)
          else
            var path := data[1..1 + hashSize];
            var valueHash := data[1 + hashSize..];
            Traversal([LeafVisit(path, root, valueHash)], LeafOutcome(h.leaf.value(path, root, valueHash)))
        else Traversal([], Some(InvalidNodePrefix(root)))
  }

  /** The two children of root when the store holds well-formed inner-node data for it. */
  function Children(store: map<Bytes, Bytes>, hashSize: nat, root: Bytes): (c: Option<(Bytes, Bytes)>)
    ensures c.Some? ==> |c.value.0| == hashSize
  {
    var d := Lookup(store, Zeros(hashSize), root);
    if d.Some? && |d.value| == 1 + 2 * hashSize && d.value[0] == NodePrefix
    then Some((d.value[1..1 + hashSize], d.value[1 + hashSize..]))
    else None
  }

  /** target can be reached from root by following at most fuel - 1 child links. */
  ghost predicate Reachable(store: map<Bytes, Bytes>, hashSize: nat, root: Bytes, target: Bytes, fuel: nat)
    decreases fuel
  {
    fuel > 0 &&
    (root == target ||
     (Children(store, hashSize, root).Some? &&
      (Reachable(store, hashSize, Children(store, hashSize, root).value.0, target, fuel - 1) ||
       Reachable(store, hashSize, Children(store, hashSize, root).value.1, target, fuel - 1))))
  }

  /** The hash each handler call is about. */
  function VisitHash(v: Visit): Bytes {
    match v
    case NodeVisit(hash, _, _) => hash
    case LeafVisit(_, hash, _) => hash
  }

  function VisitHashes(vs: seq<Visit>): (hs: seq<Bytes>)
    ensures |hs| == |vs|
    ensures forall i :: 0 <= i < |vs| ==> hs[i] == VisitHash(vs[i])
  {
    seq(|vs|, i requires 0 <= i < |vs| => VisitHash(vs[i]))
  }

  /** Every node a traversal reports is reachable from its root. */
  lemma {:induction false} VisitsAreReachable(store: map<Bytes, Bytes>, hashSize: nat, root: Bytes, h: Handlers, fuel: nat)
    ensures forall i :: 0 <= i < |Traverse(store, hashSize, root, h, fuel).visits| ==>
              Reachable(store, hashSize, root, VisitHash(Traverse(store, hashSize, root, h, fuel).visits[i]), fuel)
    decreases fuel
  {
    if fuel > 0 {
      var d := Lookup(store, Zeros(hashSize), root);
      if d.Some? && |d.value| != 0 && d.value[0] == NodePrefix && |d.value| == 1 + 2 * hashSize {
        var left := d.value[1..1 + hashSize];
        var right := d.value[1 + hashSize..];
        assert Children(store, hashSize, root) == Some((left, right));
        VisitsAreReachable(store, hashSize, left, h, fuel - 1);
        VisitsAreReachable(store, hashSize, right, h, fuel - 1);
      }
    }
  }

  /** The plain depth-first pre-order listing of the nodes below root (inner nodes before
      their left, then right subtree), without handlers and ignoring malformed data. */
  function PreOrder(store: map<Bytes, Bytes>, hashSize: nat, root: Bytes, fuel: nat): seq<Bytes>
    decreases fuel
  {
    if fuel == 0 then []
    else
      var d := Lookup(store, Zeros(hashSize), root);
      if d.None? then []
      else if |d.value| == 0 then [root]
      else if |d.value| != 1 + 2 * hashSize then []
      else if d.value[0] == NodePrefix then
        [root] + PreOrder(store, hashSize, d.value[1..1 + hashSize], fuel - 1)
               + PreOrder(store, hashSize, d.value[1 + hashSize..], fuel - 1)
      else if d.value[0] == LeafPrefix then [root]
      else []
  }

  /** Handlers that accept every node and leaf. */
  function ProceedAll(): Handlers {
    Handlers(Some((a, b, c) => Proceed), Some((a, b, c) => Proceed))
  }

  /** With handlers that always proceed, a successful traversal reports exactly the
      pre-order listing of the nodes below the root. */
  lemma {:induction false} SuccessfulTraversalIsPreOrder(store: map<Bytes, Bytes>, hashSize: nat, root: Bytes, fuel: nat)
    requires Traverse(store, hashSize, root, ProceedAll(), fuel).error == None
    ensures VisitHashes(Traverse(store, hashSize, root, ProceedAll(), fuel).visits) == PreOrder(store, hashSize, root, fuel)
    decreases fuel
  {
    var t := Traverse(store, hashSize, root, ProceedAll(), fuel);
    var d := Lookup(store, Zeros(hashSize), root);
    if d.Some? && |d.value| != 0 && d.value[0] == NodePrefix && |d.value| == 1 + 2 * hashSize {
      var left := d.value[1..1 + hashSize];
      var right := d.value[1 + hashSize..];
      var l := Traverse(store, hashSize, left, ProceedAll(), fuel - 1);
      var r := Traverse(store, hashSize, right, ProceedAll(), fuel - 1);
      SuccessfulTraversalIsPreOrder(store, hashSize, left, fuel - 1);
      SuccessfulTraversalIsPreOrder(store, hashSize, right, fuel - 1);
      assert t.visits == [NodeVisit(root, left, right)] + l.visits + r.visits;
      VisitHashesAppend([NodeVisit(root, left, right)], l.visits);
      VisitHashesAppend([NodeVisit(root, left, right)] + l.visits, r.visits);
    }
  }

  lemma VisitHashesAppend(a: seq<Visit>, b: seq<Visit>)
    ensures VisitHashes(a + b) == VisitHashes(a) + VisitHashes(b)
  {
    assert VisitHashes(a + b) == VisitHashes(a) + VisitHashes(b) by {
      assert forall i :: 0 <= i < |a| ==> (a + b)[i] == a[i];
      assert forall i :: |a| <= i < |a| + |b| ==> (a + b)[i] == b[i - |a|];
    }
  }

  // ---------------------------------------------------------------------------------
  // The insertion log and its index

  function KeysOf(entries: seq<KeyInfo>): (ks: seq<Bytes>)
    ensures |ks| == |entries|
    ensures forall i :: 0 <= i < |entries| ==> ks[i] == entries[i].key
  {
    seq(|entries|, i requires 0 <= i < |entries| => entries[i].key)
  }

  /** No key is listed twice. */
  ghost predicate NoDuplicateKeys(entries: seq<KeyInfo>) {
    forall i, j :: 0 <= i < j < |entries| ==> entries[i].key != entries[j].key
  }

  /** newEntriesMap as Set builds it: every listed key maps to its LAST position. */
  function LastIndex(keys: seq<Bytes>): map<Bytes, nat> {
    if keys == [] then map[]
    else LastIndex(keys[..|keys| - 1])[keys[|keys| - 1] := |keys| - 1]
  }

  /** LastIndex lists exactly the keys of the log, each at a position holding it with no
      later position holding it. */
  lemma {:induction false} LastIndexSpec(keys: seq<Bytes>)
    ensures LastIndex(keys).Keys == KeySet(keys)
    ensures forall k :: k in LastIndex(keys) ==> LastIndex(keys)[k] < |keys| && keys[LastIndex(keys)[k]] == k
    ensures forall k, j :: k in LastIndex(keys) && LastIndex(keys)[k] < j < |keys| ==> keys[j] != k
  {
    if keys != [] {
      var prefix := keys[..|keys| - 1];
      LastIndexSpec(prefix);
      assert forall i :: 0 <= i < |prefix| ==> prefix[i] == keys[i];
      assert keys == prefix + [keys[|keys| - 1]];
    }
  }

  /** Appending an entry indexes its key at the new last position. */
  lemma LastIndexAppend(entries: seq<KeyInfo>, e: KeyInfo)
    ensures LastIndex(KeysOf(entries + [e])) == LastIndex(KeysOf(entries))[e.key := |entries|]
  {
    assert KeysOf(entries + [e])[..|entries|] == KeysOf(entries);
  }

  /** In a log without duplicates, the index maps each entry's key to that entry. */
  lemma IndexOfUnique(entries: seq<KeyInfo>, i: nat)
    requires NoDuplicateKeys(entries) && i < |entries|
    ensures entries[i].key in LastIndex(KeysOf(entries))
    ensures LastIndex(KeysOf(entries))[entries[i].key] == i
  {
    LastIndexSpec(KeysOf(entries));
    assert KeysOf(entries)[i] == entries[i].key;
    var j := LastIndex(KeysOf(entries))[entries[i].key];
    assert KeysOf(entries)[j] == entries[j].key;
  }

  /** The log after a successful Set of key, as the Go code writes it: always appended. */
  function RecordAsWritten(entries: seq<KeyInfo>, key: Bytes): (e: seq<KeyInfo>)
    ensures |e| == |entries| + 1 && e[..|entries|] == entries && e[|entries|] == KeyInfo(key, false)
  {
    entries + [KeyInfo(key, false)]
  }

  /** The Go Set re-lists a key the log already holds, so the log acquires a repeat. */
  lemma RecordAsWrittenRepeats(entries: seq<KeyInfo>, key: Bytes)
    requires key in KeysOf(entries)
    ensures !NoDuplicateKeys(RecordAsWritten(entries, key))
  {
    var i :| 0 <= i < |entries| && KeysOf(entries)[i] == key;
    assert RecordAsWritten(entries, key)[i].key == RecordAsWritten(entries, key)[|entries|].key;
  }

  /** The log after a successful Set of key, corrected: a key the log already holds (the
      base store accepts re-setting a key to the value it has) is not listed again. */
  function Record(entries: seq<KeyInfo>, key: Bytes): (e: seq<KeyInfo>)
    ensures key in KeysOf(entries) ==> e == entries
    ensures key !in KeysOf(entries) ==> e == entries + [KeyInfo(key, false)]
  {
    if key in KeysOf(entries) then entries else entries + [KeyInfo(key, false)]
  }

  /** Recording a key just stored keeps every logged key in the store. */
  lemma RecordStored(entries: seq<KeyInfo>, mem: map<Bytes, Bytes>, key: Bytes, value: Bytes)
    requires forall i :: 0 <= i < |entries| ==> entries[i].key in mem
    ensures forall i :: 0 <= i < |Record(entries, key)| ==> Record(entries, key)[i].key in mem[key := value]
  {
  }

  /** Recording keeps the log free of duplicates. */
  lemma RecordKeepsKeysUnique(entries: seq<KeyInfo>, key: Bytes)
    requires NoDuplicateKeys(entries)
    ensures NoDuplicateKeys(Record(entries, key))
  {
    if key !in KeysOf(entries) {
      var e := Record(entries, key);
      forall i, j | 0 <= i < j < |e|
        ensures e[i].key != e[j].key
      {
        if j == |entries| {
          assert KeysOf(entries)[i] == entries[i].key;
        }
      }
    }
  }

  // ---------------------------------------------------------------------------------
  // markToSave

  /** markToSave's `mark`: a new node (one the index lists) proceeds and is flagged; the
      empty hash, the placeholder and nodes inserted before the last prune skip. */
  function Mark(index: map<Bytes, nat>, placeholder: Bytes, hash: Bytes): (res: HandlerResult)
    ensures res == Proceed <==> |hash| > 0 && hash != placeholder && hash in index
    ensures res != Proceed ==> res == SkipBranch
  {
    if |hash| == 0 || hash == placeholder then SkipBranch
    else if hash !in index then SkipBranch
    else Proceed
  }

  /** The handlers markToSave passes to the traversal: an inner node is marked; a leaf is
      marked and, when it is new, so is its value hash. */
  function MarkHandlers(index: map<Bytes, nat>, placeholder: Bytes): Handlers {
    Handlers(
      Some((hash, left, right) => Mark(index, placeholder, hash)),
      Some((path, hash, valueHash) =>
        if Mark(index, placeholder, hash) != Proceed then Mark(index, placeholder, hash)
        else Mark(index, placeholder, valueHash)))
  }

  /** A suffix of a log without duplicates has none. */
  lemma SuffixKeysUnique(entries: seq<KeyInfo>, c: nat)
    requires NoDuplicateKeys(entries) && c <= |entries|
    ensures NoDuplicateKeys(entries[c..])
  {
    var rest := entries[c..];
    forall a, b | 0 <= a < b < |rest|
      ensures rest[a].key != rest[b].key
    {
      assert rest[a] == entries[c + a] && rest[b] == entries[c + b];
    }
  }

  lemma SuffixKeys(entries: seq<KeyInfo>, c: nat)
    requires c <= |entries|
    ensures KeysOf(entries[c..]) == KeysOf(entries)[c..]
  {
  }

  /** Pruning a prefix of a log without duplicates deletes none of the remaining keys. */
  lemma SuffixKeysKept(entries: seq<KeyInfo>, c: nat, mem: map<Bytes, Bytes>)
    requires NoDuplicateKeys(entries) && c <= |entries|
    requires forall i :: 0 <= i < |entries| ==> entries[i].key in mem
    ensures forall i :: 0 <= i < |entries[c..]| ==> entries[c..][i].key in mem - DroppedKeys(entries[..c])
  {
    forall i | 0 <= i < |entries[c..]|
      ensures entries[c..][i].key in mem - DroppedKeys(entries[..c])
    {
      assert entries[c..][i] == entries[c + i];
    }
  }

  /** When root is the last key of a log without duplicates, the whole log is pruned. */
  lemma CutAtLastEntry(entries: seq<KeyInfo>, root: Bytes)
    requires NoDuplicateKeys(entries)
    requires 0 < |entries| && entries[|entries| - 1].key == root
    ensures CutPoint(KeysOf(entries), root) == |entries|
  {
    var keys := KeysOf(entries);
    var c := CutPoint(keys, root);
    assert keys[|entries| - 1] == root;
  }

  /** The key one call of `mark` flags: the hash itself when it is new. */
  function MarkSet(index: map<Bytes, nat>, placeholder: Bytes, hash: Bytes): set<Bytes> {
    if Mark(index, placeholder, hash) == Proceed then {hash} else {}
  }

  /** The keys one handler call flags. */
  function VisitMarks(index: map<Bytes, nat>, placeholder: Bytes, v: Visit): set<Bytes> {
    match v
    case NodeVisit(hash, _, _) => MarkSet(index, placeholder, hash)
    case LeafVisit(_, hash, valueHash) =>
      if Mark(index, placeholder, hash) == Proceed
      then MarkSet(index, placeholder, hash) + MarkSet(index, placeholder, valueHash)
      else {}
  }

  /** The keys a sequence of handler calls flags. */
  function MarkedKeys(index: map<Bytes, nat>, placeholder: Bytes, visits: seq<Visit>): (ks: set<Bytes>)
    ensures ks <= index.Keys
  {
    if visits == [] then {}
    else MarkedKeys(index, placeholder, visits[..|visits| - 1]) + VisitMarks(index, placeholder, visits[|visits| - 1])
  }

  /** A key is flagged exactly when one of the handler calls flags it. */
  lemma {:induction false} MarkedKeysSpec(index: map<Bytes, nat>, placeholder: Bytes, visits: seq<Visit>, k: Bytes)
    ensures k in MarkedKeys(index, placeholder, visits) <==>
            exists i :: 0 <= i < |visits| && k in VisitMarks(index, placeholder, visits[i])
  {
    if visits != [] {
      var prefix := visits[..|visits| - 1];
      MarkedKeysSpec(index, placeholder, prefix, k);
      assert forall i :: 0 <= i < |prefix| ==> prefix[i] == visits[i];
      if k in MarkedKeys(index, placeholder, prefix) {
        var i :| 0 <= i < |prefix| && k in VisitMarks(index, placeholder, prefix[i]);
        assert visits[i] == prefix[i];
      }
    }
  }

  /** The value hash of root when the store holds well-formed leaf data for it. */
  function LeafValue(store: map<Bytes, Bytes>, hashSize: nat, root: Bytes): (v: Option<Bytes>)
    ensures v.Some? ==> |v.value| == hashSize
  {
    var d := Lookup(store, Zeros(hashSize), root);
    if d.Some? && |d.value| == 1 + 2 * hashSize && d.value[0] == LeafPrefix
    then Some(d.value[1 + hashSize..])
    else None
  }

  /** k is a new node that SaveNodesForRoot must keep for root: root itself when it is new
      (listed in the index, neither empty nor the placeholder), a new node reachable from a
      child of a new inner node, or the new value hash of a new leaf; at most fuel - 1
      child links are followed. */
  ghost predicate NewReachable(store: map<Bytes, Bytes>, hashSize: nat, index: map<Bytes, nat>, placeholder: Bytes,
                               root: Bytes, k: Bytes, fuel: nat)
    decreases fuel
  {
    fuel > 0 && |root| > 0 && root != placeholder && root in index &&
    (k == root ||
     (Children(store, hashSize, root).Some? &&
      (NewReachable(store, hashSize, index, placeholder, Children(store, hashSize, root).value.0, k, fuel - 1) ||
       NewReachable(store, hashSize, index, placeholder, Children(store, hashSize, root).value.1, k, fuel - 1))) ||
     (LeafValue(store, hashSize, root).Some? && k == LeafValue(store, hashSize, root).value &&
      |k| > 0 && k != placeholder && k in index))
  }

  /** The keys flagged by two runs of handler calls are those flagged by either. */
  lemma {:induction false} MarkedKeysAppend(index: map<Bytes, nat>, placeholder: Bytes, a: seq<Visit>, b: seq<Visit>)
    ensures MarkedKeys(index, placeholder, a + b) == MarkedKeys(index, placeholder, a) + MarkedKeys(index, placeholder, b)
    decreases |b|
  {
    if b == [] {
      assert a + b == a;
    } else {
      var init := b[..|b| - 1];
      assert (a + b)[..|a + b| - 1] == a + init;
      assert (a + b)[|a + b| - 1] == b[|b| - 1];
      MarkedKeysAppend(index, placeholder, a, init);
    }
  }

  /** A successful marking walk from root flags exactly the new nodes reachable from root
      through new nodes, together with the new value hashes of the new leaves among them. */
  lemma {:induction false} MarkedIffNewReachable(store: map<Bytes, Bytes>, hashSize: nat, index: map<Bytes, nat>,
                                                 placeholder: Bytes, root: Bytes, fuel: nat, k: Bytes)
    requires Traverse(store, hashSize, root, MarkHandlers(index, placeholder), fuel).error == None
    ensures k in MarkedKeys(index, placeholder, Traverse(store, hashSize, root, MarkHandlers(index, placeholder), fuel).visits)
            <==> NewReachable(store, hashSize, index, placeholder, root, k, fuel)
    decreases fuel
  {
    var data := Lookup(store, Zeros(hashSize), root).value;
    if |data| > 0 && data[0] == NodePrefix && Mark(index, placeholder, root) == Proceed {
      MarkedIffNewReachable(store, hashSize, index, placeholder, data[1..1 + hashSize], fuel - 1, k);
      MarkedIffNewReachable(store, hashSize, index, placeholder, data[1 + hashSize..], fuel - 1, k);
      MarkedIffInner(store, hashSize, index, placeholder, root, fuel, k);
    } else {
      MarkedIffNoDescent(store, hashSize, index, placeholder, root, fuel, k);
    }
  }

  /** The walk descends into a new inner node: its flags are the node's and its children's. */
  lemma MarkedIffInner(store: map<Bytes, Bytes>, hashSize: nat, index: map<Bytes, nat>,
                       placeholder: Bytes, root: Bytes, fuel: nat, k: Bytes)
    requires Traverse(store, hashSize, root, MarkHandlers(index, placeholder), fuel).error == None
    requires fuel > 0
    requires var data := Lookup(store, Zeros(hashSize), root).value;
      |data| > 0 && data[0] == NodePrefix && Mark(index, placeholder, root) == Proceed &&
      (k in MarkedKeys(index, placeholder, Traverse(store, hashSize, data[1..1 + hashSize], MarkHandlers(index, placeholder), fuel - 1).visits)
       <==> NewReachable(store, hashSize, index, placeholder, data[1..1 + hashSize], k, fuel - 1)) &&
      (k in MarkedKeys(index, placeholder, Traverse(store, hashSize, data[1 + hashSize..], MarkHandlers(index, placeholder), fuel - 1).visits)
       <==> NewReachable(store, hashSize, index, placeholder, data[1 + hashSize..], k, fuel - 1))
    ensures k in MarkedKeys(index, placeholder, Traverse(store, hashSize, root, MarkHandlers(index, placeholder), fuel).visits)
            <==> NewReachable(store, hashSize, index, placeholder, root, k, fuel)
  {
    var h := MarkHandlers(index, placeholder);
    var t := Traverse(store, hashSize, root, h, fuel);
    var data := Lookup(store, Zeros(hashSize), root).value;
    var left := data[1..1 + hashSize];
    var right := data[1 + hashSize..];
    var v := NodeVisit(root, left, right);
    assert Children(store, hashSize, root) == Some((left, right));
    assert LeafValue(store, hashSize, root).None?;
    assert [v][..0] == [];
    assert MarkedKeys(index, placeholder, [v]) == MarkSet(index, placeholder, root);
    var l := Traverse(store, hashSize, left, h, fuel - 1);
    var r := Traverse(store, hashSize, right, h, fuel - 1);
    assert t.visits == [v] + l.visits + r.visits;
    MarkedKeysAppend(index, placeholder, [v], l.visits);
    MarkedKeysAppend(index, placeholder, [v] + l.visits, r.visits);
  }

  /** The walk does not descend from root (an empty node, a leaf, or an inner node that is
      not new): root's own flags are all there is. */
  lemma MarkedIffNoDescent(store: map<Bytes, Bytes>, hashSize: nat, index: map<Bytes, nat>,
                           placeholder: Bytes, root: Bytes, fuel: nat, k: Bytes)
    requires Traverse(store, hashSize, root, MarkHandlers(index, placeholder), fuel).error == None
    requires var data := Lookup(store, Zeros(hashSize), root).value;
      !(|data| > 0 && data[0] == NodePrefix && Mark(index, placeholder, root) == Proceed)
    ensures k in MarkedKeys(index, placeholder, Traverse(store, hashSize, root, MarkHandlers(index, placeholder), fuel).visits)
            <==> NewReachable(store, hashSize, index, placeholder, root, k, fuel)
  {
    var t := Traverse(store, hashSize, root, MarkHandlers(index, placeholder), fuel);
    var data := Lookup(store, Zeros(hashSize), root).value;
    if |data| == 0 {
      var v := LeafVisit(Zeros(hashSize), root, data);
      assert t.visits == [v];
      assert [v][..0] == [];
      assert Children(store, hashSize, root).None? && LeafValue(store, hashSize, root).None?;
    } else if data[0] == NodePrefix {
      var v := NodeVisit(root, data[1..1 + hashSize], data[1 + hashSize..]);
      assert t.visits == [v];
      assert [v][..0] == [];
    } else {
      var valueHash := data[1 + hashSize..];
      var v := LeafVisit(data[1..1 + hashSize], root, valueHash);
      assert t.visits == [v];
      assert [v][..0] == [];
      assert Children(store, hashSize, root).None?;
      assert LeafValue(store, hashSize, root) == Some(valueHash);
    }
  }

  /** The log positions of a set of indexed keys. */
  function IndicesOf(index: map<Bytes, nat>, keys: set<Bytes>): (s: set<nat>)
    ensures forall k :: k in keys && k in index ==> index[k] in s
    ensures forall j :: j in s ==> exists k :: k in keys && k in index && index[k] == j
  {
    set k | k in keys && k in index :: index[k]
  }

  /** The log with ShouldSave set at the given positions. */
  function Flagged(entries: seq<KeyInfo>, positions: set<nat>): (e: seq<KeyInfo>)
    ensures |e| == |entries|
    ensures forall i :: 0 <= i < |e| ==> e[i].key == entries[i].key
    ensures forall i :: 0 <= i < |e| ==> (e[i].shouldSave <==> entries[i].shouldSave || i in positions)
  {
    seq(|entries|, i requires 0 <= i < |entries| =>
      if i in positions then entries[i].(shouldSave := true) else entries[i])
  }

  /** Where pruneUntil cuts the log: just after the first entry for root, or after the
      whole log when root is not listed. */
  function CutPoint(keys: seq<Bytes>, root: Bytes): (c: nat)
    ensures c <= |keys|
    ensures root in keys ==> 0 < c && keys[c - 1] == root && forall i :: 0 <= i < c - 1 ==> keys[i] != root
    ensures root !in keys ==> c == |keys|
  {
    if keys == [] then 0
    else if keys[0] == root then 1
    else 1 + CutPoint(keys[1..], root)
  }

  /** The keys each listed at least once. */
  function KeySet(keys: seq<Bytes>): set<Bytes> {
    set k | k in keys
  }

  /** Unindexing one more entry of the log removes exactly its key. */
  lemma UnindexStep(m: map<Bytes, nat>, keys: seq<Bytes>, i: nat)
    requires i < |keys|
    ensures m - KeySet(keys[..i + 1]) == (m - KeySet(keys[..i])) - {keys[i]}
  {
    assert keys[..i + 1] == keys[..i] + [keys[i]];
    assert KeySet(keys[..i + 1]) == KeySet(keys[..i]) + {keys[i]};
  }

  /** Unindexing the pruned prefix leaves only keys that the remainder lists. */
  lemma UnindexedKeysRemain(keys: seq<Bytes>, c: nat)
    requires c <= |keys|
    ensures (LastIndex(keys) - KeySet(keys[..c])).Keys <= KeySet(keys[c..])
  {
    LastIndexSpec(keys);
    forall k | k in LastIndex(keys) - KeySet(keys[..c])
      ensures k in keys[c..]
    {
      var i := LastIndex(keys)[k];
      assert keys[i] == k;
      if c <= i {
        assert keys[c..][i - c] == k;
      }
    }
  }

  /** Reindexing a log over an index of some of its keys gives the log's own index. */
  lemma ReindexOverrides(m: map<Bytes, nat>, keys: seq<Bytes>)
    requires m.Keys <= KeySet(keys)
    ensures m + LastIndex(keys) == LastIndex(keys)
  {
    LastIndexSpec(keys);
  }

  /** The central promise of SaveNodesForRoot about the pruned prefix: with no key listed
      twice, a pruned key is deleted exactly when it was not saved before and the traversal
      did not flag it. */
  lemma {:induction false} PrunedKeyDroppedIffUnmarked(entries: seq<KeyInfo>, marked: set<Bytes>, c: nat, i: nat)
    requires NoDuplicateKeys(entries)
    requires i < c <= |entries|
    ensures entries[i].key in DroppedKeys(Flagged(entries, IndicesOf(LastIndex(KeysOf(entries)), marked))[..c])
            <==> !entries[i].shouldSave && entries[i].key !in marked
  {
    var index := LastIndex(KeysOf(entries));
    var f := Flagged(entries, IndicesOf(index, marked));
    var k := entries[i].key;
    IndexOfUnique(entries, i);
    LastIndexSpec(KeysOf(entries));
    assert i in IndicesOf(index, marked) <==> k in marked by {
      if i in IndicesOf(index, marked) {
        var k' :| k' in marked && k' in index && index[k'] == i;
        assert KeysOf(entries)[index[k']] == k';
      }
    }
    assert f[..c][i] == f[i];
    if k in DroppedKeys(f[..c]) {
      var j :| 0 <= j < c && f[..c][j].key == k && !f[..c][j].shouldSave;
      assert f[j].key == entries[j].key;
      assert j == i;
    }
  }

  /** With the Go Set (always appending), setting the same node twice and marking it leaves
      its first, unflagged entry in the log, so pruning deletes the marked node. */
  lemma AsWrittenDuplicateIsDeleted(key: Bytes, value: Bytes)
    ensures var entries := RecordAsWritten(RecordAsWritten([], key), key);
            var index := LastIndex(KeysOf(entries));
            var f := Flagged(entries, IndicesOf(index, {key}));
            key in DroppedKeys(f) &&
            (map[key := value] - DroppedKeys(f)) == map[]
  {
    var entries := RecordAsWritten(RecordAsWritten([], key), key);
    assert entries == [KeyInfo(key, false), KeyInfo(key, false)];
    var index := LastIndex(KeysOf(entries));
    assert KeysOf(entries) == [key, key];
    assert [key, key][..1] == [key];
    assert LastIndex([key]) == map[key := 0];
    assert index == map[key := 1];
    var f := Flagged(entries, IndicesOf(index, {key}));
    assert !f[0].shouldSave && f[0].key == key;
  }

  // ---------------------------------------------------------------------------------
  // The wrapper

  class Wrapper {
    const base: MemMapStore
    const hashSize: nat
    const placeholder: Bytes
    var newEntries: seq<KeyInfo>
    var newEntriesMap: map<Bytes, nat>

    ghost function Repr(): set<object> {
      {this, base}
    }

    /** The placeholder is hashSize zero bytes, the log lists each key once, every logged
        key is stored in the base store, and the index maps every logged key to its
        position. */
    ghost predicate Valid()
      reads this, base
    {
      placeholder == Zeros(hashSize) &&
      NoDuplicateKeys(newEntries) &&
      (forall i :: 0 <= i < |newEntries| ==> newEntries[i].key in base.mem) &&
      newEntriesMap == LastIndex(KeysOf(newEntries))
    }

    /** Wrap: an empty log over the given base store. */
    constructor Wrap(hashSize: nat, base: MemMapStore)
      ensures Valid()
      ensures this.base == base && this.hashSize == hashSize
      ensures newEntries == [] && newEntriesMap == map[]
    {
      this.base := base;
      this.hashSize := hashSize;
      newEntries := [];
      newEntriesMap := map[];
      placeholder := Zeros(hashSize);
    }

    /** The placeholder key reads as the empty node; other keys come from the base store. */
    method Get(key: Bytes) returns (r: Result<Bytes>)
      requires Valid()
      ensures key == Zeros(hashSize) ==> r == Ok([])
      ensures key != Zeros(hashSize) && key in base.mem ==> r == Ok(base.mem[key])
      ensures key != Zeros(hashSize) && key !in base.mem ==> r == Err(NoSuchKey(key))
    {
      if key == placeholder {
        return Ok([]);
      }
      r := base.Get(key);
    }

    /** Stores a node: refuses the placeholder; a base-store error changes nothing; on
        success the key is logged as a new, unsaved entry. */
    method Set(key: Bytes, value: Bytes) returns (err: Option<Error>)
      requires Valid()
      modifies this, base
      ensures Valid()
      ensures key == placeholder ==> err == Some(CannotSetPlaceholder)
      ensures key != placeholder && key in old(base.mem) && old(base.mem)[key] != value ==>
                err == Some(SetExistingKey(key))
      ensures err.Some? ==> base.mem == old(base.mem) && newEntries == old(newEntries)
      ensures key != placeholder && (key !in old(base.mem) || old(base.mem)[key] == value) ==>
                err == None && base.mem == old(base.mem)[key := value] &&
                newEntries == Record(old(newEntries), key)
    {
      if key == placeholder {
        return Some(CannotSetPlaceholder);
      }
      err := base.Set(key, value);
      if err.Some? {
        return;
      }
      RecordKeepsKeysUnique(newEntries, key);
      RecordStored(newEntries, old(base.mem), key, value);
      LastIndexSpec(KeysOf(newEntries));
      if key !in newEntriesMap {
        LastIndexAppend(newEntries, KeyInfo(key, false));
        newEntriesMap := newEntriesMap[key := |newEntries|];
        newEntries := newEntries + [KeyInfo(key, false)];
      }
    }

    /** Deleting single nodes is not supported by the base store. */
    method Delete(key: Bytes) returns (err: Option<Error>)
      ensures err == Some(DeleteNotSupported)
    {
      err := base.Delete(key);
    }

    /** The number of nodes in the base store. */
    method Size() returns (n: nat)
      ensures n == |base.mem|
    {
      n := base.Size();
    }

    method HashSize() returns (n: nat)
      ensures n == hashSize
    {
      return hashSize;
    }

    /** A copy of the placeholder: hashSize zero bytes. */
    method Placeholder() returns (p: Bytes)
      requires Valid()
      ensures |p| == hashSize && forall i :: 0 <= i < |p| ==> p[i] == 0
    {
      p := placeholder;
    }

    /** markToSave's `mark` with its side effect: a new node's log entry is flagged. */
    method MarkEntry(hash: Bytes) returns (res: HandlerResult)
      requires Valid()
      modifies this
      ensures Valid() && newEntriesMap == old(newEntriesMap)
      ensures res == Mark(newEntriesMap, placeholder, hash)
      ensures newEntries == Flagged(old(newEntries), IndicesOf(newEntriesMap, MarkSet(newEntriesMap, placeholder, hash)))
    {
      res := Mark(newEntriesMap, placeholder, hash);
      ghost var positions := IndicesOf(newEntriesMap, MarkSet(newEntriesMap, placeholder, hash));
      if res == Proceed {
        LastIndexSpec(KeysOf(newEntries));
        var j := newEntriesMap[hash];
        assert positions == {j};
        FlagOne(newEntries, j);
        newEntries := newEntries[j := newEntries[j].(shouldSave := true)];
      } else {
        assert positions == {};
      }
    }

    /** markToSave: walks from root with the marking handlers and flags the log entry of
        every new node the walk reaches (and, for a new leaf, of its value); the walk's
        error is returned, after the flags set so far. */
    method MarkToSave(root: Bytes, fuel: nat) returns (err: Option<Error>)
      requires Valid()
      modifies this
      ensures Valid() && newEntriesMap == old(newEntriesMap)
      ensures var t := Traverse(base.mem, hashSize, root, MarkHandlers(newEntriesMap, placeholder), fuel);
              err == t.error &&
              newEntries == Flagged(old(newEntries), IndicesOf(newEntriesMap, MarkedKeys(newEntriesMap, placeholder, t.visits)))
    {
      var t := Traverse(base.mem, hashSize, root, MarkHandlers(newEntriesMap, placeholder), fuel);
      ApplyMarks(t.visits);
      err := t.error;
    }

    /** The side effects of the marking handlers, applied call by call in traversal order. */
    method ApplyMarks(visits: seq<Visit>)
      requires Valid()
      modifies this
      ensures Valid() && newEntriesMap == old(newEntriesMap)
      ensures newEntries == Flagged(old(newEntries), IndicesOf(newEntriesMap, MarkedKeys(newEntriesMap, placeholder, visits)))
    {
      var i := 0;
      while i < |visits|
        invariant 0 <= i <= |visits|
        invariant Valid() && newEntriesMap == old(newEntriesMap)
        invariant newEntries == Flagged(old(newEntries), IndicesOf(newEntriesMap, MarkedKeys(newEntriesMap, placeholder, visits[..i])))
      {
        ghost var done := MarkedKeys(newEntriesMap, placeholder, visits[..i]);
        assert visits[..i + 1][..i] == visits[..i];
        ApplyVisit(visits[i]);
        FlaggedStep(old(newEntries), newEntriesMap, done, VisitMarks(newEntriesMap, placeholder, visits[i]));
        i := i + 1;
      }
      assert visits[..i] == visits;
    }

    /** The side effect of the marking handler for one traversal call. */
    method ApplyVisit(v: Visit)
      requires Valid()
      modifies this
      ensures Valid() && newEntriesMap == old(newEntriesMap)
      ensures newEntries == Flagged(old(newEntries), IndicesOf(newEntriesMap, VisitMarks(newEntriesMap, placeholder, v)))
    {
      match v {
        case NodeVisit(hash, _, _) =>
          var _ := MarkEntry(hash);
        case LeafVisit(_, hash, valueHash) =>
          var res := MarkEntry(hash);
          if res == Proceed {
            var _ := MarkEntry(valueHash);
            FlaggedStep(old(newEntries), newEntriesMap, {hash}, MarkSet(newEntriesMap, placeholder, valueHash));
          } else {
            assert IndicesOf(newEntriesMap, {}) == {};
          }
      }
    }

    /** pruneUntil's first loop: unindexes the log entries up to and including the first
        one for root (all of them when root is not listed); returns that entry's position
        (the position before the log's end when root is not listed). */
    method UnindexUntil(root: Bytes) returns (rootIndex: int)
      requires Valid()
      modifies this
      ensures newEntries == old(newEntries)
      ensures rootIndex + 1 == CutPoint(KeysOf(newEntries), root)
      ensures newEntriesMap == LastIndex(KeysOf(newEntries)) - KeySet(KeysOf(newEntries)[..rootIndex + 1])
    {
      ghost var keys := KeysOf(newEntries);
      ghost var c := CutPoint(keys, root);
      rootIndex := |newEntries|;
      var i := 0;
      while i < |newEntries|
        invariant newEntries == old(newEntries)
        invariant 0 <= i <= |newEntries| && i <= c
        invariant forall j :: 0 <= j < i ==> keys[j] != root
        invariant newEntriesMap == LastIndex(keys) - KeySet(keys[..i])
        invariant rootIndex == |newEntries|
      {
        UnindexStep(LastIndex(keys), keys, i);
        newEntriesMap := newEntriesMap - {newEntries[i].key};
        if newEntries[i].key == root {
          rootIndex := i;
          return;
        }
        i := i + 1;
      }
      assert keys[..i] == keys;
      rootIndex := rootIndex - 1;
    }

    /** pruneUntil's reindexing loop: each entry's key is indexed at its position. */
    method Reindex()
      requires newEntriesMap.Keys <= KeySet(KeysOf(newEntries))
      modifies this
      ensures newEntries == old(newEntries)
      ensures newEntriesMap == LastIndex(KeysOf(newEntries))
    {
      ghost var m := newEntriesMap;
      var j := 0;
      while j < |newEntries|
        invariant 0 <= j <= |newEntries|
        invariant newEntries == old(newEntries)
        invariant newEntriesMap == m + LastIndex(KeysOf(newEntries)[..j])
      {
        assert KeysOf(newEntries)[..j + 1][..j] == KeysOf(newEntries)[..j];
        newEntriesMap := newEntriesMap[newEntries[j].key := j];
        j := j + 1;
      }
      assert KeysOf(newEntries)[..j] == KeysOf(newEntries);
      ReindexOverrides(m, KeysOf(newEntries));
    }

    /** pruneUntil: drops from the log every entry up to and including the first one for
        root (all of them when root is not listed), deletes the unsaved ones among them
        from the base store, and reindexes the rest. */
    method PruneUntil(root: Bytes) returns (err: Option<Error>)
      requires Valid()
      modifies this, base
      ensures Valid()
      ensures var c := CutPoint(KeysOf(old(newEntries)), root);
              err == None &&
              newEntries == old(newEntries)[c..] &&
              base.mem == old(base.mem) - DroppedKeys(old(newEntries)[..c])
    {
      ghost var keys := KeysOf(newEntries);
      var rootIndex := UnindexUntil(root);
      ghost var c := rootIndex + 1;
      var toProcess := newEntries[..rootIndex + 1];
      var rest := newEntries[rootIndex + 1..];
      err := base.ProcessKeys(toProcess);
      newEntries := rest;
      SuffixKeys(old(newEntries), c);
      UnindexedKeysRemain(keys, c);
      Reindex();
      SuffixKeysUnique(old(newEntries), c);
      SuffixKeysKept(old(newEntries), c, old(base.mem));
    }

    /** SaveNodesForRoot: markToSave, then (when the walk succeeded) pruneUntil. */
    method SaveNodesForRoot(root: Bytes, fuel: nat) returns (err: Option<Error>)
      requires Valid()
      modifies this, base
      ensures Valid()
      ensures var t := Traverse(old(base.mem), hashSize, root, MarkHandlers(old(newEntriesMap), placeholder), fuel);
              var flagged := Flagged(old(newEntries), IndicesOf(old(newEntriesMap), MarkedKeys(old(newEntriesMap), placeholder, t.visits)));
              var c := CutPoint(KeysOf(old(newEntries)), root);
              err == t.error &&
              (t.error.Some? ==> newEntries == flagged && base.mem == old(base.mem)) &&
              (t.error.None? ==> newEntries == flagged[c..] && base.mem == old(base.mem) - DroppedKeys(flagged[..c]))
    ensures var t := Traverse(old(base.mem), hashSize, root, MarkHandlers(old(newEntriesMap), placeholder), fuel);
            var c := CutPoint(KeysOf(old(newEntries)), root);
            t.error.None? ==>
              (forall i :: 0 <= i < c ==>
                 (old(newEntries)[i].key !in base.mem <==>
                  !old(newEntries)[i].shouldSave &&
                  !NewReachable(old(base.mem), hashSize, old(newEntriesMap), placeholder, root, old(newEntries)[i].key, fuel))) &&
              (forall j :: c <= j < |old(newEntries)| ==> old(newEntries)[j].key in base.mem) &&
              (forall k :: k in old(base.mem) && k !in KeysOf(old(newEntries)) ==> k in base.mem)
    {
      err := MarkToSave(root, fuel);
      if err.Some? {
        return;
      }
      assert KeysOf(newEntries) == KeysOf(old(newEntries));
      err := PruneUntil(root);
      SaveKeepsNewReachable(old(newEntries), old(base.mem), hashSize, root, fuel);
    }
  }

  /** The outcome of a successful SaveNodesForRoot on a log without duplicates: of the
      pruned entries, exactly those neither saved before nor new-reachable from root are
      deleted; no entry after the cut and no unlogged key is deleted. */
  lemma SaveKeepsNewReachable(entries: seq<KeyInfo>, store: map<Bytes, Bytes>, hashSize: nat, root: Bytes, fuel: nat)
    requires NoDuplicateKeys(entries)
    requires Traverse(store, hashSize, root, MarkHandlers(LastIndex(KeysOf(entries)), Zeros(hashSize)), fuel).error == None
    ensures var index := LastIndex(KeysOf(entries));
            var t := Traverse(store, hashSize, root, MarkHandlers(index, Zeros(hashSize)), fuel);
            var dropped := DroppedKeys(Flagged(entries, IndicesOf(index, MarkedKeys(index, Zeros(hashSize), t.visits)))[..CutPoint(KeysOf(entries), root)]);
            (forall i :: 0 <= i < CutPoint(KeysOf(entries), root) ==>
               (entries[i].key in dropped <==>
                !entries[i].shouldSave && !NewReachable(store, hashSize, index, Zeros(hashSize), root, entries[i].key, fuel))) &&
            (forall j :: CutPoint(KeysOf(entries), root) <= j < |entries| ==> entries[j].key !in dropped) &&
            (forall k :: k in dropped ==> k in KeysOf(entries))
  {
    var index := LastIndex(KeysOf(entries));
    var ph := Zeros(hashSize);
    var t := Traverse(store, hashSize, root, MarkHandlers(index, ph), fuel);
    var marked := MarkedKeys(index, ph, t.visits);
    var flagged := Flagged(entries, IndicesOf(index, marked));
    var c := CutPoint(KeysOf(entries), root);
    forall i | 0 <= i < c
      ensures entries[i].key in DroppedKeys(flagged[..c]) <==>
              !entries[i].shouldSave && !NewReachable(store, hashSize, index, ph, root, entries[i].key, fuel)
    {
      PrunedKeyDroppedIffUnmarked(entries, marked, c, i);
      MarkedIffNewReachable(store, hashSize, index, ph, root, fuel, entries[i].key);
    }
    DroppedAreListed(entries, flagged, c);
  }

  /** Only keys of the pruned prefix are deleted. */
  lemma DroppedAreListed(entries: seq<KeyInfo>, flagged: seq<KeyInfo>, c: nat)
    requires NoDuplicateKeys(entries) && |flagged| == |entries| && c <= |entries|
    requires forall i :: 0 <= i < |flagged| ==> flagged[i].key == entries[i].key
    ensures forall j :: c <= j < |entries| ==> entries[j].key !in DroppedKeys(flagged[..c])
    ensures forall k :: k in DroppedKeys(flagged[..c]) ==> k in KeysOf(entries)
  {
    forall k | k in DroppedKeys(flagged[..c])
      ensures k in KeysOf(entries)
    {
      var i :| 0 <= i < c && flagged[..c][i].key == k && !flagged[..c][i].shouldSave;
      assert KeysOf(entries)[i] == k;
    }
  }

  /** Flagging the entry at j keeps every key in place. */
  lemma FlagOne(entries: seq<KeyInfo>, j: nat)
    requires j < |entries|
    ensures var e := entries[j := entries[j].(shouldSave := true)];
      e == Flagged(entries, {j}) && KeysOf(e) == KeysOf(entries) &&
      forall i :: 0 <= i < |e| ==> e[i].key == entries[i].key
  {
    var e := entries[j := entries[j].(shouldSave := true)];
    assert KeysOf(e) == KeysOf(entries);
  }

  /** Flagging one more set of keys extends the flagged positions. */
  lemma FlaggedStep(entries: seq<KeyInfo>, index: map<Bytes, nat>, done: set<Bytes>, more: set<Bytes>)
    ensures Flagged(Flagged(entries, IndicesOf(index, done)), IndicesOf(index, more)) ==
            Flagged(entries, IndicesOf(index, done + more))
  {
    assert IndicesOf(index, done + more) == IndicesOf(index, done) + IndicesOf(index, more);
  }

  /** NewMem: a wrapper over a fresh, empty in-memory store. */
  method NewMem(hashSize: nat) returns (w: Wrapper)
    ensures fresh(w) && fresh(w.base)
    ensures w.Valid() && w.hashSize == hashSize
    ensures w.base.mem == map[] && w.newEntries == []
  {
    var b := new MemMapStore();
    w := new Wrapper.Wrap(hashSize, b);
  }
}

/** The package's own test fixture, as values: seven 4-byte node hashes (written as their
    ASCII text), two of them orphans, and the expected traversal order from "abcd". */
module MapStoreFixture {
  import opened Types
  import opened MemStore
  import opened MapStore

  const ABCD: Bytes := [97, 98, 99, 100]   // "abcd"
  const EFGH: Bytes := [101, 102, 103, 104] // "efgh"
  const EERI: Bytes := [101, 101, 114, 105] // "eeri"
  const PIFT: Bytes := [112, 105, 102, 116] // "pift"
  const N1E04: Bytes := [49, 101, 48, 52]  // "1e04"
  const R2ER: Bytes := [114, 50, 101, 114]  // "r2er"
  const ADHT: Bytes := [97, 100, 104, 116]  // "adht"
  const N1E05: Bytes := [49, 101, 48, 53]  // "1e05"
  const R3ER: Bytes := [114, 51, 101, 114]  // "r3er"
  const ASRG: Bytes := [97, 115, 114, 103]  // "asrg"
  const N4YSA: Bytes := [52, 121, 115, 97] // "4ysa"
  const TYUI: Bytes := [116, 121, 117, 105] // "tyui"
  const ASDF: Bytes := [97, 115, 100, 102]  // "asdf"
  const CVBF: Bytes := [99, 118, 98, 102]   // "cvbf"
  const N345H: Bytes := [51, 52, 53, 104]  // "345h"
  const ASXC: Bytes := [97, 115, 120, 99]   // "asxc"
  const N04IP: Bytes := [48, 52, 105, 112] // "04ip"

  function NodeData(prefix: byte, a: Bytes, b: Bytes): Bytes {
    [prefix] + a + b
  }

  /** The store after setting the seven test nodes. */
  function FixtureStore(): map<Bytes, Bytes> {
    map[ABCD := NodeData(NodePrefix, EFGH, EERI),
        EFGH := NodeData(NodePrefix, N1E04, R2ER),
        EERI := NodeData(LeafPrefix, N1E05, R3ER),
        PIFT := NodeData(LeafPrefix, ASRG, N4YSA),
        N1E04 := NodeData(LeafPrefix, TYUI, ASDF),
        R2ER := NodeData(LeafPrefix, CVBF, N345H),
        ADHT := NodeData(NodePrefix, ASXC, N04IP)]
  }

  /** From "abcd", a traversal visits abcd, efgh, 1e04, r2er, eeri in that order, each
      with its stored children or leaf path and value hash, and succeeds. */
  lemma FixtureTraversalOrder()
    ensures Traverse(FixtureStore(), 4, ABCD, ProceedAll(), 3) == Traversal(FixtureVisits(), None)
  {
    var st := FixtureStore();
    assert Zeros(4) == [0, 0, 0, 0];
    assert Traverse(st, 4, N1E04, ProceedAll(), 1) == Traversal([LeafVisit(TYUI, N1E04, ASDF)], None);
    assert Traverse(st, 4, R2ER, ProceedAll(), 1) == Traversal([LeafVisit(CVBF, R2ER, N345H)], None);
    assert Traverse(st, 4, EERI, ProceedAll(), 2) == Traversal([LeafVisit(N1E05, EERI, R3ER)], None);
    assert Traverse(st, 4, EFGH, ProceedAll(), 2) ==
           Traversal([NodeVisit(EFGH, N1E04, R2ER), LeafVisit(TYUI, N1E04, ASDF), LeafVisit(CVBF, R2ER, N345H)], None);
  }

  /** The traversal order from "abcd". */
  function FixtureVisits(): seq<Visit> {
    [NodeVisit(ABCD, EFGH, EERI), NodeVisit(EFGH, N1E04, R2ER),
     LeafVisit(TYUI, N1E04, ASDF), LeafVisit(CVBF, R2ER, N345H), LeafVisit(N1E05, EERI, R3ER)]
  }

  /** Which hashes `mark` accepts over an index of the seven fixture keys. */
  lemma FixtureMarks(index: map<Bytes, nat>)
    requires index.Keys == {ADHT, R2ER, N1E04, PIFT, EERI, EFGH, ABCD}
    ensures forall k :: k in {ABCD, EFGH, N1E04, R2ER, EERI} ==> Mark(index, Zeros(4), k) == Proceed
    ensures forall k :: k in {ASDF, N345H, R3ER} ==> Mark(index, Zeros(4), k) == SkipBranch
  {
    assert Zeros(4) == [0, 0, 0, 0];
  }

  /** Marking from "abcd" over the fixture visits the five rooted nodes and succeeds. */
  lemma FixtureMarkTraversal(index: map<Bytes, nat>)
    requires index.Keys == {ADHT, R2ER, N1E04, PIFT, EERI, EFGH, ABCD}
    ensures Traverse(FixtureStore(), 4, ABCD, MarkHandlers(index, Zeros(4)), 3) == Traversal(FixtureVisits(), None)
  {
    FixtureMarkSubtrees(index);
    FixtureMarks(index);
    assert Zeros(4) == [0, 0, 0, 0];
  }

  /** Marking the two subtrees below "abcd". */
  lemma FixtureMarkSubtrees(index: map<Bytes, nat>)
    requires index.Keys == {ADHT, R2ER, N1E04, PIFT, EERI, EFGH, ABCD}
    ensures var h := MarkHandlers(index, Zeros(4));
      Traverse(FixtureStore(), 4, EERI, h, 2) == Traversal([LeafVisit(N1E05, EERI, R3ER)], None) &&
      Traverse(FixtureStore(), 4, EFGH, h, 2) ==
        Traversal([NodeVisit(EFGH, N1E04, R2ER), LeafVisit(TYUI, N1E04, ASDF), LeafVisit(CVBF, R2ER, N345H)], None)
  {
    FixtureMarks(index);
    var st := FixtureStore();
    var h := MarkHandlers(index, Zeros(4));
    assert Zeros(4) == [0, 0, 0, 0];
    assert Traverse(st, 4, N1E04, h, 1) == Traversal([LeafVisit(TYUI, N1E04, ASDF)], None);
    assert Traverse(st, 4, R2ER, h, 1) == Traversal([LeafVisit(CVBF, R2ER, N345H)], None);
  }

  /** The marking flags the five rooted nodes, but no leaf value (none is a logged key). */
  lemma FixtureMarkedKeys(index: map<Bytes, nat>)
    requires index.Keys == {ADHT, R2ER, N1E04, PIFT, EERI, EFGH, ABCD}
    ensures MarkedKeys(index, Zeros(4), FixtureVisits()) == {ABCD, EFGH, N1E04, R2ER, EERI}
  {
    FixtureMarks(index);
    assert Zeros(4) == [0, 0, 0, 0];
    var vs := FixtureVisits();
    var ph := Zeros(4);
    assert VisitMarks(index, ph, vs[0]) == {ABCD};
    assert VisitMarks(index, ph, vs[1]) == {EFGH};
    assert VisitMarks(index, ph, vs[2]) == {N1E04};
    assert VisitMarks(index, ph, vs[3]) == {R2ER};
    assert VisitMarks(index, ph, vs[4]) == {EERI};
    assert vs[..1][..0] == [];
    assert MarkedKeys(index, ph, vs[..1]) == {ABCD};
    assert vs[..2][..1] == vs[..1];
    assert MarkedKeys(index, ph, vs[..2]) == {ABCD, EFGH};
    assert vs[..3][..2] == vs[..2];
    assert MarkedKeys(index, ph, vs[..3]) == {ABCD, EFGH, N1E04};
    assert vs[..4][..3] == vs[..3];
    assert MarkedKeys(index, ph, vs[..4]) == {ABCD, EFGH, N1E04, R2ER};
    assert vs[..4] == vs[..|vs| - 1];
  }

  /** Of the seven fixture keys, the two orphans are exactly those outside the rooted five. */
  lemma FixtureOrphans(k: Bytes)
    requires k in {ADHT, R2ER, N1E04, PIFT, EERI, EFGH, ABCD}
    ensures k !in {ABCD, EFGH, N1E04, R2ER, EERI} <==> k in {PIFT, ADHT}
  {
  }

  /** SaveNodesForRoot("abcd") after the seven nodes were set (in any order in which the
      root comes last, none saved yet): the marking traversal succeeds, the whole log is
      pruned, and a logged node is deleted exactly when it is one of the two orphans. */
  lemma FixtureSaveDropsOrphans(entries: seq<KeyInfo>, i: nat)
    requires NoDuplicateKeys(entries)
    requires KeySet(KeysOf(entries)) == {ADHT, R2ER, N1E04, PIFT, EERI, EFGH, ABCD}
    requires forall j :: 0 <= j < |entries| ==> !entries[j].shouldSave
    requires 0 < |entries| && entries[|entries| - 1].key == ABCD
    requires i < |entries|
    ensures var index := LastIndex(KeysOf(entries));
            var t := Traverse(FixtureStore(), 4, ABCD, MarkHandlers(index, Zeros(4)), 3);
            var flagged := Flagged(entries, IndicesOf(index, MarkedKeys(index, Zeros(4), t.visits)));
            var c := CutPoint(KeysOf(entries), ABCD);
            t.error == None && c == |entries| &&
            (entries[i].key in DroppedKeys(flagged[..c]) <==> entries[i].key in {PIFT, ADHT})
  {
    var keys := KeysOf(entries);
    var k := entries[i].key;
    assert keys[i] == k;
    assert k in KeySet(keys);
    FixtureOrphans(k);
    var index := LastIndex(keys);
    assert index.Keys == {ADHT, R2ER, N1E04, PIFT, EERI, EFGH, ABCD} by {
      LastIndexSpec(keys);
    }
    FixtureMarkTraversal(index);
    FixtureMarkedKeys(index);
    CutAtLastEntry(entries, ABCD);
    PrunedKeyDroppedIffUnmarked(entries, {ABCD, EFGH, N1E04, R2ER, EERI}, |entries|, i);
  }
}
