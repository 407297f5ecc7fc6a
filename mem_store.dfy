/** The in-memory base node store behind the sparse Merkle tree: a write-once map from
    node hash to node data, which deletes only through ProcessKeys. */
module MemStore {
  import opened Types

  /** A key of the insertion log, and whether it must survive the next prune. */
  datatype KeyInfo = KeyInfo(key: Bytes, shouldSave: bool)

  /** The keys ProcessKeys deletes: those listed at least once with ShouldSave false. */
  function DroppedKeys(keys: seq<KeyInfo>): (d: set<Bytes>)
    ensures forall k :: k in d <==> exists i :: 0 <= i < |keys| && keys[i].key == k && !keys[i].shouldSave
  {
    if keys == [] then {}
    else
      var last := keys[|keys| - 1];
      var rest := DroppedKeys(keys[..|keys| - 1]);
      assert forall i :: 0 <= i < |keys| - 1 ==> keys[..|keys| - 1][i] == keys[i];
      if last.shouldSave then rest else rest + {last.key}
  }

  class MemMapStore {
    var mem: map<Bytes, Bytes>

    constructor ()
      ensures mem == map[]
    {
      mem := map[];
    }

    /** The stored value (a copy, equal to it), or an error for a missing key. */
    method Get(key: Bytes) returns (r: Result<Bytes>)
      ensures key in mem ==> r == Ok(mem[key])
      ensures key !in mem ==> r == Err(NoSuchKey(key))
    {
      if key !in mem {
        return Err(NoSuchKey(key));
      }
      var v := mem[key];
      var copy := new byte[|v|];
      var i := 0;
      while i < copy.Length
        invariant 0 <= i <= copy.Length
        invariant copy[..i] == v[..i]
      {
        copy[i] := v[i];
        i := i + 1;
      }
      assert copy[..] == copy[..i] && v[..i] == v;
      return Ok(copy[..]);
    }

    /** Write-once: a new key is stored; the same value again is a successful no-op;
        a different value for a stored key is an error and changes nothing. */
    method Set(key: Bytes, value: Bytes) returns (err: Option<Error>)
      modifies this
      ensures key !in old(mem) ==> err == None && mem == old(mem)[key := value]
      ensures key in old(mem) && old(mem)[key] == value ==> err == None && mem == old(mem)
      ensures key in old(mem) && old(mem)[key] != value ==> err == Some(SetExistingKey(key)) && mem == old(mem)
    {
      if key in mem {
        if value == mem[key] {
          return None;
        } else {
          return Some(SetExistingKey(key));
        }
      }
      mem := mem[key := value];
      return None;
    }

    /** Deleting single keys is not supported. */
    method Delete(key: Bytes) returns (err: Option<Error>)
      ensures err == Some(DeleteNotSupported)
    {
      return Some(DeleteNotSupported);
    }

    /** The number of stored nodes. */
    method Size() returns (n: nat)
      ensures n == |mem|
    {
      return |mem|;
    }

    /** Deletes exactly the listed keys whose ShouldSave is false; never fails. */
    method ProcessKeys(keys: seq<KeyInfo>) returns (err: Option<Error>)
      modifies this
      ensures err == None
      ensures mem == old(mem) - DroppedKeys(keys)
    {
      var i := 0;
      while i < |keys|
        invariant 0 <= i <= |keys|
        invariant mem == old(mem) - DroppedKeys(keys[..i])
      {
        assert keys[..i + 1][..i] == keys[..i];
        if !keys[i].shouldSave {
          mem := mem - {keys[i].key};
        }
        i := i + 1;
      }
      assert keys[..i] == keys;
      return None;
    }
  }

  /** Storing a fresh key raises the size by one. */
  lemma FreshKeyGrowsSize(mem: map<Bytes, Bytes>, key: Bytes, value: Bytes)
    requires key !in mem
    ensures |mem[key := value]| == |mem| + 1
  {
    assert mem[key := value].Keys == mem.Keys + {key};
  }
}
