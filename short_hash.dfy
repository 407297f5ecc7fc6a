/** TruncatedHash: a hash.Hash that reports only the first `size` bytes of another hash's
    digest (used to get short node hashes in tests). The wrapped hash's running state is
    the data written to it since the last Reset; its digest function is a parameter. */
module ShortHash {
  import opened Types

  /** crypto/sha256: a 32-byte digest over 64-byte blocks. */
  const SHA256Size: nat := 32
  const SHA256BlockSize: nat := 64

  /** A hash.Hash: `digest` maps everything written to the full digest of `size` bytes. */
  class BaseHash {
    const digest: Bytes -> Bytes
    const size: nat
    const blockSize: nat
    var written: Bytes

    /** Every digest has the advertised size. */
    ghost predicate Valid() {
      forall data: Bytes :: |digest(data)| == size
    }

    constructor (digest: Bytes -> Bytes, size: nat, blockSize: nat)
      ensures this.digest == digest && this.size == size && this.blockSize == blockSize
      ensures written == []
    {
      this.digest := digest;
      this.size := size;
      this.blockSize := blockSize;
      written := [];
    }

    /** Sum: b followed by the digest of the data written so far; the state is kept. */
    function Sum(b: Bytes): (r: Bytes)
      reads this
      requires Valid()
      ensures |r| == |b| + size && r[..|b|] == b
    {
      b + digest(written)
    }

    /** Write adds the data to the running hash; it never fails. */
    method Write(p: Bytes) returns (n: nat, err: Option<Error>)
      modifies this
      ensures written == old(written) + p
      ensures n == |p| && err == None
    {
      written := written + p;
      return |p|, None;
    }

    method Reset()
      modifies this
      ensures written == []
    {
      written := [];
    }
  }

  /** sha256.New(): a fresh SHA-256 state; `sha256` is the digest function. */
  method NewSHA256(sha256: Bytes -> Bytes) returns (h: BaseHash)
    requires forall data: Bytes :: |sha256(data)| == SHA256Size
    ensures fresh(h) && h.Valid() && h.written == []
    ensures h.digest == sha256 && h.size == SHA256Size && h.blockSize == SHA256BlockSize
  {
    h := new BaseHash(sha256, SHA256Size, SHA256BlockSize);
  }

  class TruncatedHash {
    const base: BaseHash
    /** Go's `int`: TruncateHash bounds it from above only. */
    const size: int

    ghost predicate Valid() {
      base.Valid() && size <= base.size
    }

    constructor (base: BaseHash, size: int)
      ensures this.base == base && this.size == size
    {
      this.base := base;
      this.size := size;
    }

    /** Sum: b followed by the first `size` bytes of the base digest; the state is kept.
        A negative size makes the slice expression panic. */
    function Sum(b: Bytes): (r: Result<Bytes>)
      reads base
      requires Valid()
      ensures size < 0 <==> r.Err?
      ensures r.Err? ==> r.error.Panic?
      ensures r.Ok? ==> |r.value| == |b| + size && r.value[..|b|] == b
    {
      if size < 0 then Err(Panic("slice bounds out of range"))
      else
        var tmp := base.Sum([]);
        Ok(b + tmp[..size])
    }

    /** The number of bytes Sum appends. */
    function Size(): int {
      size
    }

    /** The base hash's block size. */
    function BlockSize(): nat {
      base.blockSize
    }

    /** Write forwards to the base hash. */
    method Write(p: Bytes) returns (n: nat, err: Option<Error>)
      modifies base
      ensures base.written == old(base.written) + p
      ensures n == |p| && err == None
    {
      n, err := base.Write(p);
    }

    /** Reset forwards to the base hash. */
    method Reset()
      modifies base
      ensures base.written == []
    {
      base.Reset();
    }
  }

  /** TruncateHash: panics when the size exceeds the base hash's; otherwise wraps it. */
  method TruncateHash(base: BaseHash, size: int) returns (r: Result<TruncatedHash>)
    requires base.Valid()
    ensures r.Err? <==> size > base.size
    ensures r.Err? ==> r.error == Panic("size too large")
    ensures r.Ok? ==> fresh(r.value) && r.value.Valid() && r.value.base == base && r.value.Size() == size
  {
    if size > base.size {
      return Err(Panic("size too large"));
    }
    var h := new TruncatedHash(base, size);
    return Ok(h);
  }

  /** NewTruncatedSHA256: TruncateHash over a fresh SHA-256, so sizes above 32 panic. */
  method NewTruncatedSHA256(sha256: Bytes -> Bytes, size: int) returns (r: Result<TruncatedHash>)
    requires forall data: Bytes :: |sha256(data)| == SHA256Size
    ensures r.Err? <==> size > SHA256Size
    ensures r.Ok? ==>
      fresh(r.value) && r.value.Valid() && r.value.Size() == size &&
      r.value.BlockSize() == SHA256BlockSize && r.value.base.written == []
  {
    var base := NewSHA256(sha256);
    r := TruncateHash(base, size);
  }

  /** The truncated sum is the full sum cut after `size` digest bytes. */
  lemma TruncatedSumIsPrefix(h: TruncatedHash, b: Bytes)
    requires h.Valid() && h.size >= 0
    ensures h.Sum(b).Ok? && h.Sum(b).value == h.base.Sum(b)[..|b| + h.size]
  {
    var full := h.base.Sum([]);
    assert h.base.Sum(b) == b + full;
    assert (b + full)[..|b| + h.size] == b + full[..h.size];
  }
}
