/** Values shared by every part of the Domain Transparency model: bytes, fixed-width
    integers, 32-byte hashes, and the error values that the Go code returns as `error`s
    (a Go panic is modelled as the error value `Panic`). */
module Types {

  type byte = x: int | 0 <= x < 256

  type Bytes = seq<byte>

  /** Go's `uint64`. */
  const U64_LIMIT: int := 0x1_0000_0000_0000_0000

  type U64 = x: int | 0 <= x < 0x1_0000_0000_0000_0000

  /** `n` zero bytes (Go's `bytes.Repeat([]byte{0}, n)`). */
  function Zeros(n: nat): (z: Bytes)
    ensures |z| == n
    ensures forall i :: 0 <= i < n ==> z[i] == 0
  {
    seq(n, _ => 0)
  }

  /** A SHA-256 sized hash: Go's `[32]byte` (`ct.SHA256Hash`, `logid.LogID`). */
  type Hash32 = s: Bytes | |s| == 32 witness Zeros(32)

  const ZeroHash: Hash32 := Zeros(32)

  datatype Option<T> = None | Some(value: T)

  datatype Result<T> = Ok(value: T) | Err(error: Error)

  /** Every error condition of the modelled code, with the numbers its message reports. */
  datatype Error =
    // DomainMap.CheckAndPublishSMH
    | InvalidMapRootLength(length: nat)
    | InvalidMapSizeForRepublish(newSize: U64, currentSize: U64)
    | InvalidMapSizeForNewRoot(newSize: U64, currentSize: U64)
    | InvalidSourceLogCountForRepublish(newCount: nat, currentCount: nat)
    | InvalidSourceLogCount(newCount: nat, currentCount: nat)
    | InvalidSourceLogSizeForRepublish(log: nat, newSize: U64, currentSize: U64)
    | InvalidSourceLogSize(log: nat, newSize: U64, currentSize: U64)
    | SigningFailed
    // DomainMap domain lookups and updates
    | NormalizationFailed(domain: string)
    | DomainNotNormalized(domain: string)
    | DomainTreeExists(domain: string)
    | NoDomainTree(domain: string)
    | NoSuchDomain(domain: string)
    | CannotGoBackInTime(recordedSize: nat, proposedSize: nat)
    | UnknownMapRoot
    // merkleTree, DomainTree, SourceTree
    | TreeSizeTooLarge(treeSize: nat, latestSize: nat)
    | LeafIndexTooLarge(leafIndex: nat, treeSize: nat)
    | NoSuchTreeSize(treeSize: nat, leafCount: nat)
    | IntervalReversed(start: nat, end: nat)
    | IntervalEndTooLarge(end: nat, leafCount: nat)
    | NoEntryForLog(logIndex: U64)
    // mapstore
    | NoSuchKey(key: Bytes)
    | SetExistingKey(key: Bytes)
    | DeleteNotSupported
    | CannotSetPlaceholder
    | NoNodeForHash(hash: Bytes)
    | InvalidNodeData(hash: Bytes)
    | InvalidLeafData(hash: Bytes)
    | InvalidNodePrefix(hash: Bytes)
    | TraversalTooDeep(hash: Bytes)
    | HandlerFailed(reason: string)
    // worker
    | LogNotYetAdded(logIndex: U64, logCount: nat)
    | PropagationFailed(domain: string, cause: Error)
    // a Go runtime panic (index out of range, explicit panic(...))
    | Panic(reason: string)
}
