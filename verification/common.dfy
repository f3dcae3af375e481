/**
 Shared vocabulary of the model: the usual Option/Result wrappers, bytes,
 256-bit hashes and the saturating subtraction Rust's `saturating_sub` and
 the blob-store size tracker perform.
 */
module Wrappers {

  datatype Option<+T> = None | Some(value: T)

  datatype Result<+R, +E> = Ok(value: R) | Err(error: E)

  /** An octet, as carried on the wire and on disk. */
  type Byte = b: nat | b < 256

  type Bytes = seq<Byte>

  /** A 256-bit word: hashes, storage slots and storage values. */
  type B256 = w: nat | w < 0x1_0000_0000_0000_0000_0000_0000_0000_0000_0000_0000_0000_0000_0000_0000_0000_0000

  /** `a.saturating_sub(b)` on unsigned integers. */
  function SatSub(a: nat, b: nat): (r: nat)
    ensures r <= a
    ensures a >= b ==> r + b == a
    ensures a < b ==> r == 0
  {
    if a >= b then a - b else 0
  }

  /** True when no element occurs twice. */
  predicate Distinct<T(==)>(s: seq<T>)
  {
    forall i, j :: 0 <= i < j < |s| ==> s[i] != s[j]
  }
}
