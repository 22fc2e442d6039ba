/** Unsigned bytes and memcpy. */
module Bytes {

  type byte = x: int | 0 <= x < 256

  /** memcpy of n elements from src[from..] to dst[to..]. */
  method Memcpy<T>(dst: array<T>, to: nat, src: seq<T>, from: nat, n: nat)
    requires to + n <= dst.Length && from + n <= |src|
    modifies dst
    ensures forall p :: to <= p < to + n ==> dst[p] == src[p - to + from]
    ensures forall p :: 0 <= p < dst.Length && !(to <= p < to + n) ==> dst[p] == old(dst[p])
  {
    forall k | 0 <= k < n {
      dst[to + k] := src[from + k];
    }
  }
}
