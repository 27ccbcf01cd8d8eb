/** Shared vocabulary: optional values, results and raw bytes. */
module Basics {
  datatype Option<+T> = None | Some(value: T)

  datatype Result<+T, +E> = Ok(value: T) | Err(error: E)

  type byte = b: int | 0 <= b < 256

  type Bytes = seq<byte>

  /** The size of one socket read, at either end and in between. */
  const RECV_CHUNK: nat := 65536

  /** At most the first `n` elements. */
  function Front<T>(s: seq<T>, n: nat): (front: seq<T>)
    ensures front <= s
  {
    if n < |s| then s[..n] else s
  }

  lemma Assoc<T>(a: seq<T>, b: seq<T>, c: seq<T>)
    ensures a + (b + c) == (a + b) + c
  {
  }

  lemma LastApart<T>(s: seq<T>)
    requires s != []
    ensures s[..|s| - 1] + [s[|s| - 1]] == s
  {
  }
}
