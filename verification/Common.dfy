/** What several components share: optional values, bytes and runs of zero bytes. */
module Wrappers {
  datatype Option<T> = None | Some(value: T)
}

module Bytes {
  type Byte = b: int | 0 <= b < 256 witness 0

  function Zeros(n: nat): (z: seq<Byte>)
    ensures |z| == n && forall i :: 0 <= i < n ==> z[i] == 0
  {
    seq(n, _ => 0)
  }
}
