/** Definitions that several components share. */
module Basics {

  datatype Option<+T> = None | Some(value: T)

  type Byte = b: int | 0 <= b < 256

  function Min(a: int, b: int): int { if a <= b then a else b }

  /** A buffer after a memory copy to an offset. */
  function CopyAt(buf: seq<Byte>, offset: nat, data: seq<Byte>): (r: seq<Byte>)
    requires offset + |data| <= |buf|
    ensures |r| == |buf|
  {
    buf[..offset] + data + buf[offset + |data|..]
  }
}
