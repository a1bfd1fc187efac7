/** Block contents and the memcpy/memset operations on them. */
module Bytes {
  import opened Layout

  type Byte = bv8

  /** A freshly mapped block: BLOCK_SIZE zero bytes (mmap followed by memset). */
  function ZeroBlock(): (z: seq<Byte>)
    ensures |z| == BLOCK_SIZE
    ensures forall i :: 0 <= i < BLOCK_SIZE ==> z[i] == 0
  {
    seq(BLOCK_SIZE, _ => 0)
  }

  /** memcpy(dst + at, src, |src|): the bytes of src land at [at, at + |src|),
      every other byte of dst is kept. */
  function CopyInto(dst: seq<Byte>, at: int, src: seq<Byte>): (r: seq<Byte>)
    requires 0 <= at && at + |src| <= |dst|
    ensures |r| == |dst|
    ensures forall i :: 0 <= i < |r| ==> r[i] == if at <= i < at + |src| then src[i - at] else dst[i]
  {
    dst[..at] + src + dst[at + |src|..]
  }

  /** memset(dst + at, 0, |dst| - at): every byte from at onwards becomes zero. */
  function ZeroFrom(dst: seq<Byte>, at: int): (r: seq<Byte>)
    requires 0 <= at <= |dst|
    ensures |r| == |dst|
    ensures forall i :: 0 <= i < |r| ==> r[i] == if i < at then dst[i] else 0
  {
    dst[..at] + seq(|dst| - at, _ => 0)
  }
}
