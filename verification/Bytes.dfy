/** Bytes, and the 16-bit words a little-endian host keeps in a byte buffer. */
module Bytes {
  newtype byte = x: int | 0 <= x < 256

  function Word(buf: seq<byte>, at: nat): (w: nat)
    requires at + 2 <= |buf|
    ensures w < 65536
  {
    buf[at] as int + 256 * buf[at + 1] as int
  }

  function WordBytes(n: nat): (b: seq<byte>)
    requires n < 65536
    ensures |b| == 2 && Word(b, 0) == n
  {
    [(n % 256) as byte, (n / 256) as byte]
  }

  /** Overwrite `|data|` bytes of a buffer. */
  function Write(buf: seq<byte>, at: nat, data: seq<byte>): (r: seq<byte>)
    requires at + |data| <= |buf|
    ensures |r| == |buf|
  {
    buf[..at] + data + buf[at + |data|..]
  }

  lemma WriteReads(buf: seq<byte>, at: nat, data: seq<byte>)
    requires at + |data| <= |buf|
    ensures Write(buf, at, data)[at..at + |data|] == data
  {
  }

  /** A write leaves every slice it does not overlap as it was. */
  lemma WriteSpares(buf: seq<byte>, at: nat, data: seq<byte>, from: nat, to: nat)
    requires at + |data| <= |buf| && from <= to <= |buf|
    requires to <= at || at + |data| <= from
    ensures Write(buf, at, data)[from..to] == buf[from..to]
  {
  }
}
