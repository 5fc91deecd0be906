/** Bytes, and 32-bit numbers in network byte order. */
module Bytes {
  type byte = b: int | 0 <= b < 256

  /** `htonl`, as the four bytes that follow each other in memory. */
  function BigEndian(n: nat): (bs: seq<byte>)
    requires n < 0x1_0000_0000
    ensures |bs| == 4 && FromBigEndian(bs) == n
  {
    var n1 := n / 256;
    var n2 := n1 / 256;
    [n2 / 256, n2 % 256, n1 % 256, n % 256]
  }

  /** `ntohl`. */
  function FromBigEndian(bs: seq<byte>): (n: nat)
    requires |bs| == 4
    ensures n < 0x1_0000_0000
  {
    bs[0] as int * 0x100_0000 + bs[1] as int * 0x1_0000 + bs[2] as int * 256 + bs[3] as int
  }
}
