/** Bytes, and the "binary strings" JavaScript uses for them: `atob` and
    `String.fromCharCode` produce one character per byte, with code 0 to 255. */
module Bytes {

  type Byte = x: int | 0 <= x < 256

  function ByteChar(b: Byte): char {
    b as char
  }

  function BinaryString(bs: seq<Byte>): (s: string)
    ensures |s| == |bs|
    ensures forall i :: 0 <= i < |s| ==> s[i] as int == bs[i]
  {
    seq(|bs|, i requires 0 <= i < |bs| => ByteChar(bs[i]))
  }
}
