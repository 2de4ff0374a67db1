/** UTF-8 encoding of a string, as `Buffer.from(string)` performs it (section 3 of
    RFC 3629). Characters are Unicode scalar values. */
module Utf8 {
  import opened Bytes
  import Text

  function EncodeScalar(c: char): (bs: seq<Byte>)
    ensures 1 <= |bs| <= 4
    ensures (c as int < 0x80) <==> |bs| == 1
    ensures c as int < 0x80 ==> bs == [c as int]
  {
    var n := c as int;
    if n < 0x80 then [n]
    else if n < 0x800 then [0xC0 + n / 0x40, 0x80 + n % 0x40]
    else if n < 0x10000 then [0xE0 + n / 0x1000, 0x80 + n / 0x40 % 0x40, 0x80 + n % 0x40]
    else [0xF0 + n / 0x40000, 0x80 + n / 0x1000 % 0x40, 0x80 + n / 0x40 % 0x40, 0x80 + n % 0x40]
  }

  function Encode(s: string): (bs: seq<Byte>)
    ensures |s| <= |bs| <= 4 * |s|
  {
    if s == [] then [] else EncodeScalar(s[0]) + Encode(s[1..])
  }

  /** Encoding is compositional: the encoding of a prefix is a prefix of the encoding. */
  lemma {:induction false} EncodeAppend(a: string, b: string)
    ensures Encode(a + b) == Encode(a) + Encode(b)
  {
    if a == [] {
      assert a + b == b;
    } else {
      assert (a + b)[0] == a[0];
      assert (a + b)[1..] == a[1..] + b;
      EncodeAppend(a[1..], b);
      Text.AppendAssoc(EncodeScalar(a[0]), Encode(a[1..]), Encode(b));
    }
  }

  predicate IsAscii(s: string) {
    forall i :: 0 <= i < |s| ==> s[i] as int < 0x80
  }

  /** An ASCII string encodes to its character codes, one byte each. */
  lemma {:induction false} EncodeAscii(s: string)
    requires IsAscii(s)
    ensures |Encode(s)| == |s|
    ensures forall i :: 0 <= i < |s| ==> Encode(s)[i] == s[i] as int
  {
    if s != [] {
      EncodeAscii(s[1..]);
    }
  }
}
