/** Base64 as used by the source, following section 4 of RFC 4648:
    `Buffer.from(..).toString('base64')` (padded encoding) in the feed generator and
    `atob` (the WHATWG "forgiving-base64 decode") in the header decoder. */
module Base64 {
  import opened Wrappers
  import opened Text
  import opened Bytes

  type Sextet = x: nat | x < 64

  /** The alphabet of section 4 of RFC 4648: `A-Z`, `a-z`, `0-9`, `+`, `/`. */
  predicate IsBase64Char(c: char) {
    IsAlnum(c) || c == '+' || c == '/'
  }

  function EncodeChar(v: Sextet): (c: char)
    ensures IsBase64Char(c)
  {
    if v < 26 then ('A' as int + v) as char
    else if v < 52 then ('a' as int + v - 26) as char
    else if v < 62 then ('0' as int + v - 52) as char
    else if v == 62 then '+'
    else '/'
  }

  function DecodeChar(c: char): (v: Sextet)
    requires IsBase64Char(c)
    ensures EncodeChar(v) == c
  {
    if 'A' <= c <= 'Z' then c as int - 'A' as int
    else if 'a' <= c <= 'z' then c as int - 'a' as int + 26
    else if '0' <= c <= '9' then c as int - '0' as int + 52
    else if c == '+' then 62
    else 63
  }

  lemma DecodeEncodeChar(v: Sextet)
    ensures DecodeChar(EncodeChar(v)) == v
  {
  }

  /** Three bytes as four alphabet characters, six bits each, most significant first. */
  function EncodeGroup(x: Byte, y: Byte, z: Byte): (g: string)
    ensures |g| == 4
    ensures forall i :: 0 <= i < 4 ==> IsBase64Char(g[i])
  {
    [ EncodeChar(x / 4), EncodeChar(x % 4 * 16 + y / 16),
      EncodeChar(y % 16 * 4 + z / 64), EncodeChar(z % 64) ]
  }

  /** The encoding without its `=` padding: one group per three bytes; a final one or two
      bytes are completed with zero bytes and give the first two or three characters of
      their group (section 4 of RFC 4648). */
  function EncodeUnpadded(b: seq<Byte>): (s: string)
    ensures forall i :: 0 <= i < |s| ==> IsBase64Char(s[i])
    decreases |b|
  {
    if |b| == 0 then ""
    else if |b| == 1 then EncodeGroup(b[0], 0, 0)[..2]
    else if |b| == 2 then EncodeGroup(b[0], b[1], 0)[..3]
    else EncodeGroup(b[0], b[1], b[2]) + EncodeUnpadded(b[3..])
  }

  function Padding(n: nat): string {
    if n % 3 == 1 then "==" else if n % 3 == 2 then "=" else ""
  }

  /** `Buffer.from(bytes).toString('base64')`. */
  function Encode(b: seq<Byte>): (s: string)
    ensures forall i :: 0 <= i < |s| ==> IsBase64Char(s[i]) || s[i] == '='
  {
    EncodeUnpadded(b) + Padding(|b|)
  }

  /** Four characters per group of three bytes, the last one partial. */
  lemma {:induction false} UnpaddedLengthFormula(b: seq<Byte>)
    ensures |EncodeUnpadded(b)| == 4 * (|b| / 3) + (if |b| % 3 == 0 then 0 else |b| % 3 + 1)
    decreases |b|
  {
    if |b| >= 3 {
      UnpaddedLengthFormula(b[3..]);
    }
  }

  /** An encoding is always a multiple of four characters: four per started group. */
  lemma EncodeLength(b: seq<Byte>)
    ensures |Encode(b)| == 4 * ((|b| + 2) / 3)
  {
    UnpaddedLengthFormula(b);
    PaddedGroups(|b|);
  }

  lemma PaddedGroups(n: nat)
    ensures 4 * (n / 3) + (if n % 3 == 0 then 0 else n % 3 + 1) + |Padding(n)| == 4 * ((n + 2) / 3)
  {
    var q, r := n / 3, n % 3;
    assert n == 3 * q + r;
    if r == 0 {
      assert (n + 2) / 3 == q;
    } else {
      assert (n + 2) / 3 == q + 1;
    }
  }

  /** ASCII whitespace, which `atob` removes before decoding. */
  predicate IsAsciiWhitespace(c: char) {
    c == '\t' || c == '\n' || c == '\U{C}' || c == '\r' || c == ' '
  }

  function RemoveAsciiWhitespace(s: string): (r: string)
    ensures |r| <= |s|
    ensures (forall i :: 0 <= i < |s| ==> !IsAsciiWhitespace(s[i])) ==> r == s
  {
    if s == [] then []
    else if IsAsciiWhitespace(s[0]) then RemoveAsciiWhitespace(s[1..])
    else [s[0]] + RemoveAsciiWhitespace(s[1..])
  }

  /** Removes one or two trailing `=`. */
  function StripPadding(d: string): (r: string)
    ensures |r| <= |d| && r == d[..|r|]
    ensures forall i :: |r| <= i < |d| ==> d[i] == '='
  {
    if |d| >= 2 && d[|d| - 2] == '=' && d[|d| - 1] == '=' then d[..|d| - 2]
    else if |d| >= 1 && d[|d| - 1] == '=' then d[..|d| - 1]
    else d
  }

  /** Four alphabet characters as three bytes. */
  function DecodeGroup(g: string): (r: seq<Byte>)
    requires |g| == 4 && forall i :: 0 <= i < 4 ==> IsBase64Char(g[i])
    ensures |r| == 3
  {
    var c0: int, c1: int := DecodeChar(g[0]), DecodeChar(g[1]);
    var c2: int, c3: int := DecodeChar(g[2]), DecodeChar(g[3]);
    [c0 * 4 + c1 / 16, c1 % 16 * 16 + c2 / 4, c2 % 4 * 64 + c3]
  }

  /** Decodes groups of four alphabet characters into three bytes; a final two or three
      characters are completed with `A` (zero bits) and give one or two bytes, the unused
      low bits discarded. */
  function DecodeSextets(d: string): (r: seq<Byte>)
    requires forall i :: 0 <= i < |d| ==> IsBase64Char(d[i])
    ensures |r| <= |d|
    decreases |d|
  {
    if |d| < 2 then []
    else if |d| == 2 then DecodeGroup(d + "AA")[..1]
    else if |d| == 3 then DecodeGroup(d + "A")[..2]
    else DecodeGroup(d[..4]) + DecodeSextets(d[4..])
  }

  /** `atob`: remove ASCII whitespace; when the length is a multiple of four drop one or
      two trailing `=`; fail when one character is left over or a character outside the
      alphabet remains; otherwise decode. */
  function Atob(s: string): (r: Option<seq<Byte>>)
    ensures r.Some? ==> |r.value| <= |s|
  {
    var data := AtobInput(s);
    if |data| % 4 == 1 || !AllBase64(data) then None else Some(DecodeSextets(data))
  }

  predicate AllBase64(d: string) {
    forall i :: 0 <= i < |d| ==> IsBase64Char(d[i])
  }

  /** What `atob` decodes: whitespace removed, then padding removed from a complete
      last group. */
  function AtobInput(s: string): (data: string)
    ensures |data| <= |s|
  {
    var data0 := RemoveAsciiWhitespace(s);
    if |data0| % 4 == 0 then StripPadding(data0) else data0
  }

  /** One group of three bytes survives encoding and decoding. */
  lemma DecodeEncodeGroup(x: Byte, y: Byte, z: Byte)
    ensures DecodeGroup(EncodeGroup(x, y, z)) == [x, y, z]
  {
    var e0, e1, e2, e3 := x / 4, x % 4 * 16 + y / 16, y % 16 * 4 + z / 64, z % 64;
    DecodeEncodeChar(e0);
    DecodeEncodeChar(e1);
    DecodeEncodeChar(e2);
    DecodeEncodeChar(e3);
    var r := DecodeGroup(EncodeGroup(x, y, z));
    assert r[0] == e0 * 4 + e1 / 16 == x by { RejoinHigh(x, y); }
    assert r[1] == e1 % 16 * 16 + e2 / 4 == y by { RejoinMiddle(x, y, z); }
    assert r[2] == e2 % 4 * 64 + e3 == z by { RejoinLow(y, z); }
  }

  lemma RejoinHigh(x: Byte, y: Byte)
    ensures x / 4 * 4 + (x % 4 * 16 + y / 16) / 16 == x
  {
  }

  lemma RejoinMiddle(x: Byte, y: Byte, z: Byte)
    ensures (x % 4 * 16 + y / 16) % 16 * 16 + (y % 16 * 4 + z / 64) / 4 == y
  {
    var high, low := y / 16, y % 16;
    assert (x % 4 * 16 + high) % 16 == high;
    assert (low * 4 + z / 64) / 4 == low;
  }

  lemma RejoinLow(y: Byte, z: Byte)
    ensures (y % 16 * 4 + z / 64) % 4 * 64 + z % 64 == z
  {
  }

  lemma DecodeSextetsGroup(d: string)
    requires |d| >= 4 && AllBase64(d)
    ensures DecodeSextets(d) == DecodeGroup(d[..4]) + DecodeSextets(d[4..])
  {
  }

  /** A final single byte survives encoding and decoding. */
  lemma DecodeEncodeOne(x: Byte)
    ensures DecodeSextets(EncodeUnpadded([x])) == [x]
  {
    var g := EncodeGroup(x, 0, 0);
    assert EncodeUnpadded([x]) + "AA" == g;
    DecodeEncodeGroup(x, 0, 0);
  }

  /** A final two bytes survive encoding and decoding. */
  lemma DecodeEncodeTwo(x: Byte, y: Byte)
    ensures DecodeSextets(EncodeUnpadded([x, y])) == [x, y]
  {
    var g := EncodeGroup(x, y, 0);
    assert EncodeUnpadded([x, y]) + "A" == g;
    DecodeEncodeGroup(x, y, 0);
  }

  /** Decoding inverts the unpadded encoding. */
  lemma {:induction false} DecodeEncodeUnpadded(b: seq<Byte>)
    ensures DecodeSextets(EncodeUnpadded(b)) == b
    decreases |b|
  {
    if |b| == 1 {
      DecodeEncodeOne(b[0]);
      assert b == [b[0]];
    } else if |b| == 2 {
      DecodeEncodeTwo(b[0], b[1]);
      assert b == [b[0], b[1]];
    } else if |b| >= 3 {
      var s := EncodeUnpadded(b);
      var g := EncodeGroup(b[0], b[1], b[2]);
      assert s == g + EncodeUnpadded(b[3..]);
      calc {
        DecodeSextets(s);
      == { DecodeSextetsGroup(s); }
        DecodeGroup(s[..4]) + DecodeSextets(s[4..]);
      == { assert s[..4] == g && s[4..] == EncodeUnpadded(b[3..]); }
        DecodeGroup(g) + DecodeSextets(EncodeUnpadded(b[3..]));
      == { DecodeEncodeGroup(b[0], b[1], b[2]); DecodeEncodeUnpadded(b[3..]); }
        [b[0], b[1], b[2]] + b[3..];
      ==
        b;
      }
    }
  }

  /** Removing the padding of an encoding gives back the unpadded encoding. */
  lemma StripPaddingOfEncode(b: seq<Byte>)
    ensures StripPadding(Encode(b)) == EncodeUnpadded(b)
  {
    var u := EncodeUnpadded(b);
    var s := Encode(b);
    if |b| % 3 == 1 {
      assert s == u + "==";
      assert s[..|s| - 2] == u;
    } else if |b| % 3 == 2 {
      assert s == u + "=";
      assert s[|s| - 2] == u[|u| - 1];
      assert s[..|s| - 1] == u;
    } else {
      assert s == u;
      assert u != [] ==> IsBase64Char(u[|u| - 1]);
    }
  }

  /** An encoding holds no whitespace. */
  lemma EncodeNoWhitespace(b: seq<Byte>)
    ensures RemoveAsciiWhitespace(Encode(b)) == Encode(b)
  {
    var s := Encode(b);
    forall i | 0 <= i < |s| ensures !IsAsciiWhitespace(s[i]) {
      assert IsBase64Char(s[i]) || s[i] == '=';
    }
  }

  /** What `atob` decodes of an encoding is the unpadded encoding. */
  lemma AtobInputOfEncode(b: seq<Byte>)
    ensures AtobInput(Encode(b)) == EncodeUnpadded(b)
  {
    EncodeNoWhitespace(b);
    EncodeLength(b);
    FourTimesPlus((|b| + 2) / 3, 0);
    StripPaddingOfEncode(b);
  }

  /** An unpadded encoding never leaves a single character over. */
  lemma UnpaddedLength(b: seq<Byte>)
    ensures |EncodeUnpadded(b)| % 4 != 1
  {
    var extra := if |b| % 3 == 0 then 0 else |b| % 3 + 1;
    UnpaddedLengthFormula(b);
    FourTimesPlus(|b| / 3, extra);
  }

  lemma FourTimesPlus(q: int, extra: int)
    requires 0 <= extra < 4
    ensures (4 * q + extra) % 4 == extra
  {
  }

  /** `atob` inverts `Buffer.toString('base64')` on every byte sequence. */
  lemma AtobEncode(b: seq<Byte>)
    ensures Atob(Encode(b)) == Some(b)
  {
    var u := EncodeUnpadded(b);
    AtobInputOfEncode(b);
    UnpaddedLength(b);
    assert AllBase64(u);
    DecodeEncodeUnpadded(b);
  }

  /** A character outside the alphabet, other than white space and `=`, makes `atob` fail
      wherever it stands. */
  lemma AtobRejectsOutsideAlphabet(a: string, c: char, b: string)
    requires !IsBase64Char(c) && c != '=' && !IsAsciiWhitespace(c)
    ensures Atob(a + [c] + b) == None
  {
    var s := a + [c] + b;
    assert s[|a|] == c;
    var j := KeptByRemoveWhitespace(s, |a|);
    var d0 := RemoveAsciiWhitespace(s);
    var data := AtobInput(s);
    assert data == d0 || data == StripPadding(d0);
    assert j < |data| && data[j] == c;
  }

  /** A character that is not white space survives `atob`'s white-space removal. */
  lemma {:induction false} KeptByRemoveWhitespace(s: string, i: nat) returns (j: nat)
    requires i < |s| && !IsAsciiWhitespace(s[i])
    ensures j < |RemoveAsciiWhitespace(s)| && RemoveAsciiWhitespace(s)[j] == s[i]
    decreases |s|
  {
    if i == 0 {
      j := 0;
    } else {
      assert s[1..][i - 1] == s[i];
      var k := KeptByRemoveWhitespace(s[1..], i - 1);
      j := if IsAsciiWhitespace(s[0]) then k else k + 1;
    }
  }

  /** The first two characters of an encoding depend on the first two bytes only. */
  lemma EncodeFirstTwo(b: seq<Byte>)
    requires |b| >= 2
    ensures |Encode(b)| >= 2
    ensures Encode(b)[..2] == [EncodeChar(b[0] / 4), EncodeChar(b[0] % 4 * 16 + b[1] / 16)]
  {
    var u := EncodeUnpadded(b);
    assert Encode(b)[..2] == u[..2];
    if |b| == 2 {
      assert u == EncodeGroup(b[0], b[1], 0)[..3];
    } else {
      assert u[..4] == EncodeGroup(b[0], b[1], b[2]);
    }
  }

  /** An encoding of three or more bytes starts with the group of the first three. */
  lemma EncodeCons(b: seq<Byte>)
    requires |b| >= 3
    ensures Encode(b) == EncodeGroup(b[0], b[1], b[2]) + Encode(b[3..])
  {
    assert EncodeUnpadded(b) == EncodeGroup(b[0], b[1], b[2]) + EncodeUnpadded(b[3..]);
    PaddingAfterGroup(|b|);
  }

  lemma PaddingAfterGroup(n: nat)
    requires n >= 3
    ensures Padding(n) == Padding(n - 3)
  {
    assert (n - 3) % 3 == n % 3;
  }

  /** Encodings agree on their first 4k+2 characters when the inputs agree on their
      first 3k+2 bytes. */
  lemma {:induction false} EncodePrefix(b1: seq<Byte>, b2: seq<Byte>, k: nat)
    requires |b1| >= 3 * k + 2 && |b2| >= 3 * k + 2
    requires b1[..3 * k + 2] == b2[..3 * k + 2]
    ensures |Encode(b1)| >= 4 * k + 2 && |Encode(b2)| >= 4 * k + 2
    ensures Encode(b1)[..4 * k + 2] == Encode(b2)[..4 * k + 2]
  {
    if k == 0 {
      assert b1[0] == b2[0] && b1[1] == b2[1];
      EncodeFirstTwo(b1);
      EncodeFirstTwo(b2);
    } else {
      assert 3 * k + 2 - 3 == 3 * (k - 1) + 2;
      SliceOfEqualPrefix(b1, b2, 3 * k + 2, 3);
      assert b1[..3][0] == b1[0] && b1[..3][1] == b1[1] && b1[..3][2] == b1[2];
      assert b2[..3][0] == b2[0] && b2[..3][1] == b2[1] && b2[..3][2] == b2[2];
      EncodePrefix(b1[3..], b2[3..], k - 1);
      EncodePrefixStep(b1, b2, k - 1);
    }
  }

  /** The step of EncodePrefix: equal first groups, then equal prefixes of the rest. */
  lemma EncodePrefixStep(b1: seq<Byte>, b2: seq<Byte>, j: nat)
    requires |b1| >= 3 * j + 5 && |b2| >= 3 * j + 5
    requires b1[0] == b2[0] && b1[1] == b2[1] && b1[2] == b2[2]
    requires |Encode(b1[3..])| >= 4 * j + 2 && |Encode(b2[3..])| >= 4 * j + 2
    requires Encode(b1[3..])[..4 * j + 2] == Encode(b2[3..])[..4 * j + 2]
    ensures |Encode(b1)| >= 4 * (j + 1) + 2 && |Encode(b2)| >= 4 * (j + 1) + 2
    ensures Encode(b1)[..4 * (j + 1) + 2] == Encode(b2)[..4 * (j + 1) + 2]
  {
    var g := EncodeGroup(b1[0], b1[1], b1[2]);
    EncodeCons(b1);
    EncodeCons(b2);
    CommonHead(Encode(b1), Encode(b2), g, Encode(b1[3..]), Encode(b2[3..]), 4 * j + 2);
  }

  lemma CommonHead(e1: string, e2: string, g: string, t1: string, t2: string, n: nat)
    requires e1 == g + t1 && e2 == g + t2
    requires |t1| >= n && |t2| >= n && t1[..n] == t2[..n]
    ensures |e1| >= |g| + n && |e2| >= |g| + n && e1[..|g| + n] == e2[..|g| + n]
  {
    PrefixOfConcat(g, t1, n);
    PrefixOfConcat(g, t2, n);
  }

  lemma PrefixOfConcat<T>(g: seq<T>, t: seq<T>, n: nat)
    requires n <= |t|
    ensures (g + t)[..|g| + n] == g + t[..n]
  {
  }

  /** Sequences equal on their first `m` elements are equal on the part of it after `i`,
      and in particular on their first `i`. */
  lemma SliceOfEqualPrefix<T>(a: seq<T>, b: seq<T>, m: nat, i: nat)
    requires i <= m <= |a| && m <= |b| && a[..m] == b[..m]
    ensures a[i..][..m - i] == b[i..][..m - i] && a[..i] == b[..i]
  {
    assert a[i..][..m - i] == a[..m][i..];
    assert b[i..][..m - i] == b[..m][i..];
    assert a[..i] == a[..m][..i];
    assert b[..i] == b[..m][..i];
  }
}
