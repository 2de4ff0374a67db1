/** Parsing of ForwardEmail.net webhook payloads: the feed id in the recipient address,
    RFC 2047 encoded words in the subject, the header map and the normalised email. */
module EmailParser {
  import opened Wrappers
  import opened Text
  import opened Bytes
  import Base64
  import opened Types

  // ---------------------------------------------------------------------------
  // The feed id of a recipient address: `^newsletter-([a-zA-Z0-9]+)@`

  const AddressPrefix: string := "newsletter-"

  /** Length of the longest prefix of `[a-zA-Z0-9]` characters. */
  function AlnumRun(s: string): (n: nat)
    ensures n <= |s|
    ensures AllAlnum(s[..n])
    ensures n < |s| ==> !IsAlnum(s[n])
  {
    if s == [] || !IsAlnum(s[0]) then 0
    else
      var n := AlnumRun(s[1..]);
      assert s[..n + 1] == [s[0]] + s[1..][..n];
      n + 1
  }

  /** `address` reads `newsletter-<token>@…` with a non-empty alphanumeric token. */
  predicate IsFeedAddress(address: string, token: string) {
    var p := |AddressPrefix|;
    && |token| > 0 && AllAlnum(token)
    && p + |token| < |address|
    && address[..p] == AddressPrefix
    && address[p..p + |token|] == token
    && address[p + |token|] == '@'
  }

  /** `extractFeedId`: the token between `newsletter-` and the first `@`, which must
      be alphanumeric throughout; the match is case-sensitive and anchored at the start. */
  function ExtractFeedId(address: string): (r: Option<string>)
    ensures r.Some? ==> IsFeedAddress(address, r.value)
    ensures '@' !in address ==> r.None?
  {
    var p := |AddressPrefix|;
    if |address| < p || address[..p] != AddressPrefix then None
    else
      var n := AlnumRun(address[p..]);
      if 0 < n < |address| - p && address[p + n] == '@' then
        assert address[p..][..n] == address[p..p + n];
        Some(address[p..p + n])
      else None
  }

  lemma {:induction false} AlnumRunAt(s: string, k: nat)
    requires k < |s| && AllAlnum(s[..k]) && !IsAlnum(s[k])
    ensures AlnumRun(s) == k
  {
    if k > 0 {
      assert s[..k][0] == s[0];
      assert s[1..][..k - 1] == s[..k][1..];
      AlnumRunAt(s[1..], k - 1);
    }
  }

  /** The id is extracted exactly when the address has the documented shape. */
  lemma ExtractFeedIdExact(address: string, token: string)
    ensures ExtractFeedId(address) == Some(token) <==> IsFeedAddress(address, token)
  {
    if IsFeedAddress(address, token) {
      var p := |AddressPrefix|;
      var rest := address[p..];
      assert rest[..|token|] == token;
      AlnumRunAt(rest, |token|);
    }
  }

  /** An address built from an alphanumeric token yields that token, whatever the domain. */
  lemma ExtractFeedIdOf(token: string, domain: string)
    requires |token| > 0 && AllAlnum(token)
    ensures ExtractFeedId(AddressPrefix + token + "@" + domain) == Some(token)
  {
    var address := AddressPrefix + token + "@" + domain;
    var p := |AddressPrefix|;
    assert address[..p] == AddressPrefix;
    assert address[p..p + |token|] == token;
    ExtractFeedIdExact(address, token);
  }

  /** A dotted id such as `apple.mountain.42` is never extracted. */
  lemma DottedFeedIdRejected(a: string, b: string, domain: string)
    requires AllAlnum(a)
    ensures ExtractFeedId(AddressPrefix + a + "." + b + "@" + domain) == None
  {
    var address := AddressPrefix + a + "." + b + "@" + domain;
    var p := |AddressPrefix|;
    assert address[..p] == AddressPrefix;
    assert address[p..][..|a|] == a;
    AlnumRunAt(address[p..], |a|);
  }

  // ---------------------------------------------------------------------------
  // Quoted-printable text: `=([0-9A-F]{2})` with the `g` and `i` flags

  /** `decodeQuotedPrintable`: each `=` followed by two hexadecimal digits (of either
      case) becomes the character with that code; the scan resumes after them. */
  function DecodeQuotedPrintable(s: string): (r: string)
    ensures |r| <= |s|
    ensures '=' !in s ==> r == s
  {
    if s == [] then []
    else if |s| >= 3 && s[0] == '=' && IsHexDigit(s[1]) && IsHexDigit(s[2]) then
      [ByteChar(HexValue(s[1]) * 16 + HexValue(s[2]))] + DecodeQuotedPrintable(s[3..])
    else [s[0]] + DecodeQuotedPrintable(s[1..])
  }

  /** Quoted-printable encoding of every byte as `=XY`, the inverse of the decoder. */
  function EncodeQuotedPrintable(bs: seq<Byte>): (s: string)
    ensures |s| == 3 * |bs|
    ensures forall i :: 0 <= i < |s| ==> s[i] == '=' || IsHexDigit(s[i])
  {
    if bs == [] then []
    else ['=', HexDigit(bs[0] / 16), HexDigit(bs[0] % 16)] + EncodeQuotedPrintable(bs[1..])
  }

  lemma {:induction false} DecodeEncodeQuotedPrintable(bs: seq<Byte>)
    ensures DecodeQuotedPrintable(EncodeQuotedPrintable(bs)) == BinaryString(bs)
  {
    if bs != [] {
      var s := EncodeQuotedPrintable(bs);
      assert s[..3] == ['=', HexDigit(bs[0] / 16), HexDigit(bs[0] % 16)];
      assert s[3..] == EncodeQuotedPrintable(bs[1..]);
      assert HexValue(s[1]) * 16 + HexValue(s[2]) == bs[0];
      DecodeEscape(s);
      DecodeEncodeQuotedPrintable(bs[1..]);
      assert BinaryString(bs) == [ByteChar(bs[0])] + BinaryString(bs[1..]);
    }
  }

  /** An escape `=XY` becomes one character and the scan resumes after it. */
  lemma DecodeEscape(s: string)
    requires |s| >= 3 && s[0] == '=' && IsHexDigit(s[1]) && IsHexDigit(s[2])
    ensures DecodeQuotedPrintable(s)
         == [ByteChar(HexValue(s[1]) * 16 + HexValue(s[2]))] + DecodeQuotedPrintable(s[3..])
  {
  }

  /** `text.replace(/_/g, ' ')`. */
  function ReplaceUnderscores(s: string): (r: string)
    ensures |r| == |s| && '_' !in r
    ensures forall i :: 0 <= i < |s| && s[i] != '_' ==> r[i] == s[i]
  {
    seq(|s|, i requires 0 <= i < |s| => if s[i] == '_' then ' ' else s[i])
  }

  // ---------------------------------------------------------------------------
  // Encoded words: `=\?([^?]+)\?([BQ])\?([^?]+)\?=` with the `g` and `i` flags

  /** An encoded word `=?<charset>?<encoding>?<payload>?=`. */
  datatype EncodedWord = EncodedWord(charset: string, encoding: char, payload: string)

  predicate IsEncodingLetter(c: char) { c == 'B' || c == 'b' || c == 'Q' || c == 'q' }

  predicate WellFormed(w: EncodedWord) {
    && |w.charset| > 0 && '?' !in w.charset
    && IsEncodingLetter(w.encoding)
    && |w.payload| > 0 && '?' !in w.payload
  }

  function WordText(w: EncodedWord): string {
    "=?" + w.charset + "?" + [w.encoding] + "?" + w.payload + "?="
  }

  datatype WordMatch = WordMatch(word: EncodedWord, length: nat)

  /** The encoded word the pattern matches at the start of `s`, if any. The charset and
      the payload are runs of characters other than `?`, so each run is maximal. */
  function MatchEncodedWord(s: string): (m: Option<WordMatch>)
    ensures m.Some? ==> WellFormed(m.value.word)
    ensures m.Some? ==> m.value.length == |WordText(m.value.word)| <= |s|
    ensures m.Some? ==> s[..m.value.length] == WordText(m.value.word)
  {
    if |s| < 2 || s[0] != '=' || s[1] != '?' then None
    else
      var cs := PrefixWithout(s[2..], '?');
      if cs == 0 || 4 + cs >= |s| || !IsEncodingLetter(s[3 + cs]) || s[4 + cs] != '?' then None
      else
        var pl := PrefixWithout(s[5 + cs..], '?');
        if pl == 0 || 6 + cs + pl >= |s| || s[6 + cs + pl] != '=' then None
        else
          MatchedWord(s, cs, pl);
          Some(WordMatch(EncodedWord(s[2..2 + cs], s[3 + cs], s[5 + cs..5 + cs + pl]), 7 + cs + pl))
  }

  /** What the matcher finds once the delimiters sit where it looked for them. */
  lemma MatchedWord(s: string, cs: nat, pl: nat)
    requires 6 + cs + pl < |s| && cs > 0 && pl > 0
    requires s[0] == '=' && s[1] == '?' && IsEncodingLetter(s[3 + cs]) && s[4 + cs] == '?'
    requires cs == PrefixWithout(s[2..], '?') && pl == PrefixWithout(s[5 + cs..], '?')
    requires s[6 + cs + pl] == '='
    ensures var w := EncodedWord(s[2..2 + cs], s[3 + cs], s[5 + cs..5 + cs + pl]);
      && WellFormed(w) && |WordText(w)| == 7 + cs + pl
      && s[..7 + cs + pl] == WordText(w)
  {
    assert s[2..][..cs] == s[2..2 + cs];
    assert s[5 + cs..][..pl] == s[5 + cs..5 + cs + pl];
    WordTextOfSlices(s, cs, pl);
  }

  /** The text of an encoded word read off its delimiters' positions in `s`. */
  lemma WordTextOfSlices(s: string, cs: nat, pl: nat)
    requires 6 + cs + pl < |s|
    requires s[0] == '=' && s[1] == '?' && s[2 + cs] == '?' && s[4 + cs] == '?'
    requires s[5 + cs + pl] == '?' && s[6 + cs + pl] == '='
    ensures s[..7 + cs + pl] == WordText(EncodedWord(s[2..2 + cs], s[3 + cs], s[5 + cs..5 + cs + pl]))
  {
    var charset, payload := s[2..2 + cs], s[5 + cs..5 + cs + pl];
    var t := WordText(EncodedWord(charset, s[3 + cs], payload));
    assert t == "=?" + charset + ("?" + [s[3 + cs]] + "?") + payload + "?=";
    forall i | 0 <= i < |t| ensures t[i] == s[i] {
      if 2 <= i < 2 + cs {
        assert t[i] == charset[i - 2];
      } else if 5 + cs <= i < 5 + cs + pl {
        assert t[i] == payload[i - 5 - cs];
      }
    }
  }

  lemma WordTextCharset(w: EncodedWord, rest: string)
    requires WellFormed(w)
    ensures var s := WordText(w) + rest; var cs := |w.charset|;
      && PrefixWithout(s[2..], '?') == cs && 4 + cs < |s|
      && s[3 + cs] == w.encoding && s[4 + cs] == '?' && s[2..2 + cs] == w.charset
  {
    var s := WordText(w) + rest;
    var tail := [w.encoding] + "?" + w.payload + "?=" + rest;
    assert s[2..] == w.charset + ['?'] + tail;
    PrefixWithoutAt(w.charset, '?', tail);
  }

  lemma WordTextPayload(w: EncodedWord, rest: string)
    requires WellFormed(w)
    ensures var s := WordText(w) + rest; var cs, pl := |w.charset|, |w.payload|;
      && PrefixWithout(s[5 + cs..], '?') == pl && 6 + cs + pl < |s|
      && s[6 + cs + pl] == '=' && s[5 + cs..5 + cs + pl] == w.payload
  {
    var s := WordText(w) + rest;
    var cs := |w.charset|;
    assert s[5 + cs..] == w.payload + ['?'] + ("=" + rest);
    PrefixWithoutAt(w.payload, '?', "=" + rest);
  }

  /** A well-formed encoded word is matched in full. */
  lemma MatchWordText(w: EncodedWord, rest: string)
    requires WellFormed(w)
    ensures MatchEncodedWord(WordText(w) + rest) == Some(WordMatch(w, |WordText(w)|))
  {
    var s := WordText(w) + rest;
    assert s[0] == '=' && s[1] == '?';
    WordTextCharset(w, rest);
    WordTextPayload(w, rest);
    var cs, pl := |w.charset|, |w.payload|;
    assert EncodedWord(s[2..2 + cs], s[3 + cs], s[5 + cs..5 + cs + pl]) == w;
  }

  /** The replacement of one encoded word: `atob` of the payload for B, falling back to
      the bare payload when `atob` throws; for Q, underscores become spaces and then
      quoted-printable escapes are decoded. */
  function DecodeWord(w: EncodedWord): (r: string)
    ensures |r| <= |w.payload|
  {
    if w.encoding == 'B' || w.encoding == 'b' then
      match Base64.Atob(w.payload)
      case Some(bytes) => BinaryString(bytes)
      case None => w.payload
    else DecodeQuotedPrintable(ReplaceUnderscores(w.payload))
  }

  /** `decodeEncodedWords`: a left-to-right scan replacing each encoded word and
      copying every other character. */
  function DecodeEncodedWords(text: string): (r: string)
    ensures |r| <= |text|
    decreases |text|
  {
    if text == [] then []
    else
      match MatchEncodedWord(text)
      case Some(m) => DecodeWord(m.word) + DecodeEncodedWords(text[m.length..])
      case None => [text[0]] + DecodeEncodedWords(text[1..])
  }

  /** No encoded word starts anywhere in `s`. */
  predicate NoEncodedWord(s: string) {
    forall i :: 0 <= i < |s| ==> MatchEncodedWord(s[i..]).None?
  }

  lemma {:induction false} DecodeShrinks(s: string, i: nat)
    requires i < |s| && MatchEncodedWord(s[i..]).Some?
    ensures |DecodeEncodedWords(s)| < |s|
  {
    if MatchEncodedWord(s).None? {
      assert s[0..] == s;
      assert s[1..][i - 1..] == s[i..];
      DecodeShrinks(s[1..], i - 1);
    }
  }

  lemma {:induction false} DecodeKeepsPlain(s: string)
    requires NoEncodedWord(s)
    ensures DecodeEncodedWords(s) == s
  {
    if s != [] {
      assert s[0..] == s;
      forall i | 0 <= i < |s[1..]| ensures MatchEncodedWord(s[1..][i..]).None? {
        assert s[1..][i..] == s[i + 1..];
      }
      DecodeKeepsPlain(s[1..]);
    }
  }

  /** The subject comes back unchanged exactly when it holds no encoded word. */
  lemma DecodeUnchangedIff(s: string)
    ensures DecodeEncodedWords(s) == s <==> NoEncodedWord(s)
  {
    if NoEncodedWord(s) {
      DecodeKeepsPlain(s);
    } else {
      var i :| 0 <= i < |s| && MatchEncodedWord(s[i..]).Some?;
      DecodeShrinks(s, i);
    }
  }

  /** Text without `=` is copied through before whatever follows it is decoded. */
  lemma DecodePlainPrefix(a: string, b: string)
    requires '=' !in a
    ensures DecodeEncodedWords(a + b) == a + DecodeEncodedWords(b)
  {
    var s := a + b;
    assert s[..|a|] == a && s[|a|..] == b;
    DecodePlainRun(s, |a|);
  }

  lemma {:induction false} DecodePlainRun(s: string, k: nat)
    requires k <= |s| && '=' !in s[..k]
    ensures DecodeEncodedWords(s) == s[..k] + DecodeEncodedWords(s[k..])
  {
    if k > 0 {
      assert s[..k] == s[..k - 1] + [s[k - 1]];
      DecodePlainRun(s, k - 1);
      DecodePlainAt(s, k);
    }
  }

  lemma DecodePlainAt(s: string, k: nat)
    requires 0 < k <= |s| && s[k - 1] != '='
    ensures s[..k - 1] + DecodeEncodedWords(s[k - 1..]) == s[..k] + DecodeEncodedWords(s[k..])
  {
    var t := s[k - 1..];
    assert t == [s[k - 1]] + s[k..];
    DecodeStepPlain(t);
    assert t[0] == s[k - 1] && t[1..] == s[k..];
    assert s[..k] == s[..k - 1] + [s[k - 1]];
    ConsAssoc(s[..k - 1], s[k - 1], DecodeEncodedWords(s[k..]));
  }

  lemma ConsAssoc(p: string, c: char, x: string)
    ensures p + ([c] + x) == (p + [c]) + x
  {
  }

  /** A character other than `=` cannot start an encoded word and is copied. */
  lemma DecodeStepPlain(s: string)
    requires |s| > 0 && s[0] != '='
    ensures DecodeEncodedWords(s) == [s[0]] + DecodeEncodedWords(s[1..])
  {
    assert MatchEncodedWord(s).None?;
  }

  /** An encoded word is replaced by its decoding and the scan goes on after it. */
  lemma DecodeWordText(w: EncodedWord, rest: string)
    requires WellFormed(w)
    ensures DecodeEncodedWords(WordText(w) + rest) == DecodeWord(w) + DecodeEncodedWords(rest)
  {
    MatchWordText(w, rest);
    assert (WordText(w) + rest)[|WordText(w)|..] == rest;
  }

  /** The white space between two adjacent encoded words is kept, not dropped. */
  lemma DecodeAdjacentWords(w1: EncodedWord, between: string, w2: EncodedWord)
    requires WellFormed(w1) && WellFormed(w2) && '=' !in between
    ensures DecodeEncodedWords(WordText(w1) + between + WordText(w2))
         == DecodeWord(w1) + between + DecodeWord(w2)
  {
    var t1, t2 := WordText(w1), WordText(w2);
    assert t1 + between + t2 == t1 + (between + t2);
    DecodeWordText(w1, between + t2);
    DecodePlainPrefix(between, t2);
    DecodeLoneWord(w2);
  }

  lemma DecodeLoneWord(w: EncodedWord)
    requires WellFormed(w)
    ensures DecodeEncodedWords(WordText(w)) == DecodeWord(w)
  {
    assert WordText(w) + [] == WordText(w);
    DecodeWordText(w, []);
  }

  /** A B-encoded word carrying the padded base64 of some bytes decodes to those bytes. */
  lemma DecodeBase64Word(charset: string, bs: seq<Byte>)
    requires |charset| > 0 && '?' !in charset && |bs| > 0
    ensures DecodeEncodedWords(WordText(EncodedWord(charset, 'B', Base64.Encode(bs))))
         == BinaryString(bs)
  {
    var payload := Base64.Encode(bs);
    assert '?' !in payload by {
      forall i | 0 <= i < |payload| ensures payload[i] != '?' {
        assert Base64.IsBase64Char(payload[i]) || payload[i] == '=';
      }
    }
    var w := EncodedWord(charset, 'B', payload);
    Base64.AtobEncode(bs);
    assert DecodeWord(w) == BinaryString(bs);
    DecodeLoneWord(w);
  }

  /** A Q-encoded word carrying the quoted-printable form of some bytes decodes to them. */
  lemma DecodeQuotedWord(charset: string, bs: seq<Byte>)
    requires |charset| > 0 && '?' !in charset && |bs| > 0
    ensures DecodeEncodedWords(WordText(EncodedWord(charset, 'Q', EncodeQuotedPrintable(bs))))
         == BinaryString(bs)
  {
    var w := EncodedWord(charset, 'Q', EncodeQuotedPrintable(bs));
    DecodeQuotedPayload(charset, bs);
    DecodeLoneWord(w);
  }

  lemma DecodeQuotedPayload(charset: string, bs: seq<Byte>)
    ensures DecodeWord(EncodedWord(charset, 'Q', EncodeQuotedPrintable(bs))) == BinaryString(bs)
  {
    var payload := EncodeQuotedPrintable(bs);
    assert ReplaceUnderscores(payload) == payload by {
      var r := ReplaceUnderscores(payload);
      forall i | 0 <= i < |payload| ensures r[i] == payload[i] {
        assert payload[i] == '=' || IsHexDigit(payload[i]);
      }
    }
    DecodeEncodeQuotedPrintable(bs);
  }

  /** A B payload that `atob` rejects is kept bare: the word's delimiters, charset and
      encoding letter are dropped. */
  lemma DecodeInvalidBase64Word(charset: string, encoding: char, payload: string)
    requires encoding == 'B' || encoding == 'b'
    requires WellFormed(EncodedWord(charset, encoding, payload)) && Base64.Atob(payload).None?
    ensures DecodeEncodedWords(WordText(EncodedWord(charset, encoding, payload))) == payload
  {
    DecodeLoneWord(EncodedWord(charset, encoding, payload));
  }

  /** The same inside a subject: the bare payload replaces the word and the rest of the
      subject is decoded after it. */
  lemma DecodeInvalidBase64WordThen(charset: string, encoding: char, payload: string, rest: string)
    requires encoding == 'B' || encoding == 'b'
    requires WellFormed(EncodedWord(charset, encoding, payload)) && Base64.Atob(payload).None?
    ensures DecodeEncodedWords(WordText(EncodedWord(charset, encoding, payload)) + rest)
         == payload + DecodeEncodedWords(rest)
  {
    DecodeWordText(EncodedWord(charset, encoding, payload), rest);
  }

  /** For instance, a `%` in a B payload leaves the payload as it is. */
  lemma DecodePercentWord()
    ensures DecodeEncodedWords("=?UTF-8?B?%%?=") == "%%"
  {
    var w := EncodedWord("UTF-8", 'B', "%%");
    assert WordText(w) == "=?UTF-8?B?%%?=";
    assert "%%" == "" + ['%'] + "%";
    Base64.AtobRejectsOutsideAlphabet("", '%', "%");
    DecodeInvalidBase64Word("UTF-8", 'B', "%%");
  }

  /** In a Q payload without escapes, underscores stand for spaces and nothing else changes. */
  lemma DecodeQuotedUnderscores(charset: string, payload: string)
    requires WellFormed(EncodedWord(charset, 'Q', payload)) && '=' !in payload
    ensures DecodeEncodedWords(WordText(EncodedWord(charset, 'Q', payload)))
         == ReplaceUnderscores(payload)
  {
    var w := EncodedWord(charset, 'Q', payload);
    var r := ReplaceUnderscores(payload);
    assert '=' !in r by {
      forall i | 0 <= i < |r| ensures r[i] != '=' {
        assert payload[i] != '=';
      }
    }
    assert WordText(w) + [] == WordText(w);
    DecodeWordText(w, []);
  }

  // ---------------------------------------------------------------------------
  // Headers

  /** One element of `headerLines`: a header name and its raw line. */
  datatype HeaderLine = HeaderLine(key: string, line: string)

  datatype Header = Header(name: string, value: string)

  /** The value kept for a `headerLines` entry: the line without a leading `<key>:`
      (the key compared ignoring case) and trimmed of white space. */
  function HeaderLineValue(h: HeaderLine): (v: string)
    ensures |v| <= |h.line|
    ensures v == [] || (!IsJsSpace(v[0]) && !IsJsSpace(v[|v| - 1]))
  {
    Trim(AfterKey(h))
  }

  /** The line without a leading `<key>:`, the key compared ignoring case. */
  function AfterKey(h: HeaderLine): (rest: string)
    ensures |rest| <= |h.line|
  {
    var n := |h.key|;
    if n < |h.line| && EqualsIgnoreCase(h.line[..n], h.key) && h.line[n] == ':'
    then h.line[n + 1..] else h.line
  }

  /** `<Key>: <value>` gives back a trimmed value, whatever the case of the key
      and the white space after the colon. */
  lemma HeaderLineValueOf(key: string, written: string, spaces: string, value: string)
    requires EqualsIgnoreCase(written, key) && |written| == |key|
    requires forall i :: 0 <= i < |spaces| ==> IsJsSpace(spaces[i])
    requires value == [] || (!IsJsSpace(value[0]) && !IsJsSpace(value[|value| - 1]))
    ensures HeaderLineValue(HeaderLine(key, written + ":" + spaces + value)) == value
  {
    var line := written + ":" + spaces + value;
    assert line[..|key|] == written;
    assert line[|key| + 1..] == spaces + value;
    TrimStartSpaces(spaces, value);
  }

  /** `split(/\r?\n/)`. */
  function SplitLines(s: string): (lines: seq<string>)
    ensures |lines| >= 1
    ensures forall k :: 0 <= k < |lines| ==> '\n' !in lines[k]
  {
    if s == [] then [""]
    else if s[0] == '\n' then [""] + SplitLines(s[1..])
    else if |s| >= 2 && s[0] == '\r' && s[1] == '\n' then [""] + SplitLines(s[2..])
    else
      var rest := SplitLines(s[1..]);
      [[s[0]] + rest[0]] + rest[1..]
  }

  predicate NoLineTerminator(s: string) {
    forall i :: 0 <= i < |s| ==> !IsLineTerminator(s[i])
  }

  /** `line.match(/^([^:]+):\s*(.*)$/)`: a non-empty name up to the first colon, then the
      rest without its leading white space, which must hold no line terminator. */
  function ParseHeaderLine(line: string): (h: Option<Header>)
    ensures h.Some? ==> |h.value.name| > 0 && NoLineTerminator(h.value.value)
    ensures h.Some? ==> h.value.value == [] || !IsJsSpace(h.value.value[0])
    ensures ':' !in line ==> h.None?
  {
    var k := PrefixWithout(line, ':');
    if k == 0 || k == |line| then None
    else
      var value := TrimStart(line[k + 1..]);
      if NoLineTerminator(value) then Some(Header(ToLower(line[..k]), value)) else None
  }

  /** A header line written as `<name>:<spaces><value>` parses back to its parts. */
  lemma ParseHeaderLineOf(name: string, spaces: string, value: string)
    requires |name| > 0 && ':' !in name
    requires forall i :: 0 <= i < |spaces| ==> IsJsSpace(spaces[i])
    requires NoLineTerminator(value) && (value == [] || !IsJsSpace(value[0]))
    ensures ParseHeaderLine(name + ":" + spaces + value) == Some(Header(ToLower(name), value))
  {
    var line := name + ":" + spaces + value;
    assert line == name + [':'] + (spaces + value);
    PrefixWithoutAt(name, ':', spaces + value);
    assert line[..|name|] == name;
    assert line[|name| + 1..] == spaces + value;
    TrimStartSpaces(spaces, value);
  }

  /** The headers a raw header block yields, in order, skipping lines that do not parse. */
  function ParsedHeaders(lines: seq<string>): (hs: seq<Header>)
    ensures |hs| <= |lines|
  {
    if lines == [] then []
    else
      var init := ParsedHeaders(lines[..|lines| - 1]);
      match ParseHeaderLine(lines[|lines| - 1])
      case Some(h) => init + [h]
      case None => init
  }

  /** Every header comes from a line of the block that parses to it. */
  lemma {:induction false} ParsedHeadersFrom(lines: seq<string>)
    ensures forall h :: h in ParsedHeaders(lines) ==> exists line :: line in lines && ParseHeaderLine(line) == Some(h)
  {
    if lines != [] {
      var n := |lines| - 1;
      var init := lines[..n];
      assert lines == init + [lines[n]];
      ParsedHeadersFrom(init);
      var parsed := ParseHeaderLine(lines[n]);
      assert ParsedHeaders(lines) == if parsed.Some? then ParsedHeaders(init) + [parsed.value] else ParsedHeaders(init);
      assert forall line :: line in init ==> line in lines;
    }
  }

  /** A block whose lines all parse loses none of them. */
  lemma {:induction false} ParsedHeadersAll(lines: seq<string>)
    requires forall j :: 0 <= j < |lines| ==> ParseHeaderLine(lines[j]).Some?
    ensures |ParsedHeaders(lines)| == |lines|
  {
    if lines != [] {
      var n := |lines| - 1;
      var init := lines[..n];
      forall j | 0 <= j < n ensures ParseHeaderLine(init[j]).Some? {
        assert init[j] == lines[j];
      }
      ParsedHeadersAll(init);
      var parsed := ParseHeaderLine(lines[n]);
      assert ParsedHeaders(lines) == ParsedHeaders(init) + [parsed.value];
    }
  }

  /** The headers `headerLines` yields: lower-cased names and their values. */
  function StructuredHeaders(hls: seq<HeaderLine>): (hs: seq<Header>)
    ensures |hs| == |hls|
    ensures forall i :: 0 <= i < |hls| ==> hs[i].name == ToLower(hls[i].key)
  {
    seq(|hls|, i requires 0 <= i < |hls| => Header(ToLower(hls[i].key), HeaderLineValue(hls[i])))
  }

  /** The one name whose assignment on a plain object is not a property: it reaches the
      inherited `__proto__` setter, which ignores a string value. */
  const ProtoKey: string := "__proto__"

  /** `record[name] = value` on a plain object holding string properties. */
  function SetProperty(m: map<string, string>, name: string, value: string): (r: map<string, string>)
    ensures name == ProtoKey ==> r == m
    ensures name != ProtoKey ==> r.Keys == m.Keys + {name} && r[name] == value
    ensures forall k :: k in m && k != name ==> k in r && r[k] == m[k]
  {
    if name == ProtoKey then m else m[name := value]
  }

  /** The record built by assigning the headers one after another. */
  function MapOfHeaders(hs: seq<Header>): (m: map<string, string>)
    ensures m.Keys == set i | 0 <= i < |hs| && hs[i].name != ProtoKey :: hs[i].name
  {
    if hs == [] then map[]
    else
      var init := hs[..|hs| - 1];
      var h := hs[|hs| - 1];
      var m := MapOfHeaders(init);
      assert (set i | 0 <= i < |hs| && hs[i].name != ProtoKey :: hs[i].name)
          == (set i | 0 <= i < |init| && init[i].name != ProtoKey :: init[i].name)
             + (if h.name == ProtoKey then {} else {h.name});
      SetProperty(m, h.name, h.value)
  }

  /** A header's value is that of its last occurrence. */
  lemma {:induction false} MapOfHeadersLastWins(hs: seq<Header>, i: nat)
    requires i < |hs| && hs[i].name != ProtoKey
    requires forall j :: i < j < |hs| ==> hs[j].name != hs[i].name
    ensures MapOfHeaders(hs)[hs[i].name] == hs[i].value
  {
    if i < |hs| - 1 {
      var init := hs[..|hs| - 1];
      assert init[i] == hs[i];
      MapOfHeadersLastWins(init, i);
    }
  }

  /** The headers of a payload: `headerLines` when it is an array, even an empty one;
      otherwise the `headers` string; otherwise none. */
  function HeadersOf(p: Payload): (headers: map<string, string>)
    ensures p.headerLines.Some? ==>
      headers.Keys == set i | 0 <= i < |p.headerLines.value| && ToLower(p.headerLines.value[i].key) != ProtoKey
                            :: ToLower(p.headerLines.value[i].key)
    ensures p.headerLines.None? && p.headers.None? ==> headers == map[]
  {
    if p.headerLines.Some? then MapOfHeaders(StructuredHeaders(p.headerLines.value))
    else if p.headers.Some? then MapOfHeaders(ParsedHeaders(SplitLines(p.headers.value)))
    else map[]
  }

  /** A header line named `__proto__`, in any case, leaves no header behind. */
  lemma ProtoHeaderDropped(key: string, line: string)
    requires ToLower(key) == ProtoKey
    ensures HeadersOf(Payload(None, None, None, None, None, None, Some([HeaderLine(key, line)]), None)) == map[]
  {
  }

  lemma MapOfHeadersSnoc(hs: seq<Header>, h: Header)
    ensures MapOfHeaders(hs + [h]) == SetProperty(MapOfHeaders(hs), h.name, h.value)
  {
    assert (hs + [h])[..|hs|] == hs;
  }

  lemma StructuredHeadersSnoc(hls: seq<HeaderLine>, h: HeaderLine)
    ensures StructuredHeaders(hls + [h])
         == StructuredHeaders(hls) + [Header(ToLower(h.key), HeaderLineValue(h))]
  {
    var a := StructuredHeaders(hls + [h]);
    var b := StructuredHeaders(hls) + [Header(ToLower(h.key), HeaderLineValue(h))];
    assert |a| == |b|;
    forall i | 0 <= i < |a| ensures a[i] == b[i] {
      if i < |hls| {
        assert (hls + [h])[i] == hls[i];
      }
    }
    assert a == b;
  }

  lemma AssignHeaderLineStep(hls: seq<HeaderLine>, i: nat)
    requires i < |hls|
    ensures MapOfHeaders(StructuredHeaders(hls[..i + 1]))
         == SetProperty(MapOfHeaders(StructuredHeaders(hls[..i])), ToLower(hls[i].key), HeaderLineValue(hls[i]))
  {
    var h := hls[i];
    assert hls[..i + 1] == hls[..i] + [h];
    StructuredHeadersSnoc(hls[..i], h);
    MapOfHeadersSnoc(StructuredHeaders(hls[..i]), Header(ToLower(h.key), HeaderLineValue(h)));
  }

  /** The `headerLines` loop of `extractHeaders`. */
  method AssignHeaderLines(hls: seq<HeaderLine>) returns (headers: map<string, string>)
    ensures headers == MapOfHeaders(StructuredHeaders(hls))
  {
    headers := map[];
    var i := 0;
    while i < |hls|
      invariant 0 <= i <= |hls|
      invariant headers == MapOfHeaders(StructuredHeaders(hls[..i]))
    {
      AssignHeaderLineStep(hls, i);
      var key := ToLower(hls[i].key);
      if key != ProtoKey {
        headers := headers[key := HeaderLineValue(hls[i])];
      }
      i := i + 1;
    }
    assert hls[..i] == hls;
  }

  /** The header-string loop of `extractHeaders`. */
  method AssignHeaderBlock(block: string) returns (headers: map<string, string>)
    ensures headers == MapOfHeaders(ParsedHeaders(SplitLines(block)))
  {
    var lines := SplitLines(block);
    headers := map[];
    var i := 0;
    while i < |lines|
      invariant 0 <= i <= |lines|
      invariant headers == MapOfHeaders(ParsedHeaders(lines[..i]))
    {
      assert lines[..i + 1][..i] == lines[..i];
      match ParseHeaderLine(lines[i]) {
        case Some(h) =>
          MapOfHeadersSnoc(ParsedHeaders(lines[..i]), h);
          if h.name != ProtoKey {
            headers := headers[h.name := h.value];
          }
        case None =>
      }
      i := i + 1;
    }
    assert lines[..i] == lines;
  }

  /** `extractHeaders`. */
  method ExtractHeaders(p: Payload) returns (headers: map<string, string>)
    ensures p.headerLines.Some? ==>
      headers == MapOfHeaders(StructuredHeaders(p.headerLines.value))
    ensures p.headerLines.None? && p.headers.Some? ==>
      headers == MapOfHeaders(ParsedHeaders(SplitLines(p.headers.value)))
    ensures p.headerLines.None? && p.headers.None? ==> headers == map[]
  {
    if p.headerLines.Some? {
      headers := AssignHeaderLines(p.headerLines.value);
    } else if p.headers.Some? {
      headers := AssignHeaderBlock(p.headers.value);
    } else {
      headers := map[];
    }
  }

  // ---------------------------------------------------------------------------
  // The webhook payload

  datatype Address = Address(address: Option<string>, name: Option<string>)

  /** The parsed `from` field: its address list and its display text. */
  datatype FromField = FromField(value: Option<seq<Address>>, text: Option<string>)

  /** The fields of a ForwardEmail.net webhook body the service reads; `None` stands for
      an absent field (and, for `headers`, for one that is not a string). */
  datatype Payload = Payload(
    recipients: Option<seq<string>>,
    from: Option<FromField>,
    subject: Option<string>,
    text: Option<string>,
    html: Option<string>,
    date: Option<string>,
    headerLines: Option<seq<HeaderLine>>,
    headers: Option<string>)

  /** `payload.recipients?.[0] || ''`. */
  function RecipientOf(p: Payload): (to: string)
    ensures to != "" ==> p.recipients.Some? && |p.recipients.value| > 0 && to == p.recipients.value[0]
    ensures p.recipients.Some? && |p.recipients.value| > 0 ==> to == p.recipients.value[0]
  {
    if p.recipients.Some? && |p.recipients.value| > 0 then p.recipients.value[0] else ""
  }

  /** The sender line: the `from` text, else `<name> <<address>>` built from the first
      parsed address, else `Unknown Sender`. */
  function SenderOf(from: Option<FromField>): (s: string)
    ensures s != ""
    ensures from.Some? && Or(from.value.text, "") != "" ==> s == from.value.text.value
    ensures from.Some? && Or(from.value.text, "") == "" && FirstAddress(from.value).Some? ==>
      var first := FirstAddress(from.value).value;
      s == Or(first.name, "") + " <" + first.address.value + ">"
    ensures from.None? || (Or(from.value.text, "") == "" && FirstAddress(from.value).None?) ==>
      s == UnknownSender
  {
    if from.None? then UnknownSender
    else if Or(from.value.text, "") != "" then from.value.text.value
    else match FirstAddress(from.value)
      case Some(first) => Or(first.name, "") + " <" + first.address.value + ">"
      case None => UnknownSender
  }

  const UnknownSender: string := "Unknown Sender"

  /** `from.value?.[0]`, when its `address` is truthy. */
  function FirstAddress(from: FromField): (a: Option<Address>)
    ensures a.Some? ==> Or(a.value.address, "") != ""
    ensures a.Some? ==> from.value.Some? && |from.value.value| > 0 && a.value == from.value.value[0]
  {
    if from.value.Some? && |from.value.value| > 0 && Or(from.value.value[0].address, "") != "" then
      Some(from.value.value[0])
    else None
  }

  /** The email record `parseForwardEmailPayload` builds. `now` is the clock reading taken
      while parsing and `parsedDate` is what `new Date(date).getTime()` gives for the
      payload's date string. */
  function Normalize(p: Payload, now: int, parsedDate: Timestamp): (e: EmailData)
    ensures e.from != ""
    ensures e.subject == DecodeEncodedWords(Or(p.subject, "No Subject"))
    ensures e.from == SenderOf(p.from)
    ensures Or(p.html, "") != "" ==> e.content == p.html.value
    ensures Or(p.html, "") == "" ==> e.content == Or(p.text, "")
    ensures Or(p.date, "") != "" ==> e.receivedAt == parsedDate
    ensures Or(p.date, "") == "" ==> e.receivedAt == At(now)
    ensures e.headers == HeadersOf(p)
  {
    EmailData(
      DecodeEncodedWords(Or(p.subject, "No Subject")),
      SenderOf(p.from),
      Or(p.html, Or(p.text, "")),
      if Or(p.date, "") != "" then parsedDate else At(now),
      HeadersOf(p))
  }

  const MissingPayload: string := "Missing or invalid webhook payload"

  /** `parseForwardEmailPayload`: fails on a missing (falsy) payload. */
  method ParseForwardEmailPayload(payload: Option<Payload>, now: int, parsedDate: Timestamp)
    returns (r: Result<EmailData, string>)
    ensures payload.None? ==> r == Failure(MissingPayload)
    ensures payload.Some? ==> r == Success(Normalize(payload.value, now, parsedDate))
  {
    if payload.None? {
      return Failure(MissingPayload);
    }
    var headers := ExtractHeaders(payload.value);
    r := Success(Normalize(payload.value, now, parsedDate).(headers := headers));
  }
}
