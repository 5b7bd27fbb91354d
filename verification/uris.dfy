/** Percent-encoding of identifiers, as `Uri.EscapeUriString` applies it to
    the subject URI: characters of the unreserved and reserved sets of
    section 2 of RFC 3986 pass unchanged, every other character becomes the
    percent-encoded octets of its UTF-8 encoding (section 2.1 and 2.5 of
    RFC 3986), with upper-case hexadecimal digits.

    The decoding direction (percent-decoding followed by UTF-8 decoding) is
    not used by the handlers; it is the reference against which escaping is
    shown to lose nothing, so that distinct identifiers get distinct
    subject URIs. */
module Uris {
  import opened Options

  type Byte = b: int | 0 <= b < 256

  /** unreserved = ALPHA / DIGIT / "-" / "." / "_" / "~" */
  predicate IsUnreserved(c: char) {
    || ('A' <= c <= 'Z') || ('a' <= c <= 'z') || ('0' <= c <= '9')
    || c == '-' || c == '.' || c == '_' || c == '~'
  }

  /** reserved = gen-delims / sub-delims */
  predicate IsReserved(c: char) {
    || c == ':' || c == '/' || c == '?' || c == '#' || c == '[' || c == ']' || c == '@'
    || c == '!' || c == '$' || c == '&' || c == '\'' || c == '(' || c == ')'
    || c == '*' || c == '+' || c == ',' || c == ';' || c == '='
  }

  /** Characters the escaper leaves as they are. */
  predicate PassesUnescaped(c: char) {
    IsUnreserved(c) || IsReserved(c)
  }

  predicate IsHexDigit(c: char) {
    ('0' <= c <= '9') || ('A' <= c <= 'F') || ('a' <= c <= 'f')
  }

  function HexDigit(n: nat): (c: char)
    requires n < 16
    ensures IsHexDigit(c) && IsUnreserved(c)
  {
    if n < 10 then ('0' as int + n) as char else ('A' as int + n - 10) as char
  }

  function HexValue(c: char): (n: nat)
    requires IsHexDigit(c)
    ensures n < 16
  {
    if '0' <= c <= '9' then c as int - '0' as int
    else if 'A' <= c <= 'F' then c as int - 'A' as int + 10
    else c as int - 'a' as int + 10
  }

  lemma HexRoundTrip(b: Byte)
    ensures HexValue(HexDigit(b / 16)) * 16 + HexValue(HexDigit(b % 16)) == b
  {
  }

  /** The UTF-8 encoding of one Unicode scalar value (section 3 of RFC 3629). */
  function Utf8(c: char): (bs: seq<Byte>)
    ensures 1 <= |bs| <= 4
    ensures (c as int < 0x80) <==> |bs| == 1
  {
    var n := c as int;
    var q1 := n / 64;
    var q2 := q1 / 64;
    var q3 := q2 / 64;
    if n < 0x80 then [n]
    else if n < 0x800 then [0xC0 + q1, 0x80 + n % 64]
    else if n < 0x10000 then [0xE0 + q2, 0x80 + q1 % 64, 0x80 + n % 64]
    else [0xF0 + q3, 0x80 + q2 % 64, 0x80 + q1 % 64, 0x80 + n % 64]
  }

  function Utf8Encode(s: string): seq<Byte>
    decreases |s|
  {
    if |s| == 0 then [] else Utf8(s[0]) + Utf8Encode(s[1..])
  }

  /** "%XX" for every octet. */
  function PercentEncode(bs: seq<Byte>): (r: string)
    ensures |r| == 3 * |bs|
    ensures forall i :: 0 <= i < |r| ==> r[i] == '%' || IsUnreserved(r[i])
    decreases |bs|
  {
    if |bs| == 0 then "" else Triplet(bs[0]) + PercentEncode(bs[1..])
  }

  function EscapeChar(c: char): string {
    if PassesUnescaped(c) then [c] else PercentEncode(Utf8(c))
  }

  /** `Uri.EscapeUriString`. Its result holds only characters a URI may
      contain: the unreserved and reserved ones, and '%' introducing an
      escape. A string that needs no escaping is returned unchanged. */
  function Escape(s: string): (r: string)
    ensures forall i :: 0 <= i < |r| ==> PassesUnescaped(r[i]) || r[i] == '%'
    ensures (forall i :: 0 <= i < |s| ==> PassesUnescaped(s[i])) ==> r == s
    ensures |s| <= |r|
    decreases |s|
  {
    if |s| == 0 then "" else EscapeChar(s[0]) + Escape(s[1..])
  }

  /** Escaping distributes over concatenation. */
  lemma {:induction false} EscapeAppend(a: string, b: string)
    ensures Escape(a + b) == Escape(a) + Escape(b)
    decreases |a|
  {
    if |a| == 0 {
      assert a + b == b;
    } else {
      assert (a + b)[0] == a[0];
      assert (a + b)[1..] == a[1..] + b;
      EscapeAppend(a[1..], b);
    }
  }

  /** Percent-decoding (section 2.1 of RFC 3986) to octets; a character that
      is not ASCII, or a '%' not followed by two hexadecimal digits, makes
      the text undecodable. */
  function PercentDecode(t: string): Option<seq<Byte>>
    decreases |t|
  {
    if |t| == 0 then Some([])
    else if t[0] == '%' then
      if 3 <= |t| && IsHexDigit(t[1]) && IsHexDigit(t[2]) then
        PrependBytes([HexValue(t[1]) * 16 + HexValue(t[2])], PercentDecode(t[3..]))
      else None
    else if t[0] as int < 0x80 then PrependBytes([t[0] as int], PercentDecode(t[1..]))
    else None
  }

  function PrependBytes(bs: seq<Byte>, rest: Option<seq<Byte>>): Option<seq<Byte>> {
    match rest
    case None => None
    case Some(r) => Some(bs + r)
  }

  function PrependChar(c: char, rest: Option<string>): Option<string> {
    match rest
    case None => None
    case Some(r) => Some([c] + r)
  }

  lemma PrependNothing(rest: Option<seq<Byte>>)
    ensures PrependBytes([], rest) == rest
  {
    if rest.Some? {
      assert [] + rest.value == rest.value;
    }
  }

  lemma PrependTwice(bs: seq<Byte>, rest: Option<seq<Byte>>)
    requires 0 < |bs|
    ensures PrependBytes([bs[0]], PrependBytes(bs[1..], rest)) == PrependBytes(bs, rest)
  {
    if rest.Some? {
      assert [bs[0]] + (bs[1..] + rest.value) == bs + rest.value;
    }
  }

  predicate IsContinuation(b: Byte) {
    0x80 <= b < 0xC0
  }

  predicate IsScalar(n: int) {
    (0 <= n < 0xD800) || (0xE000 <= n < 0x110000)
  }

  /** The first scalar value of a UTF-8 octet sequence and how many octets
      it takes. */
  function DecodeFirst(bs: seq<Byte>): (r: Option<(char, nat)>)
    ensures r.Some? ==> 1 <= r.value.1 <= |bs|
  {
    if |bs| == 0 then None
    else
      var b0 := bs[0] as int;
      var b1 := if 2 <= |bs| then bs[1] as int else 0;
      var b2 := if 3 <= |bs| then bs[2] as int else 0;
      var b3 := if 4 <= |bs| then bs[3] as int else 0;
      if b0 < 0x80 then Some((b0 as char, 1))
      else if 0xC0 <= b0 < 0xE0 then
        if 2 <= |bs| && IsContinuation(bs[1]) then
          Some((((b0 - 0xC0) * 64 + (b1 - 0x80)) as char, 2))
        else None
      else if 0xE0 <= b0 < 0xF0 then
        if 3 <= |bs| && IsContinuation(bs[1]) && IsContinuation(bs[2]) then
          var n := ((b0 - 0xE0) * 64 + (b1 - 0x80)) * 64 + (b2 - 0x80);
          if IsScalar(n) then Some((n as char, 3)) else None
        else None
      else if 0xF0 <= b0 < 0xF8 then
        if 4 <= |bs| && IsContinuation(bs[1]) && IsContinuation(bs[2]) && IsContinuation(bs[3]) then
          var n := (((b0 - 0xF0) * 64 + (b1 - 0x80)) * 64 + (b2 - 0x80)) * 64 + (b3 - 0x80);
          if IsScalar(n) then Some((n as char, 4)) else None
        else None
      else None
  }

  function Utf8Decode(bs: seq<Byte>): Option<string>
    decreases |bs|
  {
    if |bs| == 0 then Some("")
    else
      match DecodeFirst(bs)
      case None => None
      case Some(p) => PrependChar(p.0, Utf8Decode(bs[p.1..]))
  }

  /** The inverse of `Escape`: percent-decode, then decode UTF-8. */
  function Unescape(t: string): Option<string> {
    match PercentDecode(t)
    case None => None
    case Some(bs) => Utf8Decode(bs)
  }

  lemma DecodeFirstUtf8(c: char, rest: seq<Byte>)
    ensures DecodeFirst(Utf8(c) + rest) == Some((c, |Utf8(c)|))
  {
    var n := c as int;
    var bs := Utf8(c) + rest;
    var q1 := n / 64;
    var q2 := q1 / 64;
    var q3 := q2 / 64;
    assert n == q1 * 64 + n % 64;
    assert q1 == q2 * 64 + q1 % 64;
    assert q2 == q3 * 64 + q2 % 64;
    if n < 0x80 {
    } else if n < 0x800 {
      assert bs[0] == 0xC0 + q1 && bs[1] == 0x80 + n % 64;
    } else if n < 0x10000 {
      assert bs[0] == 0xE0 + q2 && bs[1] == 0x80 + q1 % 64 && bs[2] == 0x80 + n % 64;
      assert ((bs[0] as int - 0xE0) * 64 + (bs[1] as int - 0x80)) * 64 + (bs[2] as int - 0x80) == n;
    } else {
      assert bs[0] == 0xF0 + q3 && bs[1] == 0x80 + q2 % 64 && bs[2] == 0x80 + q1 % 64 && bs[3] == 0x80 + n % 64;
      assert (((bs[0] as int - 0xF0) * 64 + (bs[1] as int - 0x80)) * 64 + (bs[2] as int - 0x80)) * 64 + (bs[3] as int - 0x80) == n;
    }
  }

  /** UTF-8 decoding undoes UTF-8 encoding. */
  lemma {:induction false} Utf8RoundTrip(s: string)
    ensures Utf8Decode(Utf8Encode(s)) == Some(s)
    decreases |s|
  {
    if |s| > 0 {
      var bs := Utf8Encode(s);
      DecodeFirstUtf8(s[0], Utf8Encode(s[1..]));
      assert bs[|Utf8(s[0])|..] == Utf8Encode(s[1..]);
      Utf8RoundTrip(s[1..]);
      assert [s[0]] + s[1..] == s;
    }
  }

  function Triplet(b: Byte): string {
    ['%', HexDigit(b / 16), HexDigit(b % 16)]
  }

  /** One "%XX" decodes to its octet. */
  lemma PercentDecodeTriplet(b: Byte, tail: string)
    ensures PercentDecode(Triplet(b) + tail) == PrependBytes([b], PercentDecode(tail))
  {
    var t := Triplet(b) + tail;
    HexRoundTrip(b);
    assert t[0] == '%' && t[1] == HexDigit(b / 16) && t[2] == HexDigit(b % 16);
    assert t[3..] == tail;
  }

  lemma {:induction false} PercentDecodeEncode(bs: seq<Byte>, rest: string)
    ensures PercentDecode(PercentEncode(bs) + rest) == PrependBytes(bs, PercentDecode(rest))
    decreases |bs|
  {
    if |bs| == 0 {
      assert PercentEncode(bs) + rest == rest;
      PrependNothing(PercentDecode(rest));
    } else {
      var tail := PercentEncode(bs[1..]) + rest;
      assert PercentEncode(bs) + rest == Triplet(bs[0]) + tail;
      PercentDecodeTriplet(bs[0], tail);
      PercentDecodeEncode(bs[1..], rest);
      PrependTwice(bs, PercentDecode(rest));
    }
  }

  lemma {:induction false} PercentDecodeEscape(s: string)
    ensures PercentDecode(Escape(s)) == Some(Utf8Encode(s))
    decreases |s|
  {
    if |s| > 0 {
      var c := s[0];
      PercentDecodeEscape(s[1..]);
      assert Escape(s) == EscapeChar(c) + Escape(s[1..]);
      assert Utf8Encode(s) == Utf8(c) + Utf8Encode(s[1..]);
      if PassesUnescaped(c) {
        var t := Escape(s);
        assert Utf8(c) == [c as int];
        assert t[0] == c && t[1..] == Escape(s[1..]);
      } else {
        PercentDecodeEncode(Utf8(c), Escape(s[1..]));
      }
    }
  }

  /** Unescaping an escaped string gives the string back. */
  lemma EscapeRoundTrip(s: string)
    ensures Unescape(Escape(s)) == Some(s)
  {
    PercentDecodeEscape(s);
    Utf8RoundTrip(s);
  }

  /** Escaping is injective: distinct identifiers never share an escaped form. */
  lemma EscapeInjective(a: string, b: string)
    ensures Escape(a) == Escape(b) <==> a == b
  {
    EscapeRoundTrip(a);
    EscapeRoundTrip(b);
  }
}
