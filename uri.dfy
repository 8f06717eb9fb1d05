/** `encodeURIComponent`: the characters of the unreserved set pass
    through, every other character is written as the `%HH` escapes of its
    UTF-8 bytes, with upper-case hexadecimal digits (section 19.2.6.5 of
    ECMA-262).  Characters here are Unicode scalar values, so the lone
    surrogates on which the function throws cannot occur. */
module Uri {
  import opened Wrappers

  type Byte = b: int | 0 <= b < 256

  /** Letters, digits and `- _ . ! ~ * ' ( )`: left as they are. */
  predicate Unreserved(c: char) {
    || ('A' <= c <= 'Z') || ('a' <= c <= 'z') || ('0' <= c <= '9')
    || c == '-' || c == '_' || c == '.' || c == '!' || c == '~'
    || c == '*' || c == '\'' || c == '(' || c == ')'
  }

  /** A character that can appear in the output of `Encode`. */
  predicate UriChar(c: char) {
    Unreserved(c) || c == '%'
  }

  /** The UTF-8 encoding of one code point: one byte below U+0080, two
      below U+0800, three below U+10000, four above. */
  function Utf8(c: char): (bs: seq<Byte>)
    ensures 1 <= |bs| <= 4
    ensures (c as int < 0x80) <==> |bs| == 1
    ensures |bs| == 1 ==> bs[0] == c as int
  {
    var cp := c as int;
    if cp < 0x80 then [cp]
    else if cp < 0x800 then [0xC0 + cp / 64, 0x80 + cp % 64]
    else if cp < 0x10000 then [0xE0 + cp / 4096, 0x80 + (cp / 64) % 64, 0x80 + cp % 64]
    else [0xF0 + cp / 262144, 0x80 + (cp / 4096) % 64, 0x80 + (cp / 64) % 64, 0x80 + cp % 64]
  }

  /** The code point one to four UTF-8 bytes stand for: the payload bits
      of the lead byte followed by six bits from each continuation byte. */
  function Utf8CodePoint(bs: seq<Byte>): int
    requires 1 <= |bs| <= 4
  {
    var b: seq<int> := bs;
    if |b| == 1 then b[0]
    else if |b| == 2 then (b[0] - 0xC0) * 64 + (b[1] - 0x80)
    else if |b| == 3 then (b[0] - 0xE0) * 4096 + (b[1] - 0x80) * 64 + (b[2] - 0x80)
    else (b[0] - 0xF0) * 262144 + (b[1] - 0x80) * 4096 + (b[2] - 0x80) * 64 + (b[3] - 0x80)
  }

  /** The UTF-8 bytes of a whole string. */
  function Utf8String(s: string): seq<Byte> {
    if s == [] then [] else Utf8(s[0]) + Utf8String(s[1..])
  }

  /** The upper-case hexadecimal digit of `d`. */
  function HexDigit(d: int): (c: char)
    requires 0 <= d < 16
    ensures Unreserved(c)
  {
    if d < 10 then ('0' as int + d) as char else ('A' as int + d - 10) as char
  }

  predicate IsHexDigit(c: char) {
    ('0' <= c <= '9') || ('A' <= c <= 'F')
  }

  function HexValue(c: char): (d: int)
    requires IsHexDigit(c)
    ensures 0 <= d < 16
  {
    if c <= '9' then c as int - '0' as int else c as int - 'A' as int + 10
  }

  /** `%HH` for every byte. */
  function PercentBytes(bs: seq<Byte>): (r: string)
    ensures |r| == 3 * |bs|
    ensures forall i :: 0 <= i < |r| ==> UriChar(r[i])
  {
    if bs == [] then []
    else ['%', HexDigit(bs[0] / 16), HexDigit(bs[0] % 16)] + PercentBytes(bs[1..])
  }

  function EncodeChar(c: char): (r: string)
    ensures forall i :: 0 <= i < |r| ==> UriChar(r[i])
  {
    if Unreserved(c) then [c] else PercentBytes(Utf8(c))
  }

  /** `encodeURIComponent(s)`: its output uses only unreserved characters
      and `%`, so it cannot end a path segment or start a query or a
      fragment. */
  function Encode(s: string): (r: string)
    ensures |r| >= |s|
    ensures forall i :: 0 <= i < |r| ==> UriChar(r[i])
  {
    if s == [] then [] else EncodeChar(s[0]) + Encode(s[1..])
  }

  /** Percent-decoding to bytes: `%HH` is one byte, any other character
      stands for its own UTF-8 bytes, and a `%` not followed by two hex
      digits is an error. */
  function PercentDecode(e: string): Option<seq<Byte>>
  {
    if e == [] then Some([])
    else if e[0] == '%' then
      if |e| >= 3 && IsHexDigit(e[1]) && IsHexDigit(e[2]) then
        match PercentDecode(e[3..])
        case None => None
        case Some(rest) => Some([HexValue(e[1]) * 16 + HexValue(e[2])] + rest)
      else None
    else
      match PercentDecode(e[1..])
      case None => None
      case Some(rest) => Some(Utf8(e[0]) + rest)
  }
}

/** What the encoding promises: it is undone by percent-decoding, it works
    character by character, and it leaves plain words alone. */
module UriProperties {
  import opened Wrappers
  import opened Uri

  lemma HexRoundTrip(d: int)
    requires 0 <= d < 16
    ensures IsHexDigit(HexDigit(d)) && HexValue(HexDigit(d)) == d
  {
  }

  /** The UTF-8 bytes of a character determine it: two different
      characters never share an encoding. */
  lemma Utf8Decodes(c: char)
    ensures Utf8CodePoint(Utf8(c)) == c as int
  {
    var cp := c as int;
    if cp >= 0x10000 {
      FourBytes(cp);
    } else if cp >= 0x800 {
      ThreeBytes(cp);
    }
  }

  /** The three six-bit groups below the lead bits put back together. */
  lemma ThreeBytes(cp: int)
    requires 0 <= cp
    ensures cp == (cp / 4096) * 4096 + ((cp / 64) % 64) * 64 + cp % 64
  {
    var q := cp / 64;
    assert cp == q * 64 + cp % 64;
    assert q / 64 == cp / 4096;
    assert q == (q / 64) * 64 + q % 64;
  }

  lemma FourBytes(cp: int)
    requires 0 <= cp
    ensures cp == (cp / 262144) * 262144 + ((cp / 4096) % 64) * 4096 + ((cp / 64) % 64) * 64 + cp % 64
  {
    var q := cp / 4096;
    ThreeBytes(cp);
    assert q / 64 == cp / 262144;
    assert q == (q / 64) * 64 + q % 64;
  }

  lemma Utf8Injective(a: char, b: char)
    requires Utf8(a) == Utf8(b)
    ensures a == b
  {
    Utf8Decodes(a);
    Utf8Decodes(b);
  }

  /** The bytes `bs` put in front of a successful decoding. */
  function Prefixed(bs: seq<Byte>, o: Option<seq<Byte>>): Option<seq<Byte>> {
    match o
    case None => None
    case Some(r) => Some(bs + r)
  }

  lemma PrefixedTwice(a: seq<Byte>, b: seq<Byte>, o: Option<seq<Byte>>)
    ensures Prefixed(a, Prefixed(b, o)) == Prefixed(a + b, o)
  {
    if o.Some? {
      assert a + (b + o.value) == (a + b) + o.value;
    }
  }

  lemma {:induction false} DecodePercentBytes(bs: seq<Byte>, rest: string)
    ensures PercentDecode(PercentBytes(bs) + rest) == Prefixed(bs, PercentDecode(rest))
    decreases |bs|
  {
    if bs == [] {
      DecodeNoBytes(rest);
    } else {
      var tail := PercentBytes(bs[1..]) + rest;
      PercentBytesCons(bs, rest);
      DecodePercentBytes(bs[1..], rest);
      DecodeOneByte(bs[0], tail);
      PrefixedTwice([bs[0]], bs[1..], PercentDecode(rest));
    }
  }

  lemma DecodeNoBytes(rest: string)
    ensures PercentDecode(PercentBytes([]) + rest) == Prefixed([], PercentDecode(rest))
  {
    assert PercentBytes([]) + rest == rest;
    if PercentDecode(rest).Some? {
      assert [] + PercentDecode(rest).value == PercentDecode(rest).value;
    }
  }

  lemma PercentBytesCons(bs: seq<Byte>, rest: string)
    requires bs != []
    ensures PercentBytes(bs) + rest
      == ['%', HexDigit(bs[0] / 16), HexDigit(bs[0] % 16)] + (PercentBytes(bs[1..]) + rest)
    ensures [bs[0]] + bs[1..] == bs
  {
  }

  /** One `%HH` escape decodes to its byte. */
  lemma DecodeOneByte(b: Byte, tail: string)
    ensures PercentDecode(['%', HexDigit(b / 16), HexDigit(b % 16)] + tail)
      == Prefixed([b], PercentDecode(tail))
  {
    HexRoundTrip(b / 16);
    HexRoundTrip(b % 16);
    var e := ['%', HexDigit(b / 16), HexDigit(b % 16)] + tail;
    assert e[0] == '%' && e[1] == HexDigit(b / 16) && e[2] == HexDigit(b % 16);
    assert e[3..] == tail;
  }

  lemma DecodeEncodeChar(c: char, rest: string)
    ensures PercentDecode(EncodeChar(c) + rest) == Prefixed(Utf8(c), PercentDecode(rest))
  {
    if Unreserved(c) {
      assert (EncodeChar(c) + rest)[1..] == rest;
    } else {
      DecodePercentBytes(Utf8(c), rest);
    }
  }

  /** Percent-decoding the encoding of `s` gives back the UTF-8 bytes of
      `s`: the encoding loses nothing. */
  lemma {:induction false} DecodeEncode(s: string)
    ensures PercentDecode(Encode(s)) == Some(Utf8String(s))
    decreases |s|
  {
    if s != [] {
      DecodeEncode(s[1..]);
      DecodeEncodeChar(s[0], Encode(s[1..]));
    }
  }

  /** The encoding of a concatenation is the concatenation of the encodings. */
  lemma {:induction false} EncodeConcat(a: string, b: string)
    ensures Encode(a + b) == Encode(a) + Encode(b)
    decreases |a|
  {
    if a != [] {
      assert (a + b)[1..] == a[1..] + b;
      EncodeConcat(a[1..], b);
    } else {
      assert a + b == b;
    }
  }

  /** A string of unreserved characters is its own encoding. */
  lemma {:induction false} EncodeUnreserved(s: string)
    requires forall i :: 0 <= i < |s| ==> Unreserved(s[i])
    ensures Encode(s) == s
    decreases |s|
  {
    if s != [] {
      EncodeUnreserved(s[1..]);
    }
  }

  /** A space becomes `%20`, a double quote `%22`, a colon `%3A`, and `é`
      the two bytes `%C3%A9`. */
  lemma EncodeExamples()
    ensures EncodeChar(' ') == "%20"
    ensures EncodeChar('"') == "%22"
    ensures EncodeChar(':') == "%3A"
    ensures EncodeChar('\U{00E9}') == "%C3%A9"
  {
    OneByteEscape(' ', 0x20);
    OneByteEscape('"', 0x22);
    OneByteEscape(':', 0x3A);
    AccentEscape();
  }

  /** A reserved ASCII character is the one escape of its code. */
  lemma OneByteEscape(c: char, code: Byte)
    requires c as int == code < 0x80 && !Unreserved(c)
    ensures EncodeChar(c) == ['%', HexDigit(code / 16), HexDigit(code % 16)]
  {
    assert Utf8(c) == [code];
  }

  lemma AccentEscape()
    ensures EncodeChar('\U{00E9}') == "%C3%A9"
  {
    var bs := Utf8('\U{00E9}');
    assert bs == [0xC3, 0xA9];
    assert PercentBytes([0xA9]) == "%A9";
    assert PercentBytes(bs) == "%C3" + PercentBytes([0xA9]);
  }
}
