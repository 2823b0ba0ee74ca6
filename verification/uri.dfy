/** encodeURIComponent, as defined by ECMA-262 (the URI Handling Functions
    section: Encode with an empty extra unescaped set, so that only ASCII
    letters, digits and `-_.!~*'()` are left as written), and the
    percent-decoding of section 2.1 of RFC 3986 used to state what an encoded
    payload carries.

    A Dafny `char` is a Unicode scalar value, so a string here never holds a
    lone surrogate: the URIError case of encodeURIComponent cannot arise, and
    the UTF-8 step is the plain UTF-8 encoding of each scalar value. */
module UriEncoding {
  import opened Optional

  type Byte = b: int | 0 <= b < 256

  /** The characters encodeURIComponent leaves alone: ASCII letters, digits
      and `- _ . ! ~ * ' ( )`. */
  predicate IsUnreserved(c: char) {
    ('A' <= c <= 'Z') || ('a' <= c <= 'z') || ('0' <= c <= '9')
    || c == '-' || c == '_' || c == '.' || c == '!' || c == '~'
    || c == '*' || c == '\'' || c == '(' || c == ')'
  }

  /** The hexadecimal digits encodeURIComponent writes (upper case). */
  predicate IsUpperHexDigit(c: char) {
    ('0' <= c <= '9') || ('A' <= c <= 'F')
  }

  /** Any hexadecimal digit; RFC 3986 treats both cases alike when decoding. */
  predicate IsHexDigit(c: char) {
    IsUpperHexDigit(c) || ('a' <= c <= 'f')
  }

  function HexDigit(d: int): (c: char)
    requires 0 <= d < 16
    ensures IsUpperHexDigit(c)
  {
    if d < 10 then ('0' as int + d) as char else ('A' as int + d - 10) as char
  }

  function HexValue(c: char): (v: int)
    requires IsHexDigit(c)
    ensures 0 <= v < 16
  {
    if '0' <= c <= '9' then c as int - '0' as int
    else if 'A' <= c <= 'F' then c as int - 'A' as int + 10
    else c as int - 'a' as int + 10
  }

  /** Reading back a written digit gives the digit's value. */
  lemma HexDigitRoundTrip(d: int)
    requires 0 <= d < 16
    ensures HexValue(HexDigit(d)) == d
  {
  }

  /** The UTF-8 encoding of one scalar value (RFC 3629): one byte for ASCII,
      otherwise a lead byte that announces the length followed by
      continuation bytes of the form 10xxxxxx. */
  function Utf8(c: char): (bs: seq<Byte>)
    ensures 1 <= |bs| <= 4
    ensures |bs| == (if c as int < 0x80 then 1 else if c as int < 0x800 then 2
                     else if c as int < 0x10000 then 3 else 4)
    ensures |bs| == 1 ==> bs[0] == c as int
    ensures |bs| == 2 ==> 0xC2 <= bs[0] < 0xE0
    ensures |bs| == 3 ==> 0xE0 <= bs[0] < 0xF0
    ensures |bs| == 4 ==> 0xF0 <= bs[0] < 0xF5
    ensures forall i :: 1 <= i < |bs| ==> 0x80 <= bs[i] < 0xC0
  {
    var n := c as int;
    if n < 0x80 then [n]
    else if n < 0x800 then [0xC0 + n / 64, 0x80 + n % 64]
    else if n < 0x10000 then [0xE0 + n / 4096, 0x80 + (n / 64) % 64, 0x80 + n % 64]
    else [0xF0 + n / 262144, 0x80 + (n / 4096) % 64, 0x80 + (n / 64) % 64, 0x80 + n % 64]
  }

  /** The scalar value a well-formed UTF-8 sequence of one character denotes:
      the payload bits of the lead byte followed by six bits per continuation
      byte. */
  function Utf8Value(bs: seq<Byte>): int
    requires 1 <= |bs| <= 4
  {
    if |bs| == 1 then bs[0] as int
    else if |bs| == 2 then (bs[0] as int - 0xC0) * 64 + (bs[1] as int - 0x80)
    else if |bs| == 3 then ((bs[0] as int - 0xE0) * 64 + (bs[1] as int - 0x80)) * 64 + (bs[2] as int - 0x80)
    else (((bs[0] as int - 0xF0) * 64 + (bs[1] as int - 0x80)) * 64 + (bs[2] as int - 0x80)) * 64 + (bs[3] as int - 0x80)
  }

  /** UTF-8 loses nothing: the bytes of a character denote that character. */
  lemma Utf8RoundTrip(c: char)
    ensures Utf8Value(Utf8(c)) == c as int
  {
    var n := c as int;
    if n >= 0x10000 {
      assert n / 4096 == (n / 262144) * 64 + (n / 4096) % 64;
      assert n / 64 == (n / 4096) * 64 + (n / 64) % 64;
    } else if n >= 0x800 {
      assert n / 64 == (n / 4096) * 64 + (n / 64) % 64;
    }
  }

  /** The UTF-8 encoding of a whole string. */
  function Utf8Encode(s: string): seq<Byte> {
    if s == [] then [] else Utf8(s[0]) + Utf8Encode(s[1..])
  }

  /** The number of bytes a UTF-8 sequence announces in its lead byte. */
  function Utf8Length(lead: Byte): int {
    if lead < 0x80 then 1 else if lead < 0xE0 then 2 else if lead < 0xF0 then 3 else 4
  }

  /** UTF-8 decoding of a byte string to scalar values; a truncated sequence
      or a value outside the scalar values makes it fail. */
  function Utf8Decode(bs: seq<Byte>): Option<string>
    decreases |bs|
  {
    if bs == [] then Some([])
    else
      var n := Utf8Length(bs[0]);
      if |bs| < n then None
      else
        var v := Utf8Value(bs[..n]);
        if (0 <= v < 0xD800 || 0xE000 <= v < 0x11_0000) then
          match Utf8Decode(bs[n..])
          case None => None
          case Some(rest) => Some([v as char] + rest)
        else None
  }

  /** UTF-8 loses nothing over a whole string: decoding the encoding gives
      the string back, so two different strings never share an encoding. */
  lemma {:induction false} Utf8DecodeEncode(s: string)
    ensures Utf8Decode(Utf8Encode(s)) == Some(s)
  {
    if s != [] {
      var c := s[0];
      var bs := Utf8Encode(s);
      var u := Utf8(c);
      assert bs == u + Utf8Encode(s[1..]);
      assert Utf8Length(bs[0]) == |u|;
      assert bs[..|u|] == u;
      assert bs[|u|..] == Utf8Encode(s[1..]);
      Utf8RoundTrip(c);
      Utf8DecodeEncode(s[1..]);
      assert [c] + s[1..] == s;
    }
  }

  lemma Utf8EncodeInjective(s: string, t: string)
    requires Utf8Encode(s) == Utf8Encode(t)
    ensures s == t
  {
    Utf8DecodeEncode(s);
    Utf8DecodeEncode(t);
  }

  /** One octet as a `%HH` triplet. */
  function Triplet(b: Byte): string {
    ['%', HexDigit(b / 16), HexDigit(b % 16)]
  }

  function Triplets(bs: seq<Byte>): (r: string)
    ensures |r| == 3 * |bs|
  {
    if bs == [] then [] else Triplet(bs[0]) + Triplets(bs[1..])
  }

  /** How encodeURIComponent writes one character. */
  function EncodeChar(c: char): string {
    if IsUnreserved(c) then [c] else Triplets(Utf8(c))
  }

  /** ECMA-262 encodeURIComponent over a string of scalar values. */
  function EncodeURIComponent(s: string): (r: string)
    ensures IsEncoded(r)
  {
    if s == [] then []
    else
      var head := EncodeChar(s[0]);
      var tail := EncodeURIComponent(s[1..]);
      TripletsEncoded(Utf8(s[0]));
      EncodedConcat(head, tail);
      head + tail
  }

  /** Every character is unreserved or belongs to a `%HH` triplet with upper
      case hexadecimal digits. */
  predicate IsEncoded(t: string)
    decreases |t|
  {
    if t == [] then true
    else if t[0] == '%' then
      |t| >= 3 && IsUpperHexDigit(t[1]) && IsUpperHexDigit(t[2]) && IsEncoded(t[3..])
    else
      IsUnreserved(t[0]) && IsEncoded(t[1..])
  }

  lemma {:induction false} EncodedConcat(a: string, b: string)
    requires IsEncoded(a) && IsEncoded(b)
    ensures IsEncoded(a + b)
  {
    if a == [] {
      assert a + b == b;
    } else if a[0] == '%' {
      assert (a + b)[3..] == a[3..] + b;
      EncodedConcat(a[3..], b);
    } else {
      assert (a + b)[1..] == a[1..] + b;
      EncodedConcat(a[1..], b);
    }
  }

  lemma {:induction false} TripletsEncoded(bs: seq<Byte>)
    ensures IsEncoded(Triplets(bs))
  {
    if bs != [] {
      var t := Triplets(bs);
      TripletsEncoded(bs[1..]);
      assert t[3..] == Triplets(bs[1..]);
    }
  }

  /** What an encoded string can contain: unreserved characters, `%` and
      upper case hexadecimal digits, and nothing else. */
  lemma {:induction false} EncodedAlphabet(t: string)
    requires IsEncoded(t)
    ensures forall i :: 0 <= i < |t| ==> IsUnreserved(t[i]) || t[i] == '%' || IsUpperHexDigit(t[i])
    decreases |t|
  {
    if t != [] {
      var k := if t[0] == '%' then 3 else 1;
      EncodedAlphabet(t[k..]);
      forall i | k <= i < |t|
        ensures IsUnreserved(t[i]) || t[i] == '%' || IsUpperHexDigit(t[i])
      {
        assert t[i] == t[k..][i - k];
      }
    }
  }

  /** None of the characters that delimit a URI or its query survives
      encoding: no space, line break, `&`, `=`, `?`, `#` or `+`. */
  lemma EncodedHasNoDelimiters(s: string)
    ensures forall i :: 0 <= i < |EncodeURIComponent(s)| ==>
      EncodeURIComponent(s)[i] !in " \t\r\n&=?#+"
  {
    var t := EncodeURIComponent(s);
    EncodedAlphabet(t);
    forall i | 0 <= i < |t| ensures t[i] !in " \t\r\n&=?#+" {
      NotDelimiter(t[i]);
    }
  }

  lemma NotDelimiter(c: char)
    requires IsUnreserved(c) || c == '%' || IsUpperHexDigit(c)
    ensures c !in " \t\r\n&=?#+"
  {
  }

  /** Percent-decoding (section 2.1 of RFC 3986) to the octets a string
      carries; anything other than an unreserved character or a complete
      `%HH` triplet makes it fail. */
  function PercentDecode(t: string): Option<seq<Byte>>
    decreases |t|
  {
    if t == [] then Some([])
    else if t[0] == '%' then
      if |t| >= 3 && IsHexDigit(t[1]) && IsHexDigit(t[2]) then
        Prepend([HexValue(t[1]) * 16 + HexValue(t[2])], PercentDecode(t[3..]))
      else None
    else if IsUnreserved(t[0]) then
      Prepend([t[0] as int], PercentDecode(t[1..]))
    else None
  }

  function Prepend(bs: seq<Byte>, r: Option<seq<Byte>>): Option<seq<Byte>> {
    match r
    case None => None
    case Some(rest) => Some(bs + rest)
  }

  lemma {:induction false} DecodeTriplets(bs: seq<Byte>, rest: string)
    ensures PercentDecode(Triplets(bs) + rest) == Prepend(bs, PercentDecode(rest))
  {
    if bs == [] {
      assert Triplets(bs) + rest == rest;
      match PercentDecode(rest)
      case None =>
      case Some(r) => assert bs + r == r;
    } else {
      var b := bs[0];
      var tail := Triplets(bs[1..]) + rest;
      assert Triplets(bs) + rest == Triplet(b) + tail;
      DecodeTriplet(b, tail);
      DecodeTriplets(bs[1..], rest);
      PrependTwice(b, bs[1..], PercentDecode(rest));
      assert [b] + bs[1..] == bs;
    }
  }

  lemma PrependTwice(b: Byte, bs: seq<Byte>, r: Option<seq<Byte>>)
    ensures Prepend([b], Prepend(bs, r)) == Prepend([b] + bs, r)
  {
    match r
    case None =>
    case Some(rest) => assert [b] + (bs + rest) == [b] + bs + rest;
  }

  lemma DecodeTriplet(b: Byte, rest: string)
    ensures PercentDecode(Triplet(b) + rest) == Prepend([b], PercentDecode(rest))
  {
    HexDigitRoundTrip(b / 16);
    HexDigitRoundTrip(b % 16);
    assert (Triplet(b) + rest)[3..] == rest;
  }

  /** The round trip: percent-decoding what encodeURIComponent produced gives
      back exactly the UTF-8 bytes of the original string. */
  lemma {:induction false} DecodeEncode(s: string)
    ensures PercentDecode(EncodeURIComponent(s)) == Some(Utf8Encode(s))
  {
    if s != [] {
      var c := s[0];
      var tail := EncodeURIComponent(s[1..]);
      DecodeEncode(s[1..]);
      if IsUnreserved(c) {
        assert EncodeURIComponent(s) == [c] + tail;
        assert ([c] + tail)[1..] == tail;
      } else {
        DecodeTriplets(Utf8(c), tail);
      }
    }
  }

  /** A string comes out unchanged exactly when it consists of unreserved
      characters only. */
  lemma {:induction false} EncodeUnchangedIff(s: string)
    ensures EncodeURIComponent(s) == s <==> forall i :: 0 <= i < |s| ==> IsUnreserved(s[i])
  {
    if forall i :: 0 <= i < |s| ==> IsUnreserved(s[i]) {
      UnreservedUnchanged(s);
    } else {
      EncodingGrows(s);
    }
  }

  lemma {:induction false} UnreservedUnchanged(s: string)
    requires forall i :: 0 <= i < |s| ==> IsUnreserved(s[i])
    ensures EncodeURIComponent(s) == s
  {
    if s != [] {
      UnreservedUnchanged(s[1..]);
      assert s == [s[0]] + s[1..];
    }
  }

  /** The encoding works character by character: encoding a concatenation
      concatenates the encodings. */
  lemma {:induction false} EncodeAppend(a: string, b: string)
    ensures EncodeURIComponent(a + b) == EncodeURIComponent(a) + EncodeURIComponent(b)
    decreases |a|
  {
    if a == [] {
      assert a + b == b;
    } else {
      assert (a + b)[1..] == a[1..] + b;
      EncodeAppend(a[1..], b);
    }
  }

  /** An unreserved character is kept as written wherever it stands, whatever
      surrounds it. */
  lemma UnreservedKept(a: string, c: char, b: string)
    requires IsUnreserved(c)
    ensures EncodeURIComponent(a + [c] + b) == EncodeURIComponent(a) + [c] + EncodeURIComponent(b)
  {
    EncodeAppend(a + [c], b);
    EncodeAppend(a, [c]);
    UnreservedUnchanged([c]);
  }

  lemma {:induction false} EncodingGrows(s: string)
    requires exists i :: 0 <= i < |s| && !IsUnreserved(s[i])
    ensures |EncodeURIComponent(s)| > |s|
  {
    EncodingLength(s[1..]);
    if !IsUnreserved(s[0]) {
      assert |EncodeChar(s[0])| >= 3;
    } else {
      var i :| 0 <= i < |s| && !IsUnreserved(s[i]);
      assert !IsUnreserved(s[1..][i - 1]);
      EncodingGrows(s[1..]);
    }
  }

  lemma {:induction false} EncodingLength(s: string)
    ensures |EncodeURIComponent(s)| >= |s|
  {
    if s != [] {
      EncodingLength(s[1..]);
    }
  }
}
