/**
 * ECMAScript `encodeURIComponent` (section 18.2.6.5 of ECMAScript 2015): every character
 * outside the unreserved set is replaced by the percent-encoded octets of its UTF-8 form,
 * with upper-case hexadecimal digits (section 2.1 of RFC 3986). A reference decoder in the
 * manner of `decodeURIComponent` is given alongside so that the encoder's round trip can
 * be stated.
 */
module UriComponent {
  import opened Results

  type Byte = x: int | 0 <= x < 256

  /** The characters `encodeURIComponent` leaves as they are: letters, digits and `-_.!~*'()`. */
  predicate IsUnreserved(c: char)
  {
    || ('A' <= c <= 'Z') || ('a' <= c <= 'z') || ('0' <= c <= '9')
    || c == '-' || c == '_' || c == '.' || c == '!' || c == '~' || c == '*'
    || c == '\'' || c == '(' || c == ')'
  }

  /** UTF-8 form of one Unicode scalar value. */
  function Utf8(c: char): (r: seq<Byte>)
    ensures 1 <= |r| <= 4
    ensures (|r| == 1) <==> c as int < 0x80
  {
    var n := c as int;
    if n < 0x80 then [n]
    else if n < 0x800 then [0xC0 + n / 64, 0x80 + n % 64]
    else if n < 0x10000 then [0xE0 + n / 4096, 0x80 + (n / 64) % 64, 0x80 + n % 64]
    else [0xF0 + n / 262144, 0x80 + (n / 4096) % 64, 0x80 + (n / 64) % 64, 0x80 + n % 64]
  }

  /** UTF-8 form of a string: the characters' forms one after another. */
  function Utf8Encode(s: string): seq<Byte>
  {
    if |s| == 0 then [] else Utf8(s[0]) + Utf8Encode(s[1..])
  }

  function HexDigit(d: nat): (c: char)
    requires d < 16
    ensures IsUnreserved(c)
  {
    "0123456789ABCDEF"[d]
  }

  /** `%XY` for each octet, `XY` its two upper-case hexadecimal digits. */
  function PercentEncode(bs: seq<Byte>): (r: string)
    ensures |r| == 3 * |bs|
  {
    if |bs| == 0 then "" else ['%', HexDigit(bs[0] / 16), HexDigit(bs[0] % 16)] + PercentEncode(bs[1..])
  }

  function EncodeChar(c: char): string
  {
    if IsUnreserved(c) then [c] else PercentEncode(Utf8(c))
  }

  /** `encodeURIComponent(s)`: each character's encoding, in order. */
  function EncodeURIComponent(s: string): (r: string)
    ensures |r| >= |s|
  {
    if |s| == 0 then "" else EncodeChar(s[0]) + EncodeURIComponent(s[1..])
  }

  lemma {:induction false} PercentEncodedAlphabet(bs: seq<Byte>)
    ensures forall i :: 0 <= i < |PercentEncode(bs)| ==> PercentEncode(bs)[i] == '%' || IsUnreserved(PercentEncode(bs)[i])
  {
    if |bs| > 0 {
      PercentEncodedAlphabet(bs[1..]);
    }
  }

  /** The encoding holds only unreserved characters and `%`. */
  lemma {:induction false} EncodedAlphabet(s: string)
    ensures forall i :: 0 <= i < |EncodeURIComponent(s)| ==>
      EncodeURIComponent(s)[i] == '%' || IsUnreserved(EncodeURIComponent(s)[i])
  {
    if |s| > 0 {
      EncodedAlphabet(s[1..]);
      if !IsUnreserved(s[0]) {
        PercentEncodedAlphabet(Utf8(s[0]));
      }
    }
  }

  /** The encoder never produces a query-string delimiter. */
  lemma EncodedHasNoDelimiter(s: string)
    ensures '&' !in EncodeURIComponent(s)
    ensures '=' !in EncodeURIComponent(s)
    ensures '?' !in EncodeURIComponent(s)
  {
    EncodedAlphabet(s);
  }

  /** A string of unreserved characters is sent as it is. */
  lemma {:induction false} UnreservedUnchanged(s: string)
    requires forall i :: 0 <= i < |s| ==> IsUnreserved(s[i])
    ensures EncodeURIComponent(s) == s
  {
    if |s| > 0 {
      UnreservedUnchanged(s[1..]);
      assert [s[0]] + s[1..] == s;
    }
  }

  /** The encoding is as long as the value exactly when every character is unreserved. */
  lemma {:induction false} EncodedLengthExact(s: string)
    ensures |EncodeURIComponent(s)| == |s| <==> forall i :: 0 <= i < |s| ==> IsUnreserved(s[i])
  {
    if |s| > 0 {
      EncodedLengthExact(s[1..]);
      assert forall i :: 0 <= i < |s[1..]| ==> s[1..][i] == s[i + 1];
      if !IsUnreserved(s[0]) {
        assert |EncodeChar(s[0])| >= 3;
      }
    }
  }

  /** A value is sent unchanged exactly when it holds only unreserved characters. */
  lemma UnchangedExactlyWhenUnreserved(s: string)
    ensures EncodeURIComponent(s) == s <==> forall i :: 0 <= i < |s| ==> IsUnreserved(s[i])
  {
    EncodedLengthExact(s);
    if forall i :: 0 <= i < |s| ==> IsUnreserved(s[i]) {
      UnreservedUnchanged(s);
    }
  }

  /** Encoding a concatenation encodes the two parts separately. */
  lemma {:induction false} EncodeAppend(a: string, b: string)
    ensures EncodeURIComponent(a + b) == EncodeURIComponent(a) + EncodeURIComponent(b)
  {
    if |a| > 0 {
      assert (a + b)[0] == a[0] && (a + b)[1..] == a[1..] + b;
      EncodeAppend(a[1..], b);
    } else {
      assert a + b == b;
    }
  }

  // ----- reference decoder -----

  function HexValue(c: char): (r: Option<nat>)
    ensures r.Some? ==> r.value < 16
  {
    if '0' <= c <= '9' then Some(c as int - '0' as int)
    else if 'A' <= c <= 'F' then Some(c as int - 'A' as int + 10)
    else if 'a' <= c <= 'f' then Some(c as int - 'a' as int + 10)
    else None
  }

  function PrependBytes(bs: seq<Byte>, o: Option<seq<Byte>>): Option<seq<Byte>>
  {
    match o
    case None => None
    case Some(rest) => Some(bs + rest)
  }

  /** Percent-decoding to octets: `%XY` gives one octet, any other character its UTF-8 form. */
  function PercentDecode(t: string): Option<seq<Byte>>
    decreases |t|
  {
    if |t| == 0 then Some([])
    else if t[0] == '%' then
      if |t| >= 3 && HexValue(t[1]).Some? && HexValue(t[2]).Some? then
        PrependBytes([HexValue(t[1]).value * 16 + HexValue(t[2]).value], PercentDecode(t[3..]))
      else None
    else PrependBytes(Utf8(t[0]), PercentDecode(t[1..]))
  }

  predicate IsContinuation(b: Byte)
  {
    0x80 <= b < 0xC0
  }

  /** The first scalar value of a UTF-8 octet sequence and its length; rejects overlong forms and surrogates. */
  function DecodeOne(bs: seq<Byte>): (r: Option<(char, nat)>)
    requires |bs| >= 1
    ensures r.Some? ==> 1 <= r.value.1 <= |bs|
  {
    var b0: int := bs[0];
    if b0 < 0x80 then Some((b0 as char, 1))
    else if 0xC0 <= b0 < 0xE0 && |bs| >= 2 && IsContinuation(bs[1]) then
      var n := (b0 - 0xC0) * 64 + (bs[1] as int - 0x80);
      if n >= 0x80 then Some((n as char, 2)) else None
    else if 0xE0 <= b0 < 0xF0 && |bs| >= 3 && IsContinuation(bs[1]) && IsContinuation(bs[2]) then
      var n := ((b0 - 0xE0) * 64 + (bs[1] as int - 0x80)) * 64 + (bs[2] as int - 0x80);
      if n >= 0x800 && !(0xD800 <= n < 0xE000) then Some((n as char, 3)) else None
    else if 0xF0 <= b0 < 0xF8 && |bs| >= 4 && IsContinuation(bs[1]) && IsContinuation(bs[2])
         && IsContinuation(bs[3]) then
      var n := (((b0 - 0xF0) * 64 + (bs[1] as int - 0x80)) * 64 + (bs[2] as int - 0x80)) * 64 + (bs[3] as int - 0x80);
      if 0x10000 <= n < 0x110000 then Some((n as char, 4)) else None
    else None
  }

  function PrependChar(c: char, o: Option<string>): Option<string>
  {
    match o
    case None => None
    case Some(rest) => Some([c] + rest)
  }

  /** Strict UTF-8 decoding of a whole octet sequence. */
  function Utf8Decode(bs: seq<Byte>): Option<string>
    decreases |bs|
  {
    if |bs| == 0 then Some("")
    else
      match DecodeOne(bs)
      case None => None
      case Some((c, k)) => PrependChar(c, Utf8Decode(bs[k..]))
  }

  /** Reference `decodeURIComponent`: percent-decode, then decode the octets as UTF-8. */
  function DecodeURIComponent(t: string): Option<string>
  {
    match PercentDecode(t)
    case None => None
    case Some(bs) => Utf8Decode(bs)
  }

  // ----- round trip -----

  lemma HexRoundTrip(d: nat)
    requires d < 16
    ensures HexValue(HexDigit(d)) == Some(d)
  {
  }

  /** One `%XY` triple decodes to its octet. */
  lemma {:induction false} PercentDecodeTriple(b: Byte, tail: string)
    ensures PercentDecode(['%', HexDigit(b / 16), HexDigit(b % 16)] + tail)
            == PrependBytes([b], PercentDecode(tail))
  {
    var hi, lo := b / 16, b % 16;
    var t := ['%', HexDigit(hi), HexDigit(lo)] + tail;
    HexRoundTrip(hi);
    HexRoundTrip(lo);
    assert t[0] == '%' && HexValue(t[1]) == Some(hi) && HexValue(t[2]) == Some(lo);
    assert t[3..] == tail;
    assert hi * 16 + lo == b;
    assert PercentDecode(t) == PrependBytes([hi * 16 + lo], PercentDecode(t[3..]));
  }

  lemma PrependBytesAssoc(xs: seq<Byte>, ys: seq<Byte>, o: Option<seq<Byte>>)
    ensures PrependBytes(xs, PrependBytes(ys, o)) == PrependBytes(xs + ys, o)
  {
    match o
    case None =>
    case Some(r) =>
      assert xs + (ys + r) == (xs + ys) + r;
  }

  lemma {:induction false} PercentDecodeEncoded(bs: seq<Byte>, rest: string)
    ensures PercentDecode(PercentEncode(bs) + rest) == PrependBytes(bs, PercentDecode(rest))
  {
    if |bs| > 0 {
      var b := bs[0];
      var tail := PercentEncode(bs[1..]) + rest;
      assert PercentEncode(bs) + rest == ['%', HexDigit(b / 16), HexDigit(b % 16)] + tail;
      PercentDecodeTriple(b, tail);
      PercentDecodeEncoded(bs[1..], rest);
      PrependBytesAssoc([b], bs[1..], PercentDecode(rest));
      assert [b] + bs[1..] == bs;
    } else {
      assert PercentEncode(bs) + rest == rest;
      assert PrependBytes([], PercentDecode(rest)) == PercentDecode(rest) by {
        match PercentDecode(rest)
        case None =>
        case Some(r) =>
          assert [] + r == r;
      }
    }
  }

  lemma PercentDecodeChar(c: char, rest: string)
    ensures PercentDecode(EncodeChar(c) + rest) == PrependBytes(Utf8(c), PercentDecode(rest))
  {
    if IsUnreserved(c) {
      var t := [c] + rest;
      assert t[0] == c && t[1..] == rest;
    } else {
      PercentDecodeEncoded(Utf8(c), rest);
    }
  }

  lemma {:induction false} PercentDecodeEncodeURIComponent(s: string)
    ensures PercentDecode(EncodeURIComponent(s)) == Some(Utf8Encode(s))
  {
    if |s| > 0 {
      PercentDecodeEncodeURIComponent(s[1..]);
      PercentDecodeChar(s[0], EncodeURIComponent(s[1..]));
    }
  }

  lemma DecodeTwo(c: char, rest: seq<Byte>)
    requires 0x80 <= c as int < 0x800
    ensures DecodeOne(Utf8(c) + rest) == Some((c, 2))
  {
    var n := c as int;
    var bs := Utf8(c) + rest;
    assert bs[0] == 0xC0 + n / 64 && bs[1] == 0x80 + n % 64;
    assert (n / 64) * 64 + n % 64 == n;
  }

  lemma DecodeThree(c: char, rest: seq<Byte>)
    requires 0x800 <= c as int < 0x10000
    ensures DecodeOne(Utf8(c) + rest) == Some((c, 3))
  {
    var n := c as int;
    var bs := Utf8(c) + rest;
    var a, b, d := n / 4096, (n / 64) % 64, n % 64;
    assert bs[0] == 0xE0 + a && bs[1] == 0x80 + b && bs[2] == 0x80 + d;
    assert n / 64 == a * 64 + b;
    assert (a * 64 + b) * 64 + d == n;
  }

  lemma FourByteDigits(n: int)
    requires 0x10000 <= n < 0x110000
    ensures ((n / 262144 * 64 + (n / 4096) % 64) * 64 + (n / 64) % 64) * 64 + n % 64 == n
  {
    var a, b, d, e := n / 262144, (n / 4096) % 64, (n / 64) % 64, n % 64;
    assert n / 4096 == a * 64 + b;
    assert n / 64 == (a * 64 + b) * 64 + d;
  }

  lemma DecodeFour(c: char, rest: seq<Byte>)
    requires 0x10000 <= c as int
    ensures DecodeOne(Utf8(c) + rest) == Some((c, 4))
  {
    var n := c as int;
    var bs := Utf8(c) + rest;
    assert bs[0] == 0xF0 + n / 262144 && bs[1] == 0x80 + (n / 4096) % 64;
    assert bs[2] == 0x80 + (n / 64) % 64 && bs[3] == 0x80 + n % 64;
    FourByteDigits(n);
  }

  lemma {:induction false} Utf8DecodeOne(c: char, rest: seq<Byte>)
    ensures DecodeOne(Utf8(c) + rest) == Some((c, |Utf8(c)|))
  {
    var n := c as int;
    if n < 0x80 {
      assert (Utf8(c) + rest)[0] == n;
    } else if n < 0x800 {
      DecodeTwo(c, rest);
    } else if n < 0x10000 {
      DecodeThree(c, rest);
    } else {
      DecodeFour(c, rest);
    }
  }

  lemma {:induction false} Utf8RoundTrip(s: string)
    ensures Utf8Decode(Utf8Encode(s)) == Some(s)
  {
    if |s| > 0 {
      var bs := Utf8Encode(s);
      Utf8DecodeOne(s[0], Utf8Encode(s[1..]));
      assert bs[|Utf8(s[0])|..] == Utf8Encode(s[1..]);
      Utf8RoundTrip(s[1..]);
      assert [s[0]] + s[1..] == s;
    }
  }

  /** Decoding undoes `encodeURIComponent` on every string. */
  lemma {:induction false} EncodeDecodeRoundTrip(s: string)
    ensures DecodeURIComponent(EncodeURIComponent(s)) == Some(s)
  {
    PercentDecodeEncodeURIComponent(s);
    Utf8RoundTrip(s);
  }

  /** Different strings are never encoded alike. */
  lemma EncodeInjective(s: string, t: string)
    requires EncodeURIComponent(s) == EncodeURIComponent(t)
    ensures s == t
  {
    EncodeDecodeRoundTrip(s);
    EncodeDecodeRoundTrip(t);
  }
}
