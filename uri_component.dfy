/**
 * `encodeURIComponent`, the URI handling function of ECMA-262 section 19.2.6:
 * every code unit outside the uriUnescaped set A-Z a-z 0-9 - _ . ! ~ * ' ( )
 * (the unreserved characters of RFC 3986 plus ! * ' ( ), which section 2.2 of
 * RFC 3986 counts among the sub-delims) is replaced by the percent-encoded UTF-8 octets of its code point (section 2.1
 * of RFC 3986), and a lone surrogate throws a URIError. Beside it stand a
 * reference encoder (UTF-16 decode, UTF-8 encode, percent-escape) and the
 * inverse decoder that undoes it.
 */
module UriComponent {
  import opened Wrappers
  import opened Unicode

  /** The one error `encodeURIComponent` throws. */
  datatype UriError = UriError

  /**
   * The characters `encodeURIComponent` leaves as they are, ECMA-262's
   * uriUnescaped: RFC 3986's unreserved set plus ! * ' ( ).
   */
  predicate IsUriUnescaped(u: int)
  {
    || 'A' as int <= u <= 'Z' as int
    || 'a' as int <= u <= 'z' as int
    || '0' as int <= u <= '9' as int
    || u == '-' as int || u == '_' as int || u == '.' as int || u == '!' as int
    || u == '~' as int || u == '*' as int || u == '\'' as int || u == '(' as int || u == ')' as int
  }

  /** The upper-case hexadecimal digit for 0 to 15. */
  function HexDigit(d: int): (h: char)
    requires 0 <= d < 16
  {
    if d < 10 then ('0' as int + d) as char else ('A' as int + d - 10) as char
  }

  predicate IsUpperHexDigit(ch: char)
  {
    '0' <= ch <= '9' || 'A' <= ch <= 'F'
  }

  /** "%" followed by the octet's two upper-case hexadecimal digits. */
  function Triplet(b: Byte): string
  {
    ['%', HexDigit(b / 16), HexDigit(b % 16)]
  }

  /** The triplets of a list of octets, one after the other. */
  function Triplets(bs: seq<Byte>): (t: string)
    ensures |t| == 3 * |bs|
  {
    if bs == [] then "" else Triplet(bs[0]) + Triplets(bs[1..])
  }

  /**
   * Encode(string, extraUnescaped) of ECMA-262 section 19.2.6.5 with the
   * uriUnescaped set: a code unit in that set is copied; otherwise the code
   * point starting there is read (a lone surrogate throws URIError) and
   * written as the triplets of its UTF-8 octets.
   */
  function EncodeUriComponent(q: seq<CodeUnit>): (r: Result<string, UriError>)
    ensures r.Success? ==> |q| <= |r.value|
    ensures q == [] ==> r == Success("")
    decreases |q|
  {
    if q == [] then Success("")
    else if IsUriUnescaped(q[0]) then
      match EncodeUriComponent(q[1..])
      case Failure(e) => Failure(e)
      case Success(rest) => Success([q[0] as char] + rest)
    else
      var cp := CodePointAt(q, 0);
      if cp.isUnpairedSurrogate then Failure(UriError)
      else
        match EncodeUriComponent(q[cp.codeUnitCount..])
        case Failure(e) => Failure(e)
        case Success(rest) => Success(Triplets(Utf8EncodeOne(cp.codePoint as Scalar)) + rest)
  }

  // ---------------------------------------------------------------- reference encoder

  /** Octets in the uriUnescaped set as themselves, the rest as RFC 3986 section 2.1 triplets. */
  function PercentEscape(bs: seq<Byte>): string
  {
    if bs == [] then ""
    else (if IsUriUnescaped(bs[0]) then [bs[0] as char] else Triplet(bs[0])) + PercentEscape(bs[1..])
  }

  lemma {:induction false} PercentEscapeAppend(a: seq<Byte>, b: seq<Byte>)
    ensures PercentEscape(a + b) == PercentEscape(a) + PercentEscape(b)
  {
    if a != [] {
      PercentEscapeAppend(a[1..], b);
      assert (a + b)[1..] == a[1..] + b;
      assert (a + b)[0] == a[0];
    } else {
      assert a + b == b;
    }
  }

  lemma {:induction false} PercentEscapeReserved(bs: seq<Byte>)
    requires forall j :: 0 <= j < |bs| ==> !IsUriUnescaped(bs[j])
    ensures PercentEscape(bs) == Triplets(bs)
  {
    if bs != [] {
      PercentEscapeReserved(bs[1..]);
    }
  }

  /**
   * The algorithm agrees with the reference: it throws exactly when the string
   * has no code points (holds a lone surrogate), and otherwise returns the
   * percent-escaped UTF-8 encoding of its code points.
   */
  lemma {:induction false} EncodeIsEscapedUtf8(q: seq<CodeUnit>)
    ensures EncodeUriComponent(q) ==
      match Utf16Decode(q)
      case None => Failure(UriError)
      case Some(cps) => Success(PercentEscape(Utf8Encode(cps)))
    decreases |q|
  {
    if q != [] {
      var cp := CodePointAt(q, 0);
      var n := cp.codeUnitCount;
      EncodeIsEscapedUtf8(q[n..]);
      if !cp.isUnpairedSurrogate {
        var c := cp.codePoint as Scalar;
        match Utf16Decode(q[n..])
        case None =>
        case Some(rest) =>
          assert Utf16Decode(q) == Some([c] + rest);
          assert Utf8Encode([c] + rest) == Utf8EncodeOne(c) + Utf8Encode(rest) by {
            assert ([c] + rest)[1..] == rest;
          }
          PercentEscapeAppend(Utf8EncodeOne(c), Utf8Encode(rest));
          if IsUriUnescaped(q[0]) {
            assert n == 1 && c == q[0] as int;
            assert PercentEscape([c as Byte]) == [q[0] as char];
          } else {
            PercentEscapeReserved(Utf8EncodeOne(c));
          }
      }
    }
  }

  // ---------------------------------------------------------------- decoding

  predicate IsHexDigit(ch: char)
  {
    '0' <= ch <= '9' || 'A' <= ch <= 'F' || 'a' <= ch <= 'f'
  }

  function HexValue(ch: char): (d: int)
    requires IsHexDigit(ch)
    ensures 0 <= d < 16
  {
    if '0' <= ch <= '9' then ch as int - '0' as int
    else if 'A' <= ch <= 'F' then ch as int - 'A' as int + 10
    else ch as int - 'a' as int + 10
  }

  /**
   * Percent-decoding (section 2.1 of RFC 3986): each triplet "%XX" (either
   * case) is the octet it names, every other ASCII character is its own octet;
   * a "%" without two hexadecimal digits, or a non-ASCII character, is malformed.
   */
  function PercentDecode(s: string): Option<seq<Byte>>
    decreases |s|
  {
    if s == [] then Some([])
    else if s[0] == '%' then
      if |s| < 3 || !IsHexDigit(s[1]) || !IsHexDigit(s[2]) then None
      else
        match PercentDecode(s[3..])
        case None => None
        case Some(rest) => Some([(HexValue(s[1]) * 16 + HexValue(s[2])) as Byte] + rest)
    else if s[0] as int < 0x80 then
      match PercentDecode(s[1..])
      case None => None
      case Some(rest) => Some([s[0] as int as Byte] + rest)
    else None
  }

  lemma HexRoundTrip(b: Byte)
    ensures IsHexDigit(HexDigit(b / 16)) && IsHexDigit(HexDigit(b % 16))
    ensures HexValue(HexDigit(b / 16)) * 16 + HexValue(HexDigit(b % 16)) == b
  {
  }

  /** Percent-decoding undoes percent-escaping. */
  lemma {:induction false} PercentDecodeEscape(bs: seq<Byte>)
    ensures PercentDecode(PercentEscape(bs)) == Some(bs)
  {
    if bs != [] {
      var s := PercentEscape(bs);
      PercentDecodeEscape(bs[1..]);
      var b := bs[0];
      if IsUriUnescaped(b) {
        assert s == [b as char] + PercentEscape(bs[1..]);
        assert s[1..] == PercentEscape(bs[1..]);
      } else {
        HexRoundTrip(b);
        assert s == Triplet(b) + PercentEscape(bs[1..]);
        assert s[3..] == PercentEscape(bs[1..]);
      }
      assert [b] + bs[1..] == bs;
    }
  }

  /** decodeURIComponent's effect on an encoded component: percent-decode, UTF-8 decode, UTF-16 encode. */
  function DecodeUriComponent(s: string): Option<seq<CodeUnit>>
  {
    match PercentDecode(s)
    case None => None
    case Some(bs) =>
      match Utf8Decode(bs)
      case None => None
      case Some(cps) => Some(Utf16Encode(cps))
  }

  /** Decoding an encoded component gives back the original string. */
  lemma EncodeRoundTrip(q: seq<CodeUnit>)
    requires EncodeUriComponent(q).Success?
    ensures DecodeUriComponent(EncodeUriComponent(q).value) == Some(q)
  {
    EncodeIsEscapedUtf8(q);
    var cps := Utf16Decode(q).value;
    PercentDecodeEscape(Utf8Encode(cps));
    Utf8DecodeEncode(cps);
    Utf16EncodeDecode(q);
  }

  /** `encodeURIComponent` throws exactly when the string holds a lone surrogate. */
  lemma EncodeFailsOnLoneSurrogate(q: seq<CodeUnit>)
    ensures EncodeUriComponent(q).Failure? <==> exists i :: LoneSurrogateAt(q, i)
  {
    EncodeIsEscapedUtf8(q);
    Utf16DecodeFails(q);
  }

  /** Every string built from Unicode text encodes without error. */
  lemma EncodeTextSucceeds(cps: seq<Scalar>)
    ensures EncodeUriComponent(Utf16Encode(cps)) == Success(PercentEscape(Utf8Encode(cps)))
  {
    EncodeIsEscapedUtf8(Utf16Encode(cps));
    Utf16DecodeEncode(cps);
  }

  // ---------------------------------------------------------------- shape of the output

  /** A string made only of uriUnescaped characters and triplets "%XX" with upper-case hexadecimal digits. */
  predicate IsEscaped(s: string)
    decreases |s|
  {
    s == [] ||
    (IsUriUnescaped(s[0] as int) && IsEscaped(s[1..])) ||
    (|s| >= 3 && s[0] == '%' && IsUpperHexDigit(s[1]) && IsUpperHexDigit(s[2]) && IsEscaped(s[3..]))
  }

  lemma {:induction false} IsEscapedAppend(a: string, b: string)
    requires IsEscaped(a) && IsEscaped(b)
    ensures IsEscaped(a + b)
    decreases |a|
  {
    if a != [] {
      if IsUriUnescaped(a[0] as int) && IsEscaped(a[1..]) {
        IsEscapedAppend(a[1..], b);
        assert (a + b)[1..] == a[1..] + b;
      } else {
        IsEscapedAppend(a[3..], b);
        assert (a + b)[3..] == a[3..] + b;
      }
    } else {
      assert a + b == b;
    }
  }

  lemma {:induction false} PercentEscapeIsEscaped(bs: seq<Byte>)
    ensures IsEscaped(PercentEscape(bs))
  {
    if bs != [] {
      PercentEscapeIsEscaped(bs[1..]);
      var b := bs[0];
      var head := if IsUriUnescaped(b) then [b as char] else Triplet(b);
      if !IsUriUnescaped(b) {
        assert head[3..] == [];
      } else {
        assert head[1..] == [];
      }
      IsEscapedAppend(head, PercentEscape(bs[1..]));
    }
  }

  /** An escaped string holds none of the characters that delimit a query or a URI: & = # ? / + and space. */
  lemma {:induction false} EscapedHasNoDelimiters(s: string)
    requires IsEscaped(s)
    ensures forall j :: 0 <= j < |s| ==> s[j] !in "&=#?/+ "
    decreases |s|
  {
    if s != [] {
      if IsUriUnescaped(s[0] as int) && IsEscaped(s[1..]) {
        EscapedHasNoDelimiters(s[1..]);
        forall j | 1 <= j < |s| ensures s[j] !in "&=#?/+ " { assert s[j] == s[1..][j - 1]; }
      } else {
        EscapedHasNoDelimiters(s[3..]);
        forall j | 3 <= j < |s| ensures s[j] !in "&=#?/+ " { assert s[j] == s[3..][j - 3]; }
      }
    }
  }

  /** The output of `encodeURIComponent` is escaped, so it holds no delimiter. */
  lemma EncodeIsEscaped(q: seq<CodeUnit>)
    requires EncodeUriComponent(q).Success?
    ensures IsEscaped(EncodeUriComponent(q).value)
    ensures forall j :: 0 <= j < |EncodeUriComponent(q).value| ==> EncodeUriComponent(q).value[j] !in "&=#?/+ "
  {
    EncodeIsEscapedUtf8(q);
    PercentEscapeIsEscaped(Utf8Encode(Utf16Decode(q).value));
    EscapedHasNoDelimiters(EncodeUriComponent(q).value);
  }
}
