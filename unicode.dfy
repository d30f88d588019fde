/**
 * The Unicode encodings that `encodeURIComponent` goes through: a JavaScript
 * string is a sequence of UTF-16 code units; the code points are read off it
 * as ECMA-262 section 11.1.4 (CodePointAt) says, and each code point is
 * written as the UTF-8 octets of RFC 3629.
 */
module Unicode {
  import opened Wrappers

  type CodeUnit = x: int | 0 <= x < 0x1_0000
  type Byte = x: int | 0 <= x < 0x100

  /** A Unicode scalar value: a code point that is not a surrogate. */
  predicate IsScalar(x: int)
  {
    0 <= x < 0xD800 || 0xE000 <= x < 0x11_0000
  }

  type Scalar = x: int | 0 <= x < 0xD800 || 0xE000 <= x < 0x11_0000

  predicate IsLeadingSurrogate(u: CodeUnit)
  {
    0xD800 <= u <= 0xDBFF
  }

  predicate IsTrailingSurrogate(u: CodeUnit)
  {
    0xDC00 <= u <= 0xDFFF
  }

  // ---------------------------------------------------------------- UTF-16

  /** The record CodePointAt returns: the code point, how many code units it takes, and whether it is a lone surrogate. */
  datatype CodePointRecord = CodePointRecord(codePoint: int, codeUnitCount: nat, isUnpairedSurrogate: bool)

  /** CodePointAt(string, position), ECMA-262 section 11.1.4. */
  function CodePointAt(q: seq<CodeUnit>, k: nat): (r: CodePointRecord)
    requires k < |q|
    ensures r.codeUnitCount == 1 || r.codeUnitCount == 2
    ensures k + r.codeUnitCount <= |q|
    ensures !r.isUnpairedSurrogate ==> IsScalar(r.codePoint)
    ensures r.isUnpairedSurrogate ==> r.codePoint == q[k] && r.codeUnitCount == 1
  {
    var first := q[k] as int;
    if !IsLeadingSurrogate(first) && !IsTrailingSurrogate(first) then
      CodePointRecord(first, 1, false)
    else if IsTrailingSurrogate(first) || k + 1 == |q| then
      CodePointRecord(first, 1, true)
    else
      var second := q[k + 1] as int;
      if !IsTrailingSurrogate(second) then CodePointRecord(first, 1, true)
      else CodePointRecord((first - 0xD800) * 0x400 + (second - 0xDC00) + 0x1_0000, 2, false)
  }

  /** The code points of a string, or None when it holds a lone surrogate. */
  function Utf16Decode(q: seq<CodeUnit>): Option<seq<Scalar>>
    decreases |q|
  {
    if q == [] then Some([])
    else
      var cp := CodePointAt(q, 0);
      if cp.isUnpairedSurrogate then None
      else
        match Utf16Decode(q[cp.codeUnitCount..])
        case None => None
        case Some(rest) => Some([cp.codePoint as Scalar] + rest)
  }

  /** UTF16EncodeCodePoint, ECMA-262 section 11.1.1. */
  function Utf16EncodeOne(c: Scalar): seq<CodeUnit>
  {
    if c < 0x1_0000 then [c as CodeUnit]
    else [((c - 0x1_0000) / 0x400 + 0xD800) as CodeUnit, ((c - 0x1_0000) % 0x400 + 0xDC00) as CodeUnit]
  }

  function Utf16Encode(cps: seq<Scalar>): seq<CodeUnit>
  {
    if cps == [] then [] else Utf16EncodeOne(cps[0]) + Utf16Encode(cps[1..])
  }

  /** The string made of a Dafny string's characters, as JavaScript holds it. */
  function Utf16Of(s: string): seq<CodeUnit>
  {
    Utf16Encode(seq(|s|, i requires 0 <= i < |s| => s[i] as int as Scalar))
  }

  /** Reading the first code point back from its own encoding. */
  lemma CodePointAtEncodeOne(c: Scalar, rest: seq<CodeUnit>)
    ensures CodePointAt(Utf16EncodeOne(c) + rest, 0) == CodePointRecord(c, |Utf16EncodeOne(c)|, false)
  {
    if c >= 0x1_0000 {
      var hi, lo := (c - 0x1_0000) / 0x400, (c - 0x1_0000) % 0x400;
      assert hi * 0x400 + lo == c - 0x1_0000;
      assert hi < 0x400;
    }
  }

  /** Decoding undoes encoding. */
  lemma {:induction false} Utf16DecodeEncode(cps: seq<Scalar>)
    ensures Utf16Decode(Utf16Encode(cps)) == Some(cps)
  {
    if cps != [] {
      var q := Utf16Encode(cps);
      CodePointAtEncodeOne(cps[0], Utf16Encode(cps[1..]));
      assert q[|Utf16EncodeOne(cps[0])|..] == Utf16Encode(cps[1..]);
      Utf16DecodeEncode(cps[1..]);
      assert [cps[0]] + cps[1..] == cps;
    }
  }

  /** Encoding undoes decoding: the code points decoded from a string spell that very string. */
  lemma {:induction false} Utf16EncodeDecode(q: seq<CodeUnit>)
    requires Utf16Decode(q).Some?
    ensures Utf16Encode(Utf16Decode(q).value) == q
    decreases |q|
  {
    if q != [] {
      var cp := CodePointAt(q, 0);
      var n := cp.codeUnitCount;
      Utf16EncodeDecode(q[n..]);
      var c := cp.codePoint as Scalar;
      assert Utf16EncodeOne(c) == q[..n];
      assert Utf16Decode(q).value == [c] + Utf16Decode(q[n..]).value;
      assert ([c] + Utf16Decode(q[n..]).value)[1..] == Utf16Decode(q[n..]).value;
      assert q[..n] + q[n..] == q;
    }
  }

  /** Position i holds a lone surrogate: a leading one not followed by a trailing one, or a trailing one not preceded by a leading one. */
  predicate LoneSurrogateAt(q: seq<CodeUnit>, i: int)
  {
    0 <= i < |q| &&
    ((IsLeadingSurrogate(q[i]) && (i + 1 == |q| || !IsTrailingSurrogate(q[i + 1])))
     || (IsTrailingSurrogate(q[i]) && (i == 0 || !IsLeadingSurrogate(q[i - 1]))))
  }

  /** Lone surrogates of a string are those of its tail one or two units in, after a non-surrogate or a surrogate pair. */
  lemma LoneSurrogateShift(q: seq<CodeUnit>, n: nat, i: int)
    requires 1 <= n <= 2 && n <= |q|
    requires n == 1 ==> !IsLeadingSurrogate(q[0]) && !IsTrailingSurrogate(q[0])
    requires n == 2 ==> IsLeadingSurrogate(q[0]) && IsTrailingSurrogate(q[1])
    requires n <= i
    ensures LoneSurrogateAt(q, i) <==> LoneSurrogateAt(q[n..], i - n)
  {
    if i < |q| {
      assert q[n..][i - n] == q[i];
      if i + 1 < |q| { assert q[n..][i - n + 1] == q[i + 1]; }
      if i - n > 0 { assert q[n..][i - n - 1] == q[i - 1]; }
    }
  }

  /** A string has no code points exactly when it holds a lone surrogate somewhere. */
  lemma {:induction false} Utf16DecodeFails(q: seq<CodeUnit>)
    ensures Utf16Decode(q).None? <==> exists i :: LoneSurrogateAt(q, i)
    decreases |q|
  {
    if q != [] {
      var cp := CodePointAt(q, 0);
      if cp.isUnpairedSurrogate {
        assert LoneSurrogateAt(q, 0);
      } else {
        var n := cp.codeUnitCount;
        Utf16DecodeFails(q[n..]);
        assert !LoneSurrogateAt(q, 0);
        assert n == 2 ==> !LoneSurrogateAt(q, 1);
        forall i | n <= i ensures LoneSurrogateAt(q, i) <==> LoneSurrogateAt(q[n..], i - n) {
          LoneSurrogateShift(q, n, i);
        }
        if j :| LoneSurrogateAt(q[n..], j) {
          assert LoneSurrogateAt(q, j + n);
        }
        if i :| LoneSurrogateAt(q, i) {
          assert LoneSurrogateAt(q[n..], i - n);
        }
      }
    }
  }

  // ---------------------------------------------------------------- UTF-8

  /** The UTF-8 octets of one scalar value (RFC 3629, section 3). */
  function Utf8EncodeOne(c: Scalar): (bs: seq<Byte>)
    ensures 1 <= |bs| <= 4
    ensures c < 0x80 ==> bs == [c]
    ensures c >= 0x80 ==> forall j :: 0 <= j < |bs| ==> bs[j] >= 0x80
  {
    var c := c as int;
    if c < 0x80 then [c as Byte]
    else if c < 0x800 then [(0xC0 + c / 0x40) as Byte, (0x80 + c % 0x40) as Byte]
    else if c < 0x1_0000 then
      [(0xE0 + c / 0x1000) as Byte, (0x80 + (c / 0x40) % 0x40) as Byte, (0x80 + c % 0x40) as Byte]
    else
      [(0xF0 + c / 0x4_0000) as Byte, (0x80 + (c / 0x1000) % 0x40) as Byte,
       (0x80 + (c / 0x40) % 0x40) as Byte, (0x80 + c % 0x40) as Byte]
  }

  function Utf8Encode(cps: seq<Scalar>): seq<Byte>
  {
    if cps == [] then [] else Utf8EncodeOne(cps[0]) + Utf8Encode(cps[1..])
  }

  predicate IsContinuation(b: Byte)
  {
    0x80 <= b < 0xC0
  }

  /** A decoded scalar and the number of octets it took. */
  datatype Decoded = Decoded(c: Scalar, length: nat)

  /** The scalar value the octets start with, rejecting malformed, overlong and surrogate sequences. */
  function Utf8DecodeOne(bs: seq<Byte>): (r: Option<Decoded>)
    requires bs != []
    ensures r.Some? ==> 1 <= r.value.length <= |bs|
  {
    var b0 := bs[0] as int;
    if b0 < 0x80 then Some(Decoded(b0, 1))
    else if 0xC2 <= b0 < 0xE0 then
      if |bs| < 2 || !IsContinuation(bs[1]) then None
      else Some(Decoded((b0 - 0xC0) * 0x40 + (bs[1] as int - 0x80), 2))
    else if 0xE0 <= b0 < 0xF0 then
      if |bs| < 3 || !IsContinuation(bs[1]) || !IsContinuation(bs[2]) then None
      else
        var c := (b0 - 0xE0) * 0x1000 + (bs[1] as int - 0x80) * 0x40 + (bs[2] as int - 0x80);
        if c < 0x800 || !IsScalar(c) then None else Some(Decoded(c, 3))
    else if 0xF0 <= b0 < 0xF5 then
      if |bs| < 4 || !IsContinuation(bs[1]) || !IsContinuation(bs[2]) || !IsContinuation(bs[3]) then None
      else
        var c := (b0 - 0xF0) * 0x4_0000 + (bs[1] as int - 0x80) * 0x1000 + (bs[2] as int - 0x80) * 0x40 + (bs[3] as int - 0x80);
        if c < 0x1_0000 || c >= 0x11_0000 then None else Some(Decoded(c, 4))
    else None
  }

  /** The scalar values the octets spell, or None when they are not well-formed UTF-8. */
  function Utf8Decode(bs: seq<Byte>): Option<seq<Scalar>>
    decreases |bs|
  {
    if bs == [] then Some([])
    else
      match Utf8DecodeOne(bs)
      case None => None
      case Some(d) =>
        match Utf8Decode(bs[d.length..])
        case None => None
        case Some(rest) => Some([d.c] + rest)
  }

  lemma Utf8TwoOctets(c: Scalar)
    requires 0x80 <= c < 0x800
    ensures (c / 0x40) * 0x40 + c % 0x40 == c
  {
  }

  lemma Utf8ThreeOctets(c: Scalar)
    requires 0x800 <= c < 0x1_0000
    ensures (c / 0x1000) * 0x1000 + ((c / 0x40) % 0x40) * 0x40 + c % 0x40 == c
  {
    var hi, mid, lo := c / 0x1000, (c / 0x40) % 0x40, c % 0x40;
    assert c / 0x40 == hi * 0x40 + mid;
    assert c == (c / 0x40) * 0x40 + lo;
  }

  lemma Utf8FourOctets(c: Scalar)
    requires 0x1_0000 <= c
    ensures (c / 0x4_0000) * 0x4_0000 + ((c / 0x1000) % 0x40) * 0x1000 + ((c / 0x40) % 0x40) * 0x40 + c % 0x40 == c
  {
    var top, hi, mid, lo := c / 0x4_0000, (c / 0x1000) % 0x40, (c / 0x40) % 0x40, c % 0x40;
    assert c / 0x1000 == top * 0x40 + hi;
    assert c / 0x40 == (c / 0x1000) * 0x40 + mid;
    assert c == (c / 0x40) * 0x40 + lo;
  }

  /** The first scalar value is read back from its own octets, whatever follows them. */
  lemma Utf8DecodeOneEncode(c: Scalar, rest: seq<Byte>)
    ensures Utf8DecodeOne(Utf8EncodeOne(c) + rest) == Some(Decoded(c, |Utf8EncodeOne(c)|))
  {
    var bs := Utf8EncodeOne(c) + rest;
    if c < 0x80 {
    } else if c < 0x800 {
      Utf8TwoOctets(c);
    } else if c < 0x1_0000 {
      Utf8ThreeOctets(c);
    } else {
      Utf8FourOctets(c);
      assert bs[0] == 0xF0 + c / 0x4_0000 && c / 0x4_0000 <= 4;
      assert bs[1] == 0x80 + (c / 0x1000) % 0x40;
      assert bs[2] == 0x80 + (c / 0x40) % 0x40;
      assert bs[3] == 0x80 + c % 0x40;
    }
  }

  /** UTF-8 decoding undoes UTF-8 encoding. */
  lemma {:induction false} Utf8DecodeEncode(cps: seq<Scalar>)
    ensures Utf8Decode(Utf8Encode(cps)) == Some(cps)
  {
    if cps != [] {
      var bs := Utf8Encode(cps);
      Utf8DecodeOneEncode(cps[0], Utf8Encode(cps[1..]));
      assert bs[|Utf8EncodeOne(cps[0])|..] == Utf8Encode(cps[1..]);
      Utf8DecodeEncode(cps[1..]);
      assert [cps[0]] + cps[1..] == cps;
    }
  }
}
