/**
 * `encodeURIComponent` (ECMA-262 section 19.2.6.5), used to put the chat
 * message into the WhatsApp link, and the matching `decodeURIComponent`
 * (section 19.2.6.3) that states what the encoding preserves.
 *
 * Characters are Unicode scalar values, so the encoder never meets a lone
 * surrogate and never throws.
 */
module UriEncode {
  import opened Common

  type Byte = b: int | 0 <= b < 256

  /** The characters `encodeURIComponent` leaves as they are. */
  predicate Unreserved(c: char)
  {
    ('A' <= c <= 'Z') || ('a' <= c <= 'z') || ('0' <= c <= '9') ||
    c == '-' || c == '_' || c == '.' || c == '!' || c == '~' ||
    c == '*' || c == '\'' || c == '(' || c == ')'
  }

  /** Upper-case hexadecimal digit for `d`. */
  function HexDigit(d: int): (c: char)
    requires 0 <= d < 16
    ensures Unreserved(c) && c != '%'
  {
    if d < 10 then ('0' as int + d) as char else ('A' as int + d - 10) as char
  }

  /** Value of a hexadecimal digit of either case. */
  function HexValue(c: char): (r: Option<int>)
    ensures r.Some? ==> 0 <= r.value < 16
  {
    if '0' <= c <= '9' then Some(c as int - '0' as int)
    else if 'A' <= c <= 'F' then Some(c as int - 'A' as int + 10)
    else if 'a' <= c <= 'f' then Some(c as int - 'a' as int + 10)
    else None
  }

  /** The UTF-8 octets of one scalar value. */
  function Utf8(c: char): (r: seq<Byte>)
    ensures 1 <= |r| <= 4
  {
    var v := c as int;
    if v < 0x80 then [v]
    else if v < 0x800 then [0xC0 + v / 64, 0x80 + v % 64]
    else if v < 0x10000 then [0xE0 + v / 4096, 0x80 + (v / 64) % 64, 0x80 + v % 64]
    else [0xF0 + v / 262144, 0x80 + (v / 4096) % 64, 0x80 + (v / 64) % 64, 0x80 + v % 64]
  }

  /** `%XY` for one octet. */
  function Percent(b: Byte): string
  {
    ['%', HexDigit(b / 16), HexDigit(b % 16)]
  }

  function PercentAll(bs: seq<Byte>): (r: string)
    ensures |r| == 3 * |bs|
  {
    if bs == [] then [] else Percent(bs[0]) + PercentAll(bs[1..])
  }

  function EncodeChar(c: char): string
  {
    if Unreserved(c) then [c] else PercentAll(Utf8(c))
  }

  /** Characters an encoded string may contain. */
  predicate Escaped(c: char)
  {
    Unreserved(c) || c == '%'
  }

  /**
   * `encodeURIComponent(s)`. The result holds only unreserved characters and
   * '%', so it cannot contain a query delimiter such as '&', '#', '=' or '?'.
   */
  function Encode(s: string): (r: string)
    ensures forall i :: 0 <= i < |r| ==> Escaped(r[i])
    ensures (forall i :: 0 <= i < |s| ==> Unreserved(s[i])) ==> r == s
    ensures |s| <= |r| <= 12 * |s|
  {
    if s == [] then []
    else
      var head := EncodeChar(s[0]);
      assert forall i :: 0 <= i < |head| ==> Escaped(head[i]) by {
        if !Unreserved(s[0]) { PercentAllEscaped(Utf8(s[0])); }
      }
      head + Encode(s[1..])
  }

  lemma {:induction false} PercentAllEscaped(bs: seq<Byte>)
    ensures forall i :: 0 <= i < |PercentAll(bs)| ==> Escaped(PercentAll(bs)[i])
  {
    if bs != [] {
      PercentAllEscaped(bs[1..]);
    }
  }

  // ---------------------------------------------------------------------------
  // Decoding.

  /** The octet written as `%XY` at position `i` of `s`, if any. */
  function OctetAt(s: string, i: nat): (r: Option<Byte>)
  {
    if i + 3 <= |s| && s[i] == '%' && HexValue(s[i + 1]).Some? && HexValue(s[i + 2]).Some?
    then Some(16 * HexValue(s[i + 1]).value + HexValue(s[i + 2]).value)
    else None
  }

  /** The low six bits of a continuation octet `%XY` at position `i`, if it is one. */
  function ContinuationAt(s: string, i: nat): (r: Option<int>)
    ensures r.Some? ==> 0 <= r.value < 64
  {
    match OctetAt(s, i)
    case Some(b) => if 0x80 <= b < 0xC0 then Some(b - 0x80) else None
    case None => None
  }

  /** A code point that is a Unicode scalar value, hence a `char`. */
  predicate IsScalar(v: int)
  {
    (0 <= v < 0xD800) || (0xE000 <= v < 0x110000)
  }

  /** The character decoded from `n` octets with value `v`, if `v` is the shortest form. */
  function Scalar(v: int, n: nat): Option<char>
  {
    var least := if n == 2 then 0x80 else if n == 3 then 0x800 else 0x10000;
    if least <= v && IsScalar(v) then Some(v as char) else None
  }

  /**
   * Decodes the first character of `s`, with the number of input characters
   * it took; `None` where `decodeURIComponent` throws a URIError.
   */
  function DecodeStep(s: string): (r: Option<(char, nat)>)
    requires s != []
    ensures r.Some? ==> 1 <= r.value.1 <= |s|
  {
    if s[0] != '%' then Some((s[0], 1))
    else
      match OctetAt(s, 0)
      case None => None
      case Some(b0) =>
        if b0 < 0x80 then Some((b0 as char, 3))
        else if 0xC0 <= b0 < 0xE0 then
          match ContinuationAt(s, 3)
          case Some(c1) =>
            var ch := Scalar((b0 - 0xC0) * 64 + c1, 2);
            if ch.Some? then Some((ch.value, 6)) else None
          case None => None
        else if 0xE0 <= b0 < 0xF0 then
          match (ContinuationAt(s, 3), ContinuationAt(s, 6))
          case (Some(c1), Some(c2)) =>
            var ch := Scalar((b0 - 0xE0) * 4096 + c1 * 64 + c2, 3);
            if ch.Some? then Some((ch.value, 9)) else None
          case _ => None
        else if 0xF0 <= b0 < 0xF8 then
          match (ContinuationAt(s, 3), ContinuationAt(s, 6), ContinuationAt(s, 9))
          case (Some(c1), Some(c2), Some(c3)) =>
            var ch := Scalar((b0 - 0xF0) * 262144 + c1 * 4096 + c2 * 64 + c3, 4);
            if ch.Some? then Some((ch.value, 12)) else None
          case _ => None
        else None
  }

  /** `decodeURIComponent(s)`, or `None` where it throws a URIError. */
  function Decode(s: string): Option<string>
    decreases |s|
  {
    if s == [] then Some([])
    else
      match DecodeStep(s)
      case None => None
      case Some((c, n)) =>
        match Decode(s[n..])
        case None => None
        case Some(rest) => Some([c] + rest)
  }

  // ---------------------------------------------------------------------------
  // Round trip.

  lemma HexRoundTrip(d: int)
    requires 0 <= d < 16
    ensures HexValue(HexDigit(d)) == Some(d)
  {
  }

  /** `%XY` written by `Percent` reads back as the same octet. */
  lemma OctetOfPercent(b: Byte, prefix: string, t: string)
    ensures OctetAt(prefix + Percent(b) + t, |prefix|) == Some(b)
  {
    var s := prefix + Percent(b) + t;
    var i := |prefix|;
    assert s[i] == '%' && s[i + 1] == HexDigit(b / 16) && s[i + 2] == HexDigit(b % 16);
    HexRoundTrip(b / 16);
    HexRoundTrip(b % 16);
  }

  /** Position `3 * k` of a percent-encoded octet string holds octet `k`. */
  lemma {:induction false} OctetOfPercentAll(bs: seq<Byte>, k: nat, t: string)
    requires k < |bs|
    ensures OctetAt(PercentAll(bs) + t, 3 * k) == Some(bs[k])
    decreases |bs|
  {
    if k == 0 {
      assert PercentAll(bs) + t == [] + Percent(bs[0]) + (PercentAll(bs[1..]) + t);
      OctetOfPercent(bs[0], [], PercentAll(bs[1..]) + t);
    } else {
      OctetOfPercentAll(bs[1..], k - 1, t);
      var s := PercentAll(bs) + t;
      var s' := PercentAll(bs[1..]) + t;
      assert s == Percent(bs[0]) + s';
      assert |s| == |s'| + 3;
      var i := 3 * k;
      assert s[i] == s'[i - 3] && s[i + 1] == s'[i - 2] && s[i + 2] == s'[i - 1];
    }
  }

  /** Every octet of a percent-encoded character reads back at its position. */
  lemma OctetsOfChar(c: char, t: string)
    ensures forall k :: 0 <= k < |Utf8(c)| ==> OctetAt(PercentAll(Utf8(c)) + t, 3 * k) == Some(Utf8(c)[k])
  {
    forall k | 0 <= k < |Utf8(c)| ensures OctetAt(PercentAll(Utf8(c)) + t, 3 * k) == Some(Utf8(c)[k]) {
      OctetOfPercentAll(Utf8(c), k, t);
    }
  }

  lemma DecodeTwoOctets(c: char, t: string)
    requires 0x80 <= c as int < 0x800
    ensures DecodeStep(PercentAll(Utf8(c)) + t) == Some((c, 6))
  {
    var s, v := PercentAll(Utf8(c)) + t, c as int;
    OctetsOfChar(c, t);
    assert OctetAt(s, 0) == Some(0xC0 + v / 64);
    assert ContinuationAt(s, 3) == Some(v % 64);
    assert (v / 64) * 64 + v % 64 == v;
  }

  /** Base-64 digits of a three-octet code point. */
  lemma Digits3(v: int)
    requires 0x800 <= v < 0x10000
    ensures v == (v / 4096) * 4096 + ((v / 64) % 64) * 64 + v % 64
    ensures 0 <= v / 4096 < 16 && 0 <= (v / 64) % 64 < 64 && 0 <= v % 64 < 64
  {
  }

  /** Base-64 digits of a four-octet code point. */
  lemma Digits4(v: int)
    requires 0x10000 <= v < 0x110000
    ensures v == (v / 262144) * 262144 + ((v / 4096) % 64) * 4096 + ((v / 64) % 64) * 64 + v % 64
    ensures 0 <= v / 262144 < 5 && 0 <= (v / 4096) % 64 < 64
    ensures 0 <= (v / 64) % 64 < 64 && 0 <= v % 64 < 64
  {
  }

  lemma DecodeThreeOctets(c: char, t: string)
    requires 0x800 <= c as int < 0x10000
    ensures DecodeStep(PercentAll(Utf8(c)) + t) == Some((c, 9))
  {
    var s, v := PercentAll(Utf8(c)) + t, c as int;
    var a, b, d := v / 4096, (v / 64) % 64, v % 64;
    Digits3(v);
    assert Utf8(c) == [0xE0 + a, 0x80 + b, 0x80 + d];
    OctetOfPercentAll(Utf8(c), 0, t);
    OctetOfPercentAll(Utf8(c), 1, t);
    OctetOfPercentAll(Utf8(c), 2, t);
    assert OctetAt(s, 0) == Some(0xE0 + a);
    assert OctetAt(s, 3) == Some(0x80 + b) && OctetAt(s, 6) == Some(0x80 + d);
    assert ContinuationAt(s, 3) == Some(b);
    assert ContinuationAt(s, 6) == Some(d);
    assert Scalar(a * 4096 + b * 64 + d, 3) == Some(c);
  }

  lemma DecodeFourOctets(c: char, t: string)
    requires 0x10000 <= c as int
    ensures DecodeStep(PercentAll(Utf8(c)) + t) == Some((c, 12))
  {
    var s, v := PercentAll(Utf8(c)) + t, c as int;
    var a, b, d, e := v / 262144, (v / 4096) % 64, (v / 64) % 64, v % 64;
    Digits4(v);
    assert Utf8(c) == [0xF0 + a, 0x80 + b, 0x80 + d, 0x80 + e];
    OctetOfPercentAll(Utf8(c), 0, t);
    OctetOfPercentAll(Utf8(c), 1, t);
    OctetOfPercentAll(Utf8(c), 2, t);
    OctetOfPercentAll(Utf8(c), 3, t);
    assert OctetAt(s, 0) == Some(0xF0 + a);
    assert OctetAt(s, 3) == Some(0x80 + b) && OctetAt(s, 6) == Some(0x80 + d);
    assert OctetAt(s, 9) == Some(0x80 + e);
    assert ContinuationAt(s, 3) == Some(b);
    assert ContinuationAt(s, 6) == Some(d);
    assert ContinuationAt(s, 9) == Some(e);
    assert Scalar(a * 262144 + b * 4096 + d * 64 + e, 4) == Some(c);
  }

  /** The first character decoded from an encoded character followed by anything is that character. */
  lemma DecodeEncodedChar(c: char, t: string)
    ensures DecodeStep(EncodeChar(c) + t) == Some((c, |EncodeChar(c)|))
  {
    var v := c as int;
    if Unreserved(c) {
    } else if v < 0x80 {
      var s := PercentAll(Utf8(c)) + t;
      OctetsOfChar(c, t);
      assert OctetAt(s, 0) == Some(v);
    } else if v < 0x800 {
      DecodeTwoOctets(c, t);
    } else if v < 0x10000 {
      DecodeThreeOctets(c, t);
    } else {
      DecodeFourOctets(c, t);
    }
  }

  /** `decodeURIComponent(encodeURIComponent(s)) === s` for every string of scalar values. */
  lemma {:induction false} DecodeEncode(s: string)
    ensures Decode(Encode(s)) == Some(s)
    decreases |s|
  {
    if s != [] {
      var head := EncodeChar(s[0]);
      var e := Encode(s);
      assert e == head + Encode(s[1..]);
      DecodeEncodedChar(s[0], Encode(s[1..]));
      assert e[|head|..] == Encode(s[1..]);
      DecodeEncode(s[1..]);
      assert [s[0]] + s[1..] == s;
    }
  }
}
