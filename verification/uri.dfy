/**
 The URI component coding the userscript applies to every search term:
 JavaScript's `encodeURIComponent` and its inverse `decodeURIComponent`, as
 the Encode and Decode operations of the ECMAScript language specification
 (section 19.2.6, URI Handling Functions) define them over strings of
 Unicode scalar values. A `URIError` thrown by the decoder is `None`.
 */
module Uri {

  import opened Options

  type Byte = n: int | 0 <= n < 256

  /** The characters `encodeURIComponent` leaves as they are: ASCII letters
      and digits and the marks `- _ . ! ~ * ' ( )`. */
  predicate IsUnreserved(c: char)
  {
    || ('A' <= c <= 'Z') || ('a' <= c <= 'z') || ('0' <= c <= '9')
    || c == '-' || c == '_' || c == '.' || c == '!' || c == '~'
    || c == '*' || c == '\'' || c == '(' || c == ')'
  }

  /** The upper-case hexadecimal digit for `d`, as the encoder writes it. */
  function HexDigit(d: int): (c: char)
    requires 0 <= d < 16
    ensures IsUnreserved(c)
  {
    if d < 10 then ('0' as int + d) as char else ('A' as int + d - 10) as char
  }

  /** The value of a hexadecimal digit of either case, or `None` when `c`
      is not one. */
  function HexValue(c: char): (v: Option<int>)
    ensures v.Some? ==> 0 <= v.value < 16
  {
    if '0' <= c <= '9' then Some(c as int - '0' as int)
    else if 'A' <= c <= 'F' then Some(c as int - 'A' as int + 10)
    else if 'a' <= c <= 'f' then Some(c as int - 'a' as int + 10)
    else None
  }

  /** The three-character escape `%XY` of one octet. */
  function Escape(b: Byte): string
  {
    ['%', HexDigit(b / 16), HexDigit(b % 16)]
  }

  /** The escapes of a sequence of octets, one after the other. */
  function EscapeAll(bs: seq<Byte>): (r: string)
    ensures |r| == 3 * |bs|
  {
    if bs == [] then [] else Escape(bs[0]) + EscapeAll(bs[1..])
  }

  /** The UTF-8 encoding of one Unicode scalar value (RFC 3629, section 3). */
  function Utf8(c: char): (bs: seq<Byte>)
    ensures 1 <= |bs| <= 4
    ensures (|bs| == 1) <==> (c as int < 0x80)
  {
    var n := c as int;
    if n < 0x80 then [n]
    else if n < 0x800 then [0xC0 + n / 64, 0x80 + n % 64]
    else if n < 0x10000 then [0xE0 + n / 4096, 0x80 + (n / 64) % 64, 0x80 + n % 64]
    else [0xF0 + n / 262144, 0x80 + (n / 4096) % 64, 0x80 + (n / 64) % 64, 0x80 + n % 64]
  }

  /** `encodeURIComponent` of one character: unreserved characters stand
      for themselves, every other one becomes the escapes of its UTF-8
      octets. */
  function EncodeChar(c: char): string
  {
    if IsUnreserved(c) then [c] else EscapeAll(Utf8(c))
  }

  /** True when `s` can stand in a URL query parameter without ending it:
      it holds only unreserved characters and `%`, so no `&`, `#`, `=`,
      space or non-ASCII character. */
  predicate IsUriSafe(s: string)
  {
    forall i :: 0 <= i < |s| ==> IsUnreserved(s[i]) || s[i] == '%'
  }

  /** `encodeURIComponent(s)`. */
  function EncodeUriComponent(s: string): (r: string)
    ensures IsUriSafe(r)
    ensures |r| >= |s|
  {
    if s == [] then []
    else
      var head := EncodeChar(s[0]);
      assert IsUriSafe(head) by {
        if !IsUnreserved(s[0]) { EscapeAllIsSafe(Utf8(s[0])); }
      }
      assert |head| >= 1;
      head + EncodeUriComponent(s[1..])
  }

  lemma {:induction false} EscapeAllIsSafe(bs: seq<Byte>)
    ensures IsUriSafe(EscapeAll(bs))
  {
    if bs != [] {
      EscapeAllIsSafe(bs[1..]);
    }
  }

  // ---------------------------------------------------------------------
  // Decoding

  /** Reads one escape `%XY` at the start of `t`. */
  function ReadEscape(t: string): (b: Option<Byte>)
    ensures b.Some? ==> |t| >= 3 && t[0] == '%'
  {
    if |t| >= 3 && t[0] == '%' && HexValue(t[1]).Some? && HexValue(t[2]).Some? then
      Some(16 * HexValue(t[1]).value + HexValue(t[2]).value)
    else None
  }

  /** True for the octets `10xxxxxx` that continue a UTF-8 sequence. */
  predicate IsContinuation(b: Byte)
  {
    0x80 <= b < 0xC0
  }

  /** The number of leading one bits of an octet: the decoder's `n`. */
  function LeadingOnes(b: Byte): (n: nat)
    ensures n <= 8
    ensures (n == 0) <==> b < 0x80
  {
    if b < 0x80 then 0
    else if b < 0xC0 then 1
    else if b < 0xE0 then 2
    else if b < 0xF0 then 3
    else if b < 0xF8 then 4
    else if b < 0xFC then 5
    else if b < 0xFE then 6
    else if b < 0xFF then 7
    else 8
  }

  /** Reads `k` escapes of continuation octets at the start of `t`; `None`
      when one is missing, malformed or not a continuation octet. */
  function ReadContinuations(t: string, k: nat): (r: Option<seq<Byte>>)
    ensures r.Some? ==> |r.value| == k && 3 * k <= |t|
  {
    if k == 0 then Some([])
    else match ReadEscape(t)
      case None => None
      case Some(b) =>
        if !IsContinuation(b) then None
        else match ReadContinuations(t[3..], k - 1)
          case None => None
          case Some(bs) => Some([b] + bs)
  }

  /** The code point a multi-octet UTF-8 sequence spells. */
  function Utf8Value(bs: seq<Byte>): int
    requires 2 <= |bs| <= 4
  {
    var b0: int, b1: int := bs[0], bs[1];
    if |bs| == 2 then (b0 - 0xC0) * 64 + (b1 - 0x80)
    else
      var b2: int := bs[2];
      if |bs| == 3 then (b0 - 0xE0) * 4096 + (b1 - 0x80) * 64 + (b2 - 0x80)
      else
        var b3: int := bs[3];
        (b0 - 0xF0) * 262144 + (b1 - 0x80) * 4096 + (b2 - 0x80) * 64 + (b3 - 0x80)
  }

  /** True when an `n`-octet sequence spelling `v` is well-formed UTF-8:
      not overlong, not a surrogate, not beyond U+10FFFF. */
  predicate WellFormed(n: nat, v: int)
  {
    || (n == 2 && 0x80 <= v < 0x800)
    || (n == 3 && 0x800 <= v < 0x10000 && !(0xD800 <= v < 0xE000))
    || (n == 4 && 0x10000 <= v < 0x110000)
  }

  /** Decodes the escaped character at the start of `t` (which starts with
      `%`): its character and how many characters of `t` it took. */
  function DecodeEscaped(t: string): (r: Option<(char, nat)>)
    ensures r.Some? ==> 3 <= r.value.1 <= |t|
  {
    match ReadEscape(t)
    case None => None
    case Some(b) =>
      if b < 0x80 then Some((b as char, 3))
      else
        var n := LeadingOnes(b);
        if n == 1 || n > 4 then None
        else match ReadContinuations(t[3..], n - 1)
          case None => None
          case Some(cs) =>
            var v := Utf8Value([b] + cs);
            if WellFormed(n, v) then Some((v as char, 3 * n)) else None
  }

  /** `c` in front of a decoded rest, failing when the rest failed. */
  function Prepend(c: char, rest: Option<string>): Option<string>
  {
    match rest
    case None => None
    case Some(s) => Some([c] + s)
  }

  /** `decodeURIComponent(t)`: every escape decoded, every other character
      kept; `None` where the decoder throws `URIError`. */
  function DecodeUriComponent(t: string): Option<string>
    decreases |t|
  {
    if t == [] then Some([])
    else if t[0] != '%' then Prepend(t[0], DecodeUriComponent(t[1..]))
    else match DecodeEscaped(t)
      case None => None
      case Some((c, len)) => Prepend(c, DecodeUriComponent(t[len..]))
  }

  // ---------------------------------------------------------------------
  // Round trip

  /** Decoding undoes encoding: the term a search URL carries is exactly
      the string that was encoded into it. */
  lemma {:induction false} DecodeEncode(s: string)
    ensures DecodeUriComponent(EncodeUriComponent(s)) == Some(s)
    decreases |s|
  {
    if s != [] {
      var rest := EncodeUriComponent(s[1..]);
      assert EncodeUriComponent(s) == EncodeChar(s[0]) + rest;
      DecodeEncode(s[1..]);
      DecodeEncodeChar(s[0], rest);
      assert [s[0]] + s[1..] == s;
    }
  }

  /** One encoded character decodes back to itself, whatever follows it. */
  lemma DecodeEncodeChar(c: char, rest: string)
    ensures DecodeUriComponent(EncodeChar(c) + rest) == Prepend(c, DecodeUriComponent(rest))
  {
    var t := EncodeChar(c) + rest;
    if IsUnreserved(c) {
      assert t[1..] == rest;
    } else {
      var bs := Utf8(c);
      EscapeAllThen(bs, rest);
      ReadEscapeOf(bs[0], EscapeAll(bs[1..]) + rest);
      if |bs| == 1 {
        assert DecodeEscaped(t) == Some((c, 3));
      } else {
        Utf8Continuations(c);
        ReadContinuationsOf(bs[1..], rest);
        Utf8Decodes(c);
        assert [bs[0]] + bs[1..] == bs;
        assert DecodeEscaped(t) == Some((c, 3 * |bs|));
      }
      assert t[3 * |bs|..] == rest;
    }
  }

  lemma {:induction false} EscapeAllThen(bs: seq<Byte>, rest: string)
    requires bs != []
    ensures EscapeAll(bs) + rest == Escape(bs[0]) + (EscapeAll(bs[1..]) + rest)
  {
  }

  /** An escape reads back as the octet it was written from. */
  lemma ReadEscapeOf(b: Byte, rest: string)
    ensures ReadEscape(Escape(b) + rest) == Some(b)
  {
    var t := Escape(b) + rest;
    assert t[1] == HexDigit(b / 16) && t[2] == HexDigit(b % 16);
  }

  /** Escaped continuation octets read back as themselves. */
  lemma {:induction false} ReadContinuationsOf(cs: seq<Byte>, rest: string)
    requires forall i :: 0 <= i < |cs| ==> IsContinuation(cs[i])
    ensures ReadContinuations(EscapeAll(cs) + rest, |cs|) == Some(cs)
  {
    if cs != [] {
      var t := EscapeAll(cs) + rest;
      EscapeAllThen(cs, rest);
      ReadEscapeOf(cs[0], EscapeAll(cs[1..]) + rest);
      assert t[3..] == EscapeAll(cs[1..]) + rest;
      ReadContinuationsOf(cs[1..], rest);
      assert [cs[0]] + cs[1..] == cs;
    }
  }

  /** Every octet after the first of a multi-octet encoding continues it. */
  lemma Utf8Continuations(c: char)
    requires c as int >= 0x80
    ensures forall i :: 1 <= i < |Utf8(c)| ==> IsContinuation(Utf8(c)[i])
  {
  }

  /** A multi-octet encoding announces its length in its first octet,
      spells the code point it came from and is well-formed. */
  lemma Utf8Decodes(c: char)
    requires c as int >= 0x80
    ensures LeadingOnes(Utf8(c)[0]) == |Utf8(c)|
    ensures Utf8Value(Utf8(c)) == c as int
    ensures WellFormed(|Utf8(c)|, c as int)
  {
    var n := c as int;
    if n < 0x800 {
      Utf8DecodesTwo(n);
    } else if n < 0x10000 {
      Utf8DecodesThree(n);
    } else {
      Utf8DecodesFour(n);
    }
  }

  lemma Utf8DecodesTwo(n: int)
    requires 0x80 <= n < 0x800
    ensures (0xC0 + n / 64 - 0xC0) * 64 + (0x80 + n % 64 - 0x80) == n
  {
    assert n == (n / 64) * 64 + n % 64;
  }

  lemma Utf8DecodesThree(n: int)
    requires 0x800 <= n < 0x10000
    ensures (0xE0 + n / 4096 - 0xE0) * 4096 + (0x80 + (n / 64) % 64 - 0x80) * 64
            + (0x80 + n % 64 - 0x80) == n
  {
    assert n / 64 == (n / 4096) * 64 + (n / 64) % 64;
    assert n == (n / 64) * 64 + n % 64;
  }

  lemma Utf8DecodesFour(n: int)
    requires 0x10000 <= n < 0x110000
    ensures (0xF0 + n / 262144 - 0xF0) * 262144 + (0x80 + (n / 4096) % 64 - 0x80) * 4096
            + (0x80 + (n / 64) % 64 - 0x80) * 64 + (0x80 + n % 64 - 0x80) == n
  {
    assert n / 4096 == (n / 262144) * 64 + (n / 4096) % 64;
    assert n / 64 == (n / 4096) * 64 + (n / 64) % 64;
    assert n == (n / 64) * 64 + n % 64;
  }
}
