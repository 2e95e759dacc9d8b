/** `encodeURIComponent` as the signer uses it: the characters
    `A-Z a-z 0-9 - _ . ! ~ * ' ( )` are copied, every other character is
    written as the `%XX` escapes (upper-case hexadecimal) of its UTF-8 bytes.
    A Dafny `char` is a Unicode scalar value, so the lone-surrogate failure of
    the JavaScript function cannot arise here.

    `Decode` is the partner: it reads back any string of raw characters other
    than `%` and of `%XX` escapes forming well-formed UTF-8, and
    `DecodeEncode` proves that it undoes `Encode`. */
module PercentEncoding {
  import opened Wrappers

  newtype byte = x: int | 0 <= x < 256

  /** The characters `encodeURIComponent` leaves unescaped. */
  predicate IsUnreserved(c: char) {
    || ('A' <= c <= 'Z') || ('a' <= c <= 'z') || ('0' <= c <= '9')
    || c == '-' || c == '_' || c == '.' || c == '!' || c == '~'
    || c == '*' || c == '\'' || c == '(' || c == ')'
  }

  predicate IsUpperHex(c: char) {
    ('0' <= c <= '9') || ('A' <= c <= 'F')
  }

  /** The upper-case hexadecimal digit for `n`. */
  function HexDigit(n: int): (c: char)
    requires 0 <= n < 16
    ensures IsUpperHex(c) && IsUnreserved(c)
  {
    if n < 10 then ('0' as int + n) as char else ('A' as int + n - 10) as char
  }

  /** The value of a hexadecimal digit of either case. */
  function HexValue(c: char): (r: Option<int>)
    ensures r.Some? ==> 0 <= r.value < 16
    ensures r.Some? <==> (('0' <= c <= '9') || ('A' <= c <= 'F') || ('a' <= c <= 'f'))
  {
    if '0' <= c <= '9' then Some(c as int - '0' as int)
    else if 'A' <= c <= 'F' then Some(c as int - 'A' as int + 10)
    else if 'a' <= c <= 'f' then Some(c as int - 'a' as int + 10)
    else None
  }

  lemma HexValueOfDigit(n: int)
    requires 0 <= n < 16
    ensures HexValue(HexDigit(n)) == Some(n)
  {
  }

  /** The UTF-8 encoding of one scalar value. */
  function Utf8(c: char): (bs: seq<byte>)
    ensures 1 <= |bs| <= 4
  {
    var cp := c as int;
    if cp < 0x80 then
      [cp as byte]
    else if cp < 0x800 then
      [(0xC0 + cp / 0x40) as byte, (0x80 + cp % 0x40) as byte]
    else if cp < 0x10000 then
      [(0xE0 + cp / 0x1000) as byte, (0x80 + cp / 0x40 % 0x40) as byte, (0x80 + cp % 0x40) as byte]
    else
      [(0xF0 + cp / 0x40000) as byte, (0x80 + cp / 0x1000 % 0x40) as byte,
       (0x80 + cp / 0x40 % 0x40) as byte, (0x80 + cp % 0x40) as byte]
  }

  /** The number of bytes of a UTF-8 sequence that starts with `b`,
      or 0 when `b` cannot start one. */
  function Utf8Length(b: byte): (n: nat)
    ensures n <= 4
  {
    if b < 0x80 then 1
    else if 0xC0 <= b < 0xE0 then 2
    else if 0xE0 <= b < 0xF0 then 3
    else if 0xF0 <= b < 0xF8 then 4
    else 0
  }

  predicate IsContinuation(b: byte) {
    0x80 <= b < 0xC0
  }

  predicate IsScalarValue(cp: int) {
    (0 <= cp < 0xD800) || (0xE000 <= cp < 0x110000)
  }

  /** Well-formed UTF-8 for exactly one scalar value (no overlong forms,
      no surrogates), as `decodeURIComponent` accepts it. */
  function DecodeUtf8(bs: seq<byte>): (r: Option<char>)
    requires 1 <= |bs| <= 4
  {
    var n := Utf8Length(bs[0]);
    if n != |bs| then None
    else if n == 1 then Some(bs[0] as int as char)
    else if exists i | 1 <= i < n :: !IsContinuation(bs[i]) then None
    else
      var cp :=
        if n == 2 then (bs[0] as int - 0xC0) * 0x40 + (bs[1] as int - 0x80)
        else if n == 3 then (bs[0] as int - 0xE0) * 0x1000 + (bs[1] as int - 0x80) * 0x40 + (bs[2] as int - 0x80)
        else (bs[0] as int - 0xF0) * 0x40000 + (bs[1] as int - 0x80) * 0x1000
               + (bs[2] as int - 0x80) * 0x40 + (bs[3] as int - 0x80);
      var least := if n == 2 then 0x80 else if n == 3 then 0x800 else 0x10000;
      if least <= cp && IsScalarValue(cp) then Some(cp as char) else None
  }

  lemma {:induction false} Utf8RoundTrip(c: char)
    ensures Utf8Length(Utf8(c)[0]) == |Utf8(c)|
    ensures DecodeUtf8(Utf8(c)) == Some(c)
  {
    var cp := c as int;
    var bs := Utf8(c);
    if cp < 0x80 {
    } else if cp < 0x800 {
      assert (cp / 0x40) * 0x40 + cp % 0x40 == cp;
    } else if cp < 0x10000 {
      var q := cp / 0x40;
      assert q * 0x40 + cp % 0x40 == cp;
      assert (q / 0x40) * 0x40 + q % 0x40 == q;
      assert cp / 0x1000 == q / 0x40;
    } else {
      var q := cp / 0x40;
      var q2 := q / 0x40;
      assert q * 0x40 + cp % 0x40 == cp;
      assert q2 * 0x40 + q % 0x40 == q;
      assert (q2 / 0x40) * 0x40 + q2 % 0x40 == q2;
      assert cp / 0x1000 == q2;
      assert cp / 0x40000 == q2 / 0x40;
    }
  }

  /** The three characters `%XX` for one byte. */
  function EscapeByte(b: byte): (e: string)
    ensures |e| == 3 && e[0] == '%' && IsUpperHex(e[1]) && IsUpperHex(e[2])
  {
    ['%', HexDigit(b as int / 16), HexDigit(b as int % 16)]
  }

  function EscapeBytes(bs: seq<byte>): (e: string)
    ensures |e| == 3 * |bs|
  {
    if bs == [] then [] else EscapeByte(bs[0]) + EscapeBytes(bs[1..])
  }

  /** The encoding of one character. */
  function EncodeChar(c: char): (e: string)
    ensures 1 <= |e|
  {
    if IsUnreserved(c) then [c] else EscapeBytes(Utf8(c))
  }

  /** `encodeURIComponent(s)`. */
  function Encode(s: string): (e: string)
    ensures |s| <= |e|
  {
    if s == [] then [] else EncodeChar(s[0]) + Encode(s[1..])
  }

  /** The value of the two hexadecimal digits `hi lo`. */
  function HexByte(hi: char, lo: char): (r: Option<byte>)
  {
    match (HexValue(hi), HexValue(lo))
    case (Some(h), Some(l)) => Some((h * 16 + l) as byte)
    case _ => None
  }

  /** Reads exactly `n` escapes `%XX` from the front of `s`. */
  function ParseEscapes(s: string, n: nat): (r: Option<seq<byte>>)
    ensures r.Some? ==> |r.value| == n && 3 * n <= |s|
  {
    if n == 0 then Some([])
    else if |s| < 3 || s[0] != '%' then None
    else match HexByte(s[1], s[2])
      case None => None
      case Some(b) =>
        match ParseEscapes(s[3..], n - 1)
        case None => None
        case Some(rest) => Some([b] + rest)
  }

  /** `decodeURIComponent(s)`, failing (`None`) where that throws. */
  function Decode(s: string): (r: Option<string>)
    decreases |s|
  {
    if s == [] then Some([])
    else if s[0] != '%' then
      match Decode(s[1..])
      case None => None
      case Some(t) => Some([s[0]] + t)
    else if |s| < 3 then None
    else match HexByte(s[1], s[2])
      case None => None
      case Some(b0) =>
        var n := Utf8Length(b0);
        if n == 0 then None
        else match ParseEscapes(s, n)
          case None => None
          case Some(bs) =>
            match DecodeUtf8(bs)
            case None => None
            case Some(c) =>
              match Decode(s[3 * n..])
              case None => None
              case Some(t) => Some([c] + t)
  }

  lemma {:induction false} ParseEscapesOf(bs: seq<byte>, rest: string)
    ensures ParseEscapes(EscapeBytes(bs) + rest, |bs|) == Some(bs)
  {
    if bs != [] {
      var b := bs[0];
      var s := EscapeBytes(bs) + rest;
      assert s == EscapeByte(b) + (EscapeBytes(bs[1..]) + rest);
      HexValueOfDigit(b as int / 16);
      HexValueOfDigit(b as int % 16);
      assert HexByte(s[1], s[2]) == Some(b);
      assert s[3..] == EscapeBytes(bs[1..]) + rest;
      ParseEscapesOf(bs[1..], rest);
      assert [b] + bs[1..] == bs;
    }
  }

  /** One step of `Decode` over an escaped character. */
  lemma DecodeEscapedStep(s: string, bs: seq<byte>, c: char)
    requires |s| >= 3 && s[0] == '%' && 1 <= |bs| <= 4
    requires HexByte(s[1], s[2]) == Some(bs[0]) && Utf8Length(bs[0]) == |bs|
    requires ParseEscapes(s, |bs|) == Some(bs) && DecodeUtf8(bs) == Some(c)
    ensures Decode(s) ==
      match Decode(s[3 * |bs|..]) case None => None case Some(t) => Some([c] + t)
  {
  }

  lemma HexByteOfEscape(b: byte)
    ensures HexByte(EscapeByte(b)[1], EscapeByte(b)[2]) == Some(b)
  {
    HexValueOfDigit(b as int / 16);
    HexValueOfDigit(b as int % 16);
  }

  /** The front of a run of escapes carries its first byte. */
  lemma EscapeBytesFront(bs: seq<byte>, rest: string)
    requires bs != []
    ensures var s := EscapeBytes(bs) + rest;
      && |s| >= 3 && s[0] == '%' && HexByte(s[1], s[2]) == Some(bs[0])
      && s[3 * |bs|..] == rest
  {
    var e := EscapeByte(bs[0]);
    var all := EscapeBytes(bs);
    var s := all + rest;
    assert all == e + EscapeBytes(bs[1..]);
    assert s[0] == e[0] && s[1] == e[1] && s[2] == e[2];
    HexByteOfEscape(bs[0]);
    assert s[|all|..] == rest;
  }

  /** Decoding reads an escaped character back off the front. */
  lemma DecodeEscapedChar(c: char, rest: string)
    ensures Decode(EscapeBytes(Utf8(c)) + rest) ==
      match Decode(rest) case None => None case Some(t) => Some([c] + t)
  {
    var bs := Utf8(c);
    EscapeBytesFront(bs, rest);
    Utf8RoundTrip(c);
    ParseEscapesOf(bs, rest);
    DecodeEscapedStep(EscapeBytes(bs) + rest, bs, c);
  }

  /** Decoding reads one encoded character back off the front. */
  lemma DecodeEncodeChar(c: char, rest: string)
    ensures Decode(EncodeChar(c) + rest) ==
      match Decode(rest) case None => None case Some(t) => Some([c] + t)
  {
    if IsUnreserved(c) {
      var s := [c] + rest;
      assert s[0] == c && s[1..] == rest;
    } else {
      DecodeEscapedChar(c, rest);
    }
  }

  /** Round trip: `decodeURIComponent(encodeURIComponent(s)) == s`. */
  lemma {:induction false} DecodeEncode(s: string)
    ensures Decode(Encode(s)) == Some(s)
  {
    if s != [] {
      DecodeEncode(s[1..]);
      DecodeEncodeChar(s[0], Encode(s[1..]));
      assert [s[0]] + s[1..] == s;
    }
  }

  /** Different strings have different encodings. */
  lemma EncodeInjective(s: string, t: string)
    requires Encode(s) == Encode(t)
    ensures s == t
  {
    DecodeEncode(s);
    DecodeEncode(t);
  }

  /** Every character of an encoding is unreserved or `%`. */
  ghost predicate EncodedAlphabet(e: string) {
    forall i :: 0 <= i < |e| ==> IsUnreserved(e[i]) || e[i] == '%'
  }

  lemma {:induction false} EscapeBytesAlphabet(bs: seq<byte>)
    ensures EncodedAlphabet(EscapeBytes(bs))
  {
    if bs != [] {
      EscapeBytesAlphabet(bs[1..]);
    }
  }

  lemma {:induction false} EncodeAlphabet(s: string)
    ensures EncodedAlphabet(Encode(s))
  {
    if s != [] {
      if !IsUnreserved(s[0]) {
        EscapeBytesAlphabet(Utf8(s[0]));
      }
      EncodeAlphabet(s[1..]);
    }
  }

  /** No separator the signer or the header uses can appear inside an
      encoded field: not `&`, `=`, `"`, `,`, space, `?` nor `#`. */
  lemma EncodeHasNoSeparators(s: string)
    ensures '&' !in Encode(s) && '=' !in Encode(s) && '"' !in Encode(s) && ',' !in Encode(s)
    ensures ' ' !in Encode(s) && '?' !in Encode(s) && '#' !in Encode(s)
  {
    var e := Encode(s);
    EncodeAlphabet(s);
    forall i | 0 <= i < |e| ensures !IsSeparator(e[i]) {
      UnreservedIsNoSeparator(e[i]);
    }
  }

  predicate IsSeparator(c: char) {
    c == '&' || c == '=' || c == '"' || c == ',' || c == ' ' || c == '?' || c == '#'
  }

  lemma UnreservedIsNoSeparator(c: char)
    requires IsUnreserved(c) || c == '%'
    ensures !IsSeparator(c)
  {
  }

  /** Encoding leaves a string unchanged exactly when every character is
      unreserved. */
  lemma {:induction false} EncodeIdentity(s: string)
    ensures Encode(s) == s <==> forall i :: 0 <= i < |s| ==> IsUnreserved(s[i])
  {
    if s != [] {
      EncodeIdentity(s[1..]);
      if !IsUnreserved(s[0]) {
        var e := EscapeBytes(Utf8(s[0]));
        assert Encode(s)[0] == '%' by {
          assert e[0] == '%';
        }
        if s[0] == '%' {
          // '%' itself is escaped as "%25", one character longer.
          assert |Encode(s)| >= |e| + |s| - 1 > |s|;
        }
      } else {
        assert Encode(s) == [s[0]] + Encode(s[1..]);
        if Encode(s) == s {
          assert Encode(s[1..]) == s[1..];
        }
        if Encode(s[1..]) == s[1..] {
          assert [s[0]] + s[1..] == s;
        }
      }
    }
  }

  /** An ASCII character outside the unreserved set becomes one escape,
      the code of the character in two upper-case hexadecimal digits. */
  lemma EncodeAsciiReserved(c: char)
    requires c as int < 0x80 && !IsUnreserved(c)
    ensures EncodeChar(c) == ['%', HexDigit(c as int / 16), HexDigit(c as int % 16)]
  {
  }
}
