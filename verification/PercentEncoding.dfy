/** AWS percent-encoding of bytes and its inverse, decodeURIComponent. */
module PercentEncoding {
  import opened Wrappers

  type Byte = n: nat | n < 256
  type Bytes = seq<Byte>

  /** The unreserved characters of section 2.3 of RFC 3986. */
  predicate Unreserved(b: Byte) {
    var c := b as char;
    'A' <= c <= 'Z' || 'a' <= c <= 'z' || '0' <= c <= '9' || c == '-' || c == '.' || c == '_' || c == '~'
  }

  function HexDigit(d: nat): char
    requires d < 16
  {
    if d < 10 then (d + '0' as int) as char else (d - 10 + 'A' as int) as char
  }

  function HexValue(c: char): Option<nat> {
    if '0' <= c <= '9' then Some(c as int - '0' as int)
    else if 'A' <= c <= 'F' then Some(c as int - 'A' as int + 10)
    else if 'a' <= c <= 'f' then Some(c as int - 'a' as int + 10)
    else None
  }

  function EncodeByte(b: Byte): string {
    if Unreserved(b) then [b as char] else ['%', HexDigit(b / 16), HexDigit(b % 16)]
  }

  /** `awsPercentEncode` on the bytes of a string. */
  function Encode(bytes: Bytes): string {
    if bytes == [] then "" else EncodeByte(bytes[0]) + Encode(bytes[1..])
  }

  /** `decodeURIComponent` on ASCII text, as bytes; None where it throws for a malformed escape. */
  function Decode(s: string): Option<Bytes> {
    if s == "" then Some([])
    else if s[0] == '%' then
      if |s| < 3 || HexValue(s[1]).None? || HexValue(s[2]).None? then None
      else
        match Decode(s[3..])
        case None => None
        case Some(rest) => Some([16 * HexByte(s[1]) + HexByte(s[2])] + rest)
    else if s[0] as int >= 128 then None
    else
      match Decode(s[1..])
      case None => None
      case Some(rest) => Some([s[0] as int] + rest)
  }

  function HexByte(c: char): (d: nat)
    requires HexValue(c).Some?
    ensures d < 16
  {
    HexValue(c).value
  }

  lemma HexRoundTrip(d: nat)
    requires d < 16
    ensures HexValue(HexDigit(d)) == Some(d)
  {}

  lemma EncodeByteAlphabet(b: Byte, c: char)
    requires c in EncodeByte(b)
    ensures c == '%' || 'A' <= c <= 'Z' || 'a' <= c <= 'z' || '0' <= c <= '9' || c == '-' || c == '.' || c == '_' ||
            c == '~'
  {}

  lemma DecodeEncodedByte(b: Byte, rest: string)
    ensures Decode(EncodeByte(b) + rest) ==
            match Decode(rest) case None => None case Some(bytes) => Some([b] + bytes)
  {
    var s := EncodeByte(b) + rest;
    if Unreserved(b) {
      assert s[0] == b as char && s[1..] == rest;
    } else {
      HexRoundTrip(b / 16);
      HexRoundTrip(b % 16);
      assert s[0] == '%' && s[1] == HexDigit(b / 16) && s[2] == HexDigit(b % 16) && s[3..] == rest;
    }
  }

  /** Decoding gives back exactly the bytes that were encoded. */
  lemma {:induction false} DecodeEncode(bytes: Bytes)
    ensures Decode(Encode(bytes)) == Some(bytes)
  {
    if bytes == [] {
    } else {
      DecodeEncode(bytes[1..]);
      DecodeEncodedByte(bytes[0], Encode(bytes[1..]));
      assert bytes == [bytes[0]] + bytes[1..];
    }
  }

  /** The encoding never produces a separator of the canonical request. */
  lemma {:induction false} EncodeAlphabet(bytes: Bytes)
    ensures '/' !in Encode(bytes) && '&' !in Encode(bytes) && '=' !in Encode(bytes) && '\n' !in Encode(bytes)
  {
    if bytes == [] {
    } else {
      EncodeAlphabet(bytes[1..]);
      forall c | c in EncodeByte(bytes[0]) ensures c != '/' && c != '&' && c != '=' && c != '\n' {
        EncodeByteAlphabet(bytes[0], c);
      }
    }
  }

  lemma EncodeInjective(a: Bytes, b: Bytes)
    requires Encode(a) == Encode(b)
    ensures a == b
  {
    DecodeEncode(a);
    DecodeEncode(b);
  }

  // ---------- the two functions, character by character ----------

  /** A letter, a digit or one of `-._~` is kept; any other byte is a percent sign and two upper-case digits. */
  lemma EncodeOne(b: Byte)
    ensures var c := b as char;
            var kept := || 'A' <= c <= 'Z' || 'a' <= c <= 'z' || '0' <= c <= '9'
                        || c == '-' || c == '.' || c == '_' || c == '~';
            Encode([b]) == if kept then [c] else ['%', "0123456789ABCDEF"[b / 16], "0123456789ABCDEF"[b % 16]]
  {
    assert [b][1..] == [];
    assert Encode([b]) == EncodeByte(b) + Encode([]);
  }

  lemma {:induction false} EncodeConcat(a: Bytes, b: Bytes)
    ensures Encode(a + b) == Encode(a) + Encode(b)
  {
    if a == [] {
      assert a + b == b;
    } else {
      assert (a + b)[1..] == a[1..] + b;
      EncodeConcat(a[1..], b);
    }
  }

  predicate Hexadecimal(c: char, d: nat)
    requires d < 16
  {
    c == "0123456789ABCDEF"[d] || c == "0123456789abcdef"[d]
  }

  lemma HexadecimalIs(c: char, d: nat)
    requires d < 16
    ensures Hexadecimal(c, d) <==> HexValue(c) == Some(d)
  {
    if HexValue(c) == Some(d) {
      assert HexDigit(d) == "0123456789ABCDEF"[d];
    }
  }

  /** An escape, in either case of letters, is one byte. */
  lemma DecodeEscape(s: string, high: nat, low: nat)
    requires |s| >= 3 && s[0] == '%' && high < 16 && low < 16 && Hexadecimal(s[1], high) && Hexadecimal(s[2], low)
    ensures Decode(s).Some? <==> Decode(s[3..]).Some?
    ensures Decode(s).Some? ==> Decode(s).value == [16 * high + low] + Decode(s[3..]).value
  {
    HexadecimalIs(s[1], high);
    HexadecimalIs(s[2], low);
  }

  /** An escape cut short, or with a character that is no digit, is malformed. */
  lemma DecodeMalformed(s: string, k: nat)
    requires s != "" && s[0] == '%' && 1 <= k <= 2
    requires k < |s| ==> forall d: nat :: d < 16 ==> !Hexadecimal(s[k], d)
    ensures Decode(s).None?
  {
    if k < |s| && HexValue(s[k]).Some? {
      HexadecimalIs(s[k], HexByte(s[k]));
    }
  }

  /** Any other ASCII character is itself. */
  lemma DecodePlain(s: string)
    requires s != "" && s[0] != '%'
    ensures Decode(s).Some? <==> s[0] as int < 128 && Decode(s[1..]).Some?
    ensures Decode(s).Some? ==> Decode(s).value == [s[0] as int] + Decode(s[1..]).value
  {}
}
