/** Base16 (section 8 of RFC 4648) as Go's `encoding/hex` implements it.
    A shard key is the Base16 text of the data root; `list` turns the keys
    back into roots with `hex.DecodeString`, which decodes the key's UTF-8
    bytes (section 3 of RFC 3629), accepts both letter cases and reports the
    first offending byte, or a missing last digit. */
module Hex {
  import opened Common

  predicate IsHexDigit(c: char) {
    ('0' <= c <= '9') || ('a' <= c <= 'f') || ('A' <= c <= 'F')
  }

  function DigitValue(c: char): (v: int)
    requires IsHexDigit(c)
    ensures 0 <= v < 16
  {
    if '0' <= c <= '9' then c as int - '0' as int
    else if 'a' <= c <= 'f' then c as int - 'a' as int + 10
    else c as int - 'A' as int + 10
  }

  /** The upper-case digit for a nibble, as `%X` prints it. */
  function HexDigit(d: int): (c: char)
    requires 0 <= d < 16
    ensures IsHexDigit(c) && DigitValue(c) == d
  {
    if d < 10 then ('0' as int + d) as char else ('A' as int + d - 10) as char
  }

  /** Two digits per byte, high nibble first. */
  function HexEncode(b: seq<byte>): (s: string)
    ensures |s| == 2 * |b|
    ensures forall i :: 0 <= i < |s| ==> IsHexDigit(s[i])
  {
    if b == [] then "" else [HexDigit(b[0] / 16), HexDigit(b[0] % 16)] + HexEncode(b[1..])
  }

  /** Go's conversion `[]byte(s)` of one character: its UTF-8 encoding. */
  function Utf8Char(c: char): (b: seq<byte>)
    ensures 1 <= |b| <= 4
    ensures |b| == 1 <==> c as int < 0x80
    ensures |b| == 1 ==> b[0] == c as int
    ensures |b| > 1 ==> b[0] >= 0xC0
  {
    var n := c as int;
    if n < 0x80 then [n]
    else if n < 0x800 then [0xC0 + n / 0x40, 0x80 + n % 0x40]
    else if n < 0x1_0000 then [0xE0 + n / 0x1000, 0x80 + n / 0x40 % 0x40, 0x80 + n % 0x40]
    else [0xF0 + n / 0x4_0000, 0x80 + n / 0x1000 % 0x40, 0x80 + n / 0x40 % 0x40, 0x80 + n % 0x40]
  }

  /** Go's conversion `[]byte(s)`: the characters' encodings, in order. */
  function Utf8(s: string): (b: seq<byte>)
    ensures |s| <= |b| <= 4 * |s|
  {
    if s == [] then [] else Utf8Char(s[0]) + Utf8(s[1..])
  }

  lemma {:induction false} Utf8Append(a: string, b: string)
    ensures Utf8(a + b) == Utf8(a) + Utf8(b)
  {
    if a == [] {
      assert a + b == b;
    } else {
      assert (a + b)[0] == a[0] && (a + b)[1..] == a[1..] + b;
      Utf8Append(a[1..], b);
    }
  }

  /** ASCII text converts byte for byte. */
  lemma {:induction false} Utf8Ascii(s: string)
    requires forall i :: 0 <= i < |s| ==> s[i] as int < 0x80
    ensures |Utf8(s)| == |s|
    ensures forall i :: 0 <= i < |s| ==> Utf8(s)[i] == s[i] as int
  {
    if s != [] {
      Utf8Ascii(s[1..]);
      assert forall i :: 1 <= i < |s| ==> s[i] == s[1..][i - 1];
    }
  }

  predicate IsHexByte(x: byte) {
    ('0' as int <= x <= '9' as int) || ('a' as int <= x <= 'f' as int) || ('A' as int <= x <= 'F' as int)
  }

  function ByteValue(x: byte): (v: int)
    requires IsHexByte(x)
    ensures 0 <= v < 16
  {
    if '0' as int <= x <= '9' as int then x - '0' as int
    else if 'a' as int <= x <= 'f' as int then x - 'a' as int + 10
    else x - 'A' as int + 10
  }

  /** A character is a digit exactly when the first byte of its encoding is
      one; the digits are ASCII, so that byte is all of it. */
  lemma DigitByte(c: char)
    ensures IsHexDigit(c) <==> IsHexByte(Utf8Char(c)[0])
    ensures IsHexDigit(c) ==> Utf8Char(c) == [c as int] && ByteValue(c as int) == DigitValue(c)
  {
  }

  /** A text is all digits exactly when its bytes are. */
  lemma {:induction false} Utf8Digits(s: string)
    ensures (forall i :: 0 <= i < |s| ==> IsHexDigit(s[i])) <==>
            (forall j :: 0 <= j < |Utf8(s)| ==> IsHexByte(Utf8(s)[j]))
  {
    if s != [] {
      var c, rest := Utf8Char(s[0]), Utf8(s[1..]);
      Utf8Digits(s[1..]);
      DigitByte(s[0]);
      var u := Utf8(s);
      assert u == c + rest;
      assert forall i :: 1 <= i < |s| ==> s[i] == s[1..][i - 1];
      assert forall j :: 0 <= j < |rest| ==> rest[j] == u[|c| + j];
      if forall i :: 0 <= i < |s| ==> IsHexDigit(s[i]) {
        assert IsHexDigit(s[0]) && c == [s[0] as int];
        assert forall j :: 0 <= j < |u| ==> IsHexByte(u[j]) by {
          forall j | 0 <= j < |u| ensures IsHexByte(u[j]) {
            if j > 0 { assert u[j] == rest[j - 1]; }
          }
        }
      }
      if forall j :: 0 <= j < |u| ==> IsHexByte(u[j]) {
        assert IsHexByte(c[0]) by { assert u[0] == c[0]; }
        forall j | 0 <= j < |rest| ensures IsHexByte(rest[j]) { assert rest[j] == u[|c| + j]; }
        forall i | 0 <= i < |s| ensures IsHexDigit(s[i]) {
          if i > 0 { assert s[i] == s[1..][i - 1]; }
        }
      }
    }
  }

  /** `hex.Decode`: pairs of bytes left to right; the first byte of a pair
      that is not a digit is reported before the second, and an odd
      trailing digit is `ErrLength`. */
  function Decode(src: seq<byte>): (r: Result<seq<byte>>)
    ensures r.Err? ==> r.error == ErrLength || r.error.InvalidByte?
    decreases |src|
  {
    if |src| == 0 then Ok([])
    else if !IsHexByte(src[0]) then Err(InvalidByte(src[0]))
    else if |src| == 1 then Err(ErrLength)
    else if !IsHexByte(src[1]) then Err(InvalidByte(src[1]))
    else
      match Decode(src[2..])
      case Ok(rest) => Ok([16 * ByteValue(src[0]) + ByteValue(src[1])] + rest)
      case Err(e) => Err(e)
  }

  /** Decoding succeeds iff the length is even and every byte is a digit,
      each decoded byte then being the value of its two digits; and
      `ErrLength` comes exactly for an odd number of digits. */
  lemma {:induction false} DecodeCases(src: seq<byte>)
    ensures Decode(src).Ok? <==> |src| % 2 == 0 && forall i :: 0 <= i < |src| ==> IsHexByte(src[i])
    ensures Decode(src).Ok? ==> |Decode(src).value| == |src| / 2
    ensures Decode(src).Ok? ==> forall i :: 0 <= i < |src| / 2 ==>
      Decode(src).value[i] == 16 * ByteValue(src[2 * i]) + ByteValue(src[2 * i + 1])
    ensures Decode(src) == Err(ErrLength) <==> |src| % 2 == 1 && forall i :: 0 <= i < |src| ==> IsHexByte(src[i])
    decreases |src|
  {
    if |src| >= 2 && IsHexByte(src[0]) && IsHexByte(src[1]) {
      var tail := src[2..];
      DecodeCases(tail);
      assert forall i :: 2 <= i < |src| ==> src[i] == tail[i - 2];
      if Decode(tail).Ok? {
        var r := Decode(src).value;
        assert r == [16 * ByteValue(src[0]) + ByteValue(src[1])] + Decode(tail).value;
        forall i | 1 <= i < |src| / 2
          ensures r[i] == 16 * ByteValue(src[2 * i]) + ByteValue(src[2 * i + 1])
        {
          assert r[i] == Decode(tail).value[i - 1];
          assert src[2 * i] == tail[2 * (i - 1)] && src[2 * i + 1] == tail[2 * (i - 1) + 1];
        }
      }
    }
  }

  /** The error names the first byte of `src` that is not a digit. */
  lemma {:induction false} DecodeReportsFirstInvalid(src: seq<byte>, i: nat)
    requires i < |src| && !IsHexByte(src[i])
    requires forall j :: 0 <= j < i ==> IsHexByte(src[j])
    ensures Decode(src) == Err(InvalidByte(src[i]))
    decreases |src|
  {
    if i >= 2 {
      assert forall j :: 0 <= j < i - 2 ==> src[2..][j] == src[j + 2];
      DecodeReportsFirstInvalid(src[2..], i - 2);
    }
  }

  /** `hex.DecodeString`: `hex.Decode` of the text's bytes. */
  function DecodeString(s: string): (r: Result<seq<byte>>)
    ensures r.Err? ==> r.error == ErrLength || r.error.InvalidByte?
  {
    Decode(Utf8(s))
  }

  /** On text: decoding succeeds iff the length is even and every character
      is a digit, each byte then being the value of its two digits; and
      `ErrLength` comes exactly for an odd number of digits. */
  lemma DecodeStringCases(s: string)
    ensures DecodeString(s).Ok? <==> |s| % 2 == 0 && forall i :: 0 <= i < |s| ==> IsHexDigit(s[i])
    ensures DecodeString(s).Ok? ==> |DecodeString(s).value| == |s| / 2
    ensures DecodeString(s).Ok? ==> forall i :: 0 <= i < |s| / 2 ==>
      DecodeString(s).value[i] == 16 * DigitValue(s[2 * i]) + DigitValue(s[2 * i + 1])
    ensures DecodeString(s) == Err(ErrLength) <==> |s| % 2 == 1 && forall i :: 0 <= i < |s| ==> IsHexDigit(s[i])
  {
    var u := Utf8(s);
    Utf8Digits(s);
    DecodeCases(u);
    if forall i :: 0 <= i < |s| ==> IsHexDigit(s[i]) {
      forall i | 0 <= i < |s|
        ensures s[i] as int < 0x80 && ByteValue(s[i] as int) == DigitValue(s[i])
      {
        DigitByte(s[i]);
      }
      Utf8Ascii(s);
    }
  }

  /** On text: the error names the first byte of the first character that is
      not a digit (every character before it is one byte), so a non-ASCII
      character is reported by its UTF-8 lead byte. */
  lemma DecodeStringReportsFirstInvalid(s: string, i: nat)
    requires i < |s| && !IsHexDigit(s[i])
    requires forall j :: 0 <= j < i ==> IsHexDigit(s[j])
    ensures DecodeString(s) == Err(InvalidByte(Utf8Char(s[i])[0]))
  {
    var pre, post := s[..i], s[i..];
    assert s == pre + post;
    Utf8Append(pre, post);
    forall j | 0 <= j < i ensures pre[j] as int < 0x80 { DigitByte(pre[j]); }
    Utf8Ascii(pre);
    Utf8Digits(pre);
    DigitByte(s[i]);
    var u := Utf8(s);
    assert u[i] == Utf8Char(s[i])[0];
    DecodeReportsFirstInvalid(u, i);
  }

  /** The key "0\u00e9" (a digit, then e with an acute accent) fails on the
      byte 0xC3 that starts the accented letter's encoding. */
  lemma NonAsciiKeyReportsLeadByte()
    ensures DecodeString(['0', 0xE9 as char]) == Err(InvalidByte(0xC3))
  {
    DecodeStringReportsFirstInvalid(['0', 0xE9 as char], 1);
  }

  /** The digit at each position of an encoding. */
  lemma {:induction false} HexEncodeAt(b: seq<byte>, i: nat)
    requires i < |b|
    ensures HexEncode(b)[2 * i] == HexDigit(b[i] / 16)
    ensures HexEncode(b)[2 * i + 1] == HexDigit(b[i] % 16)
  {
    if i > 0 {
      HexEncodeAt(b[1..], i - 1);
    }
  }

  /** Bytes that are the values of an encoding's digit pairs are the
      encoded bytes. */
  lemma {:induction false} DigitPairsOfEncoding(b: seq<byte>, v: seq<byte>)
    requires |v| == |b|
    requires forall i :: 0 <= i < |b| ==>
      v[i] == 16 * DigitValue(HexEncode(b)[2 * i]) + DigitValue(HexEncode(b)[2 * i + 1])
    ensures v == b
  {
    forall i | 0 <= i < |b| ensures v[i] == b[i] {
      HexEncodeAt(b, i);
    }
  }

  /** Decoding undoes encoding. */
  lemma DecodeEncode(b: seq<byte>)
    ensures DecodeString(HexEncode(b)) == Ok(b)
  {
    var s := HexEncode(b);
    var d := DecodeString(s);
    assert d.Ok? && |d.value| == |b| && forall i :: 0 <= i < |b| ==>
      d.value[i] == 16 * DigitValue(s[2 * i]) + DigitValue(s[2 * i + 1]) by {
      DecodeStringCases(s);
    }
    DigitPairsOfEncoding(b, d.value);
  }

  /** Different roots never share a key. */
  lemma EncodeInjective(a: seq<byte>, b: seq<byte>)
    requires HexEncode(a) == HexEncode(b)
    ensures a == b
  {
    DecodeEncode(a);
    DecodeEncode(b);
  }
}
