/** Bytes and the UTF-8 code (`str.encode('utf-8')` and the strict
    `bytes.decode('utf-8')`), as fixed by the well-formed byte sequences
    table of the Unicode Standard (Table 3-7) that Python's codec follows. */
module Utf8 {

  import opened Wrappers

  type byte = b: int | 0 <= b < 256

  /** A continuation byte 10xxxxxx */
  predicate IsCont(b: byte) {
    0x80 <= b < 0xC0
  }

  /** The bytes of one character */
  function EncodeChar(c: char): (b: seq<byte>)
    ensures 1 <= |b| <= 4
    ensures (|b| == 1) == (c as int < 0x80)
  {
    var n := c as int;
    if n < 0x80 then [n]
    else if n < 0x800 then [0xC0 + n / 64, 0x80 + n % 64]
    else if n < 0x1_0000 then [0xE0 + n / 4096, 0x80 + (n / 64) % 64, 0x80 + n % 64]
    else [0xF0 + n / 262144, 0x80 + (n / 4096) % 64, 0x80 + (n / 64) % 64, 0x80 + n % 64]
  }

  /** `s.encode('utf-8')` */
  function Encode(s: string): (b: seq<byte>)
    ensures |b| >= |s|
  {
    if |s| == 0 then [] else EncodeChar(s[0]) + Encode(s[1..])
  }

  /** Valid second bytes of a three-byte sequence led by `b0`: no overlong
      forms after 0xE0 and no surrogates after 0xED */
  predicate SecondOfThree(b0: byte, b1: byte) {
    if b0 == 0xE0 then 0xA0 <= b1 <= 0xBF
    else if b0 == 0xED then 0x80 <= b1 <= 0x9F
    else IsCont(b1)
  }

  /** Valid second bytes of a four-byte sequence led by `b0`: no overlong
      forms after 0xF0 and nothing above U+10FFFF after 0xF4 */
  predicate SecondOfFour(b0: byte, b1: byte) {
    if b0 == 0xF0 then 0x90 <= b1 <= 0xBF
    else if b0 == 0xF4 then 0x80 <= b1 <= 0x8F
    else IsCont(b1)
  }

  /** The character that a well-formed sequence at the start of `b` encodes,
      with the number of bytes it takes; None when `b` does not start with a
      well-formed sequence. */
  function DecodeChar(b: seq<byte>): (r: Option<(char, nat)>)
    requires |b| > 0
    ensures r.Some? ==> 1 <= r.value.1 <= |b|
  {
    var b0: int := b[0];
    if b0 < 0x80 then
      Some((b0 as char, 1))
    else if 0xC2 <= b0 <= 0xDF then
      if |b| >= 2 && IsCont(b[1]) then
        Some((((b0 - 0xC0) * 64 + (b[1] as int - 0x80)) as char, 2))
      else None
    else if 0xE0 <= b0 <= 0xEF then
      if |b| >= 3 && SecondOfThree(b0, b[1]) && IsCont(b[2]) then
        Some((((b0 - 0xE0) * 4096 + (b[1] as int - 0x80) * 64 + (b[2] as int - 0x80)) as char, 3))
      else None
    else if 0xF0 <= b0 <= 0xF4 then
      if |b| >= 4 && SecondOfFour(b0, b[1]) && IsCont(b[2]) && IsCont(b[3]) then
        Some((((b0 - 0xF0) * 262144 + (b[1] as int - 0x80) * 4096 + (b[2] as int - 0x80) * 64 + (b[3] as int - 0x80)) as char, 4))
      else None
    else None
  }

  /** `b.decode('utf-8')`: None where Python raises UnicodeDecodeError.
      Whatever it accepts is the encoding of what it returns, so with
      `DecodeEncode` UTF-8 is a bijection here. */
  function Decode(b: seq<byte>): (r: Option<string>)
    ensures r.Some? ==> Encode(r.value) == b
    decreases |b|
  {
    if |b| == 0 then Some("")
    else
      match DecodeChar(b)
      case None => None
      case Some((c, k)) =>
        match Decode(b[k..])
        case None => None
        case Some(s) =>
          EncodeDecodeChar(b);
          assert ([c] + s)[1..] == s;
          assert b == b[..k] + b[k..];
          Some([c] + s)
  }

  lemma DivMod64(n: int)
    requires n >= 0
    ensures (n / 64) / 64 == n / 4096
    ensures ((n / 64) / 64) / 64 == n / 262144
    ensures (n / 4096) % 64 * 64 + (n / 64) % 64 == (n / 64) - (n / 262144) * 4096
  {
    var q := n / 64;
    assert n == 64 * q + n % 64;
    var q2 := q / 64;
    assert q == 64 * q2 + q % 64;
    assert n == 4096 * q2 + 64 * (q % 64) + n % 64;
    assert n / 4096 == q2;
    var q3 := q2 / 64;
    assert q2 == 64 * q3 + q2 % 64;
    assert n == 262144 * q3 + 4096 * (q2 % 64) + 64 * (q % 64) + n % 64;
    assert n / 262144 == q3;
  }

  /** Decoding undoes the encoding of one character, whatever follows it. */
  lemma DecodeEncodeChar(c: char, rest: seq<byte>)
    ensures DecodeChar(EncodeChar(c) + rest) == Some((c, |EncodeChar(c)|))
  {
    var n := c as int;
    if n < 0x80 {
    } else if n < 0x800 {
      DecodeEncodeTwo(c, rest);
    } else if n < 0x1_0000 {
      DecodeEncodeThree(c, rest);
    } else {
      DecodeEncodeFour(c, rest);
    }
  }

  lemma DecodeEncodeTwo(c: char, rest: seq<byte>)
    requires 0x80 <= c as int < 0x800
    ensures DecodeChar(EncodeChar(c) + rest) == Some((c, 2))
  {
    var n := c as int;
    var b := EncodeChar(c) + rest;
    assert b[0] == 0xC0 + n / 64 && b[1] == 0x80 + n % 64;
    assert (n / 64) * 64 + n % 64 == n;
  }

  lemma DecodeEncodeThree(c: char, rest: seq<byte>)
    requires 0x800 <= c as int < 0x1_0000
    ensures DecodeChar(EncodeChar(c) + rest) == Some((c, 3))
  {
    var n := c as int;
    var b := EncodeChar(c) + rest;
    assert b[0] == 0xE0 + n / 4096 && b[1] == 0x80 + (n / 64) % 64 && b[2] == 0x80 + n % 64;
    DivMod64(n);
    assert (n / 4096) * 4096 + ((n / 64) % 64) * 64 + n % 64 == n;
  }

  lemma DecodeEncodeFour(c: char, rest: seq<byte>)
    requires 0x1_0000 <= c as int
    ensures DecodeChar(EncodeChar(c) + rest) == Some((c, 4))
  {
    var n := c as int;
    var b := EncodeChar(c) + rest;
    assert b[0] == 0xF0 + n / 262144 && b[1] == 0x80 + (n / 4096) % 64;
    assert b[2] == 0x80 + (n / 64) % 64 && b[3] == 0x80 + n % 64;
    DivMod64(n);
    assert (n / 262144) * 262144 + ((n / 4096) % 64) * 4096 + ((n / 64) % 64) * 64 + n % 64 == n;
  }

  /** The strict decoder accepts exactly the encodings: the sequence it
      decodes at the head of `b` is the encoding of the character it returns. */
  lemma EncodeDecodeChar(b: seq<byte>)
    requires |b| > 0 && DecodeChar(b).Some?
    ensures EncodeChar(DecodeChar(b).value.0) == b[..DecodeChar(b).value.1]
  {
    var b0: int := b[0];
    if b0 < 0x80 {
    } else if b0 <= 0xDF {
      EncodeDecodeTwo(b);
    } else if b0 <= 0xEF {
      EncodeDecodeThree(b);
    } else {
      EncodeDecodeFour(b);
    }
  }

  lemma EncodeDecodeTwo(b: seq<byte>)
    requires |b| > 0 && 0x80 <= b[0] <= 0xDF && DecodeChar(b).Some?
    ensures EncodeChar(DecodeChar(b).value.0) == b[..DecodeChar(b).value.1]
  {
    var b0: int := b[0];
    var n := (b0 - 0xC0) * 64 + (b[1] as int - 0x80);
    assert DecodeChar(b).value == (n as char, 2);
    assert n / 64 == b0 - 0xC0 && n % 64 == b[1] as int - 0x80;
  }

  lemma EncodeDecodeThree(b: seq<byte>)
    requires |b| > 0 && 0xE0 <= b[0] <= 0xEF && DecodeChar(b).Some?
    ensures EncodeChar(DecodeChar(b).value.0) == b[..DecodeChar(b).value.1]
  {
    var b0: int := b[0];
    var n := (b0 - 0xE0) * 4096 + (b[1] as int - 0x80) * 64 + (b[2] as int - 0x80);
    assert DecodeChar(b).value == (n as char, 3);
    assert n / 64 == (b0 - 0xE0) * 64 + (b[1] as int - 0x80);
    assert n / 4096 == b0 - 0xE0;
  }

  lemma EncodeDecodeFour(b: seq<byte>)
    requires |b| > 0 && 0xF0 <= b[0] && DecodeChar(b).Some?
    ensures EncodeChar(DecodeChar(b).value.0) == b[..DecodeChar(b).value.1]
  {
    var b0: int := b[0];
    var n := (b0 - 0xF0) * 262144 + (b[1] as int - 0x80) * 4096 + (b[2] as int - 0x80) * 64 + (b[3] as int - 0x80);
    assert DecodeChar(b).value == (n as char, 4);
    assert n / 64 == (b0 - 0xF0) * 4096 + (b[1] as int - 0x80) * 64 + (b[2] as int - 0x80);
    assert n / 4096 == (b0 - 0xF0) * 64 + (b[1] as int - 0x80);
    assert n / 262144 == b0 - 0xF0;
  }

  /** Round trip: decoding the UTF-8 encoding of any string gives it back. */
  lemma {:induction false} DecodeEncode(s: string)
    ensures Decode(Encode(s)) == Some(s)
  {
    if |s| > 0 {
      var e := EncodeChar(s[0]);
      DecodeEncodeChar(s[0], Encode(s[1..]));
      assert (e + Encode(s[1..]))[|e|..] == Encode(s[1..]);
      DecodeEncode(s[1..]);
      assert [s[0]] + s[1..] == s;
    }
  }

  /** ASCII text encodes byte for byte. */
  lemma {:induction false} EncodeAscii(s: string)
    requires forall i :: 0 <= i < |s| ==> s[i] as int < 128
    ensures |Encode(s)| == |s|
    ensures forall i :: 0 <= i < |s| ==> Encode(s)[i] == s[i] as int
  {
    if |s| > 0 {
      EncodeAscii(s[1..]);
    }
  }
}
