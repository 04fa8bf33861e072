/** Base 64 as `base64.b64decode(s, validate=True)` decodes it: the alphabet
    of section 4 of RFC 4648, in the strict mode of Python 3.11 and later.
    Strict mode refuses every character outside the alphabet, a `=` that does
    not close the final quantum, a final quantum of fewer than four
    characters and anything after the padding. Like Python (and as section
    3.5 of RFC 4648 permits), it does not check that the bits the padding
    discards are zero. */
module Base64 {

  import opened Wrappers
  import opened Utf8

  /** A character of the base 64 alphabet (Table 1 of RFC 4648) */
  predicate IsAlphabet(c: char) {
    ('A' <= c <= 'Z') || ('a' <= c <= 'z') || ('0' <= c <= '9') || c == '+' || c == '/'
  }

  /** The 6-bit value of an alphabet character */
  function SextetOf(c: char): (v: int)
    requires IsAlphabet(c)
    ensures 0 <= v < 64
  {
    if 'A' <= c <= 'Z' then c as int - 'A' as int
    else if 'a' <= c <= 'z' then c as int - 'a' as int + 26
    else if '0' <= c <= '9' then c as int - '0' as int + 52
    else if c == '+' then 62
    else 63
  }

  /** The alphabet character of a 6-bit value */
  function CharOf(v: int): (c: char)
    requires 0 <= v < 64
    ensures IsAlphabet(c) && SextetOf(c) == v
  {
    if v < 26 then ('A' as int + v) as char
    else if v < 52 then ('a' as int + v - 26) as char
    else if v < 62 then ('0' as int + v - 52) as char
    else if v == 62 then '+'
    else '/'
  }

  predicate AllAlphabet(s: string) {
    forall i :: 0 <= i < |s| ==> IsAlphabet(s[i])
  }

  /** What strict mode accepts: whole quanta of four characters, alphabet
      characters only, except that the last quantum may end in `=` or `==`. */
  predicate IsStrictBase64(s: string) {
    && |s| % 4 == 0
    && (forall i :: 0 <= i < |s| - 2 ==> IsAlphabet(s[i]))
    && (|s| >= 4 ==>
          || (IsAlphabet(s[|s| - 2]) && IsAlphabet(s[|s| - 1]))
          || (IsAlphabet(s[|s| - 2]) && s[|s| - 1] == '=')
          || (s[|s| - 2] == '=' && s[|s| - 1] == '='))
  }

  /** The bytes of one final or inner quantum */
  function DecodeQuantum(q: string): (b: seq<byte>)
    requires |q| == 4 && IsAlphabet(q[0]) && IsAlphabet(q[1])
    requires q[3] != '=' ==> IsAlphabet(q[2]) && IsAlphabet(q[3])
    requires q[3] == '=' && q[2] != '=' ==> IsAlphabet(q[2])
    ensures |b| == (if q[2] == '=' && q[3] == '=' then 1 else if q[3] == '=' then 2 else 3)
  {
    var a := SextetOf(q[0]);
    var b := SextetOf(q[1]);
    var first := a * 4 + b / 16;
    if q[3] == '=' && q[2] == '=' then [first]
    else
      var c := SextetOf(q[2]);
      var second := (b % 16) * 16 + c / 4;
      if q[3] == '=' then [first, second]
      else [first, second, (c % 4) * 64 + SextetOf(q[3])]
  }

  function DecodeQuanta(s: string): seq<byte>
    requires IsStrictBase64(s)
    decreases |s|
  {
    if |s| == 0 then []
    else
      assert IsStrictBase64(s[4..]) by {
        if |s| >= 8 { assert s[4..][|s| - 6] == s[|s| - 2]; }
      }
      DecodeQuantum(s[..4]) + DecodeQuanta(s[4..])
  }

  /** `base64.b64decode(s, validate=True)`: None where it raises binascii.Error */
  function Decode(s: string): (r: Option<seq<byte>>)
    ensures r.Some? <==> IsStrictBase64(s)
  {
    if IsStrictBase64(s) then Some(DecodeQuanta(s)) else None
  }

  /** The four characters that encode one to three bytes, padded with `=` */
  function EncodeQuantum(b: seq<byte>): (q: string)
    requires 1 <= |b| <= 3
    ensures |q| == 4 && IsAlphabet(q[0]) && IsAlphabet(q[1])
    ensures (q[2] == '=') == (|b| == 1) && (q[3] == '=') == (|b| < 3)
    ensures q[2] != '=' ==> IsAlphabet(q[2])
    ensures q[3] != '=' ==> IsAlphabet(q[3])
  {
    var x: int := b[0];
    if |b| == 1 then
      [CharOf(x / 4), CharOf((x % 4) * 16), '=', '=']
    else
      var y: int := b[1];
      if |b| == 2 then
        [CharOf(x / 4), CharOf((x % 4) * 16 + y / 16), CharOf((y % 16) * 4), '=']
      else
        var z: int := b[2];
        [CharOf(x / 4), CharOf((x % 4) * 16 + y / 16), CharOf((y % 16) * 4 + z / 64), CharOf(z % 64)]
  }

  /** The number of quanta that encode `n` bytes */
  function Quanta(n: nat): nat {
    if n == 0 then 0 else if n <= 3 then 1 else 1 + Quanta(n - 3)
  }

  /** One quantum per started group of three bytes */
  lemma {:induction false} QuantaRoundsUp(n: nat)
    ensures Quanta(n) == (n + 2) / 3
  {
    if n > 3 {
      QuantaRoundsUp(n - 3);
      assert (n + 2) / 3 == (n - 3 + 2) / 3 + 1;
    }
  }

  /** The canonical encoding of section 4 of RFC 4648, with padding */
  function Encode(b: seq<byte>): (s: string)
    ensures |s| == 4 * Quanta(|b|)
    decreases |b|
  {
    if |b| == 0 then ""
    else if |b| <= 3 then EncodeQuantum(b)
    else EncodeQuantum(b[..3]) + Encode(b[3..])
  }

  /** Four characters for every started group of three bytes */
  lemma EncodedLength(b: seq<byte>)
    ensures |Encode(b)| == (|b| + 2) / 3 * 4
  {
    QuantaRoundsUp(|b|);
  }

  lemma QuantumRoundTrip(b: seq<byte>)
    requires 1 <= |b| <= 3
    ensures DecodeQuantum(EncodeQuantum(b)) == b
  {
    if |b| == 1 {
      OneByteRoundTrip(b);
    } else if |b| == 2 {
      TwoByteRoundTrip(b);
    } else {
      ThreeByteRoundTrip(b);
    }
  }

  lemma OneByteRoundTrip(b: seq<byte>)
    requires |b| == 1
    ensures DecodeQuantum(EncodeQuantum(b)) == b
  {
    var x: int := b[0];
    var q := EncodeQuantum(b);
    assert q == [CharOf(x / 4), CharOf((x % 4) * 16), '=', '='];
    OneByteSextets(x);
    assert DecodeQuantum(q) == [(x / 4) * 4 + ((x % 4) * 16) / 16];
  }

  lemma TwoByteRoundTrip(b: seq<byte>)
    requires |b| == 2
    ensures DecodeQuantum(EncodeQuantum(b)) == b
  {
    var x: int := b[0];
    var y: int := b[1];
    var q := EncodeQuantum(b);
    assert q == [CharOf(x / 4), CharOf((x % 4) * 16 + y / 16), CharOf((y % 16) * 4), '='];
    TwoByteSextets(x, y);
    assert DecodeQuantum(q) == [(x / 4) * 4 + ((x % 4) * 16 + y / 16) / 16,
                                (((x % 4) * 16 + y / 16) % 16) * 16 + ((y % 16) * 4) / 4];
  }

  lemma ThreeByteRoundTrip(b: seq<byte>)
    requires |b| == 3
    ensures DecodeQuantum(EncodeQuantum(b)) == b
  {
    var x: int := b[0];
    var y: int := b[1];
    var z: int := b[2];
    var q := EncodeQuantum(b);
    assert q == [CharOf(x / 4), CharOf((x % 4) * 16 + y / 16), CharOf((y % 16) * 4 + z / 64), CharOf(z % 64)];
    ThreeByteSextets(x, y, z);
    assert DecodeQuantum(q) == [(x / 4) * 4 + ((x % 4) * 16 + y / 16) / 16,
                                (((x % 4) * 16 + y / 16) % 16) * 16 + ((y % 16) * 4 + z / 64) / 4,
                                (((y % 16) * 4 + z / 64) % 4) * 64 + z % 64];
  }

  lemma OneByteSextets(x: int)
    requires 0 <= x < 256
    ensures (x / 4) * 4 + ((x % 4) * 16) / 16 == x
  {
  }

  lemma TwoByteSextets(x: int, y: int)
    requires 0 <= x < 256 && 0 <= y < 256
    ensures (x / 4) * 4 + ((x % 4) * 16 + y / 16) / 16 == x
    ensures (((x % 4) * 16 + y / 16) % 16) * 16 + ((y % 16) * 4) / 4 == y
  {
  }

  lemma ThreeByteSextets(x: int, y: int, z: int)
    requires 0 <= x < 256 && 0 <= y < 256 && 0 <= z < 256
    ensures (x / 4) * 4 + ((x % 4) * 16 + y / 16) / 16 == x
    ensures (((x % 4) * 16 + y / 16) % 16) * 16 + ((y % 16) * 4 + z / 64) / 4 == y
    ensures (((y % 16) * 4 + z / 64) % 4) * 64 + z % 64 == z
  {
  }

  /** Every encoding is accepted by strict mode. */
  lemma {:induction false} EncodeIsStrict(b: seq<byte>)
    ensures IsStrictBase64(Encode(b))
    decreases |b|
  {
    if 0 < |b| <= 3 {
      QuantumIsStrict(b);
    } else if |b| > 3 {
      EncodeIsStrict(b[3..]);
      QuantumIsStrict(b[..3]);
      StrictPrepend(EncodeQuantum(b[..3]), Encode(b[3..]));
    }
  }

  /** One quantum is strict, and a full one is all alphabet characters. */
  lemma QuantumIsStrict(b: seq<byte>)
    requires 1 <= |b| <= 3
    ensures IsStrictBase64(EncodeQuantum(b))
    ensures |b| == 3 ==> AllAlphabet(EncodeQuantum(b))
  {
    var q := EncodeQuantum(b);
    assert forall i :: 0 <= i < 2 ==> IsAlphabet(q[i]);
  }

  /** A full quantum of alphabet characters before a non-empty strict text
      gives a strict text. */
  lemma StrictPrepend(q: string, t: string)
    requires |q| == 4 && AllAlphabet(q) && IsStrictBase64(t) && |t| >= 4
    ensures IsStrictBase64(q + t)
  {
    var s := q + t;
    forall i | 0 <= i < |s| - 2
      ensures IsAlphabet(s[i])
    {
      if i >= 4 { assert s[i] == t[i - 4]; }
    }
    assert s[|s| - 2] == t[|t| - 2] && s[|s| - 1] == t[|t| - 1];
  }

  /** Round trip: strict decoding gives back the bytes that were encoded. */
  lemma {:induction false} DecodeEncode(b: seq<byte>)
    ensures Decode(Encode(b)) == Some(b)
  {
    DecodeQuantaEncode(b);
  }

  lemma {:induction false} DecodeQuantaEncode(b: seq<byte>)
    ensures IsStrictBase64(Encode(b)) && DecodeQuanta(Encode(b)) == b
    decreases |b|
  {
    EncodeIsStrict(b);
    if 0 < |b| <= 3 {
      var q := EncodeQuantum(b);
      QuantumRoundTrip(b);
      QuantumIsStrict(b);
      SplitQuantum(q, "");
      DecodeOneQuantum(q, "");
    } else if |b| > 3 {
      var q := EncodeQuantum(b[..3]);
      var t := Encode(b[3..]);
      QuantumRoundTrip(b[..3]);
      QuantumIsStrict(b[..3]);
      DecodeQuantaEncode(b[3..]);
      SplitQuantum(q, t);
      DecodeOneQuantum(q, t);
      assert b == b[..3] + b[3..];
    }
  }

  lemma SplitQuantum(q: string, t: string)
    requires |q| == 4
    ensures (q + t)[..4] == q && (q + t)[4..] == t && q + "" == q
  {
  }

  /** Decoding takes the first quantum off the front. */
  lemma DecodeOneQuantum(q: string, t: string)
    requires |q| == 4 && IsStrictBase64(q + t) && IsStrictBase64(q) && IsStrictBase64(t)
    requires (q + t)[..4] == q && (q + t)[4..] == t
    ensures DecodeQuanta(q + t) == DecodeQuantum(q) + DecodeQuanta(t)
  {
  }
}
