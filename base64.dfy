/** The byte codecs behind the pagination cursor: base64 with the standard
    alphabet and `=` padding of section 4 of RFC 4648 (`buf.toString('base64')`),
    the forgiving decoder of `Buffer.from(s, 'base64')`, and the `ascii`
    conversions between strings and bytes. */
module Base64 {

  type Byte = x: int | 0 <= x < 256
  type Sextet = x: int | 0 <= x < 64

  /** The standard alphabet: `A`-`Z`, `a`-`z`, `0`-`9`, `+`, `/`. */
  function CharOf(v: Sextet): char
  {
    if v < 26 then (v + 'A' as int) as char
    else if v < 52 then (v - 26 + 'a' as int) as char
    else if v < 62 then (v - 52 + '0' as int) as char
    else if v == 62 then '+'
    else '/'
  }

  /** The value of a base64 character; the decoder also reads the URL-safe
      `-` and `_` as 62 and 63. */
  function ValueOf(ch: char): (r: Sextet)
    requires IsBase64Char(ch)
  {
    if 'A' <= ch <= 'Z' then ch as int - 'A' as int
    else if 'a' <= ch <= 'z' then ch as int - 'a' as int + 26
    else if '0' <= ch <= '9' then ch as int - '0' as int + 52
    else if ch == '+' || ch == '-' then 62
    else 63
  }

  predicate IsBase64Char(ch: char)
  {
    'A' <= ch <= 'Z' || 'a' <= ch <= 'z' || '0' <= ch <= '9' || ch == '+' || ch == '/' || ch == '-' || ch == '_'
  }

  lemma ValueOfCharOf(v: Sextet)
    ensures IsBase64Char(CharOf(v)) && ValueOf(CharOf(v)) == v
  {
  }

  // ---------------------------------------------------------------------
  // encoding

  /** Each group of three bytes becomes four sextets; a final group of one
      or two bytes becomes two or three sextets, zero-filled. */
  function Sextets(b: seq<Byte>): (r: seq<Sextet>)
    ensures |r| == (|b| / 3) * 4 + (if |b| % 3 == 0 then 0 else |b| % 3 + 1)
  {
    if |b| == 0 then []
    else if |b| == 1 then [b[0] / 4, (b[0] % 4) * 16]
    else if |b| == 2 then [b[0] / 4, (b[0] % 4) * 16 + b[1] / 16, (b[1] % 16) * 4]
    else [b[0] / 4, (b[0] % 4) * 16 + b[1] / 16, (b[1] % 16) * 4 + b[2] / 64, b[2] % 64] + Sextets(b[3..])
  }

  function Chars(v: seq<Sextet>): (r: string)
    ensures |r| == |v|
    ensures forall i :: 0 <= i < |v| ==> r[i] == CharOf(v[i])
  {
    seq(|v|, i requires 0 <= i < |v| => CharOf(v[i]))
  }

  function Padding(n: nat): string
  {
    if n % 3 == 1 then "==" else if n % 3 == 2 then "=" else ""
  }

  /** `Buffer.from(b).toString('base64')`. */
  function Encode(b: seq<Byte>): (r: string)
    ensures |r| % 4 == 0
  {
    Chars(Sextets(b)) + Padding(|b|)
  }

  // ---------------------------------------------------------------------
  // decoding

  /** The sextets the decoder reads: characters outside the alphabet are
      skipped and the first `=` ends the input. */
  function Clean(s: string): seq<Sextet>
  {
    if |s| == 0 || s[0] == '=' then []
    else if IsBase64Char(s[0]) then [ValueOf(s[0])] + Clean(s[1..])
    else Clean(s[1..])
  }

  /** Four sextets give three bytes; a trailing two or three give one or
      two bytes, and a single trailing sextet gives nothing. */
  function FromSextets(v: seq<Sextet>): seq<Byte>
  {
    if |v| < 2 then []
    else
      var b0: Byte := (v[0] as int) * 4 + (v[1] as int) / 16;
      if |v| == 2 then [b0]
      else
        var b1: Byte := (v[1] as int % 16) * 16 + (v[2] as int) / 4;
        if |v| == 3 then [b0, b1]
        else
          var b2: Byte := (v[2] as int % 4) * 64 + v[3] as int;
          [b0, b1, b2] + FromSextets(v[4..])
  }

  /** `Buffer.from(s, 'base64')`. */
  function Decode(s: string): seq<Byte>
  {
    FromSextets(Clean(s))
  }

  // ---------------------------------------------------------------------
  // round trip

  lemma {:induction false} CleanChars(v: seq<Sextet>, pad: string)
    requires pad == "" || pad[0] == '='
    ensures Clean(Chars(v) + pad) == v
  {
    if |v| == 0 {
      assert Chars(v) + pad == pad;
    } else {
      ValueOfCharOf(v[0]);
      assert (Chars(v) + pad)[1..] == Chars(v[1..]) + pad;
      CleanChars(v[1..], pad);
    }
  }

  lemma OneByte(x: Byte)
    ensures (x / 4) * 4 + ((x % 4) * 16) / 16 == x
  {
  }

  lemma TwoBytes(x: Byte, y: Byte)
    ensures ((x % 4) * 16 + y / 16) / 16 == x % 4
    ensures (((x % 4) * 16 + y / 16) % 16) * 16 + ((y % 16) * 4) / 4 == y
  {
  }

  lemma ThreeBytes(y: Byte, z: Byte)
    ensures ((y % 16) * 4 + z / 64) / 4 == y % 16
    ensures (((y % 16) * 4 + z / 64) % 4) * 64 + z % 64 == z
  {
  }

  lemma {:induction false} FromSextetsOfSextets(b: seq<Byte>)
    ensures FromSextets(Sextets(b)) == b
  {
    if |b| == 1 {
      OneByte(b[0]);
    } else if |b| == 2 {
      TwoBytes(b[0], b[1]);
    } else if |b| >= 3 {
      TwoBytes(b[0], b[1]);
      ThreeBytes(b[1], b[2]);
      var v := Sextets(b);
      assert v[4..] == Sextets(b[3..]);
      FromSextetsOfSextets(b[3..]);
      assert b == b[..3] + b[3..];
    }
  }

  /** Decoding what was encoded gives the bytes back. */
  lemma DecodeEncode(b: seq<Byte>)
    ensures Decode(Encode(b)) == b
  {
    CleanChars(Sextets(b), Padding(|b|));
    FromSextetsOfSextets(b);
  }

  // ---------------------------------------------------------------------
  // ascii text

  /** `Buffer.from(s, 'ascii')`: each character keeps its low eight bits. */
  function AsciiBytes(s: string): (r: seq<Byte>)
    ensures |r| == |s|
  {
    seq(|s|, i requires 0 <= i < |s| => (s[i] as int) % 256)
  }

  /** `buf.toString('ascii')`: each byte loses its high bit. */
  function AsciiText(b: seq<Byte>): (r: string)
    ensures |r| == |b|
  {
    seq(|b|, i requires 0 <= i < |b| => ((b[i] % 128) as char))
  }

  predicate IsAscii(s: string)
  {
    forall i :: 0 <= i < |s| ==> s[i] as int < 128
  }

  lemma AsciiRoundTrip(s: string)
    requires IsAscii(s)
    ensures AsciiText(AsciiBytes(s)) == s
  {
  }
}
