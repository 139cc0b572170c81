/** The byte <-> text transcoding used on both sides of the cipher in src/SecureFiles.tsx.

    Upload (line 84): `btoa(String.fromCharCode(...bytes))` maps every byte to the character with
    that code and encodes it with the base64 alphabet of section 4 of RFC 4648, padding with '='.
    Download (line 240): `Uint8Array.from(atob(s), c => c.charCodeAt(0))` runs the
    "forgiving-base64 decode" algorithm of the WHATWG Infra standard, which atob uses:
    ASCII whitespace is removed, one or two trailing '=' are dropped when the length is a
    multiple of four, a length of 4k+1 or a character outside the alphabet throws, and the
    leftover bits of a final partial group are discarded. */
module Base64 {

  import opened Optional

  newtype Byte = x: int | 0 <= x < 256

  /** A six-bit group, the value one base64 character carries. */
  type Sextet = x: int | 0 <= x < 64

  // ----- The alphabet (table 1 of RFC 4648) -----

  predicate IsAlphabetChar(c: char)
  {
    ('A' <= c <= 'Z') || ('a' <= c <= 'z') || ('0' <= c <= '9') || c == '+' || c == '/'
  }

  function CharOf(v: Sextet): (c: char)
    ensures IsAlphabetChar(c)
  {
    if v < 26 then ('A' as int + v) as char
    else if v < 52 then ('a' as int + (v - 26)) as char
    else if v < 62 then ('0' as int + (v - 52)) as char
    else if v == 62 then '+'
    else '/'
  }

  function ValueOf(c: char): (v: Sextet)
    requires IsAlphabetChar(c)
    ensures CharOf(v) == c
  {
    if 'A' <= c <= 'Z' then c as int - 'A' as int
    else if 'a' <= c <= 'z' then c as int - 'a' as int + 26
    else if '0' <= c <= '9' then c as int - '0' as int + 52
    else if c == '+' then 62
    else 63
  }

  /** Every sextet is read back from the character that encodes it. */
  lemma ValueOfCharOf(v: Sextet)
    ensures ValueOf(CharOf(v)) == v
  {
  }

  // ----- Encoding (btoa) -----

  /** Three bytes become four characters, most significant bits first. */
  function EncodeTriple(a: Byte, b: Byte, c: Byte): (s: string)
    ensures |s| == 4 && AllAlphabet(s)
  {
    var x, y, z := a as int, b as int, c as int;
    [CharOf(x / 4), CharOf((x % 4) * 16 + y / 16), CharOf((y % 16) * 4 + z / 64), CharOf(z % 64)]
  }

  /** The characters of the encoding before the '=' padding: a final single byte gives two
      characters and a final pair of bytes three, their unused low bits set to zero. */
  function EncodeUnpadded(b: seq<Byte>): (s: string)
    ensures |s| == (|b| / 3) * 4 + UnpaddedTail(|b|) && |s| % 4 != 1
    ensures forall i :: 0 <= i < |s| ==> IsAlphabetChar(s[i])
    decreases |b|
  {
    if |b| == 0 then ""
    else if |b| == 1 then
      var x := b[0] as int;
      [CharOf(x / 4), CharOf((x % 4) * 16)]
    else if |b| == 2 then
      var x, y := b[0] as int, b[1] as int;
      [CharOf(x / 4), CharOf((x % 4) * 16 + y / 16), CharOf((y % 16) * 4)]
    else
      EncodeTriple(b[0], b[1], b[2]) + EncodeUnpadded(b[3..])
  }

  /** How many characters the final partial group of n bytes takes. */
  function UnpaddedTail(n: nat): nat
  {
    if n % 3 == 0 then 0 else n % 3 + 1
  }

  function Padding(n: nat): string
  {
    if n % 3 == 1 then "==" else if n % 3 == 2 then "=" else ""
  }

  /** `btoa(String.fromCharCode(...b))`. */
  function Encode(b: seq<Byte>): (s: string)
    ensures |s| % 4 == 0 && |s| == 4 * ((|b| + 2) / 3)
    ensures forall i :: 0 <= i < |s| ==> IsAlphabetChar(s[i]) || s[i] == '='
    ensures s == "" <==> b == []
  {
    EncodeUnpadded(b) + Padding(|b|)
  }

  // ----- Decoding (atob) -----

  /** ASCII whitespace as the Infra standard defines it: tab, line feed, form feed,
      carriage return and space. */
  predicate IsAsciiWhitespace(c: char)
  {
    c == '\t' || c == '\n' || c == '\U{C}' || c == '\r' || c == ' '
  }

  function RemoveWhitespace(s: string): (r: string)
    ensures forall i :: 0 <= i < |r| ==> !IsAsciiWhitespace(r[i])
    ensures forall c :: c in r <==> c in s && !IsAsciiWhitespace(c)
    decreases |s|
  {
    if s == [] then []
    else if IsAsciiWhitespace(s[0]) then RemoveWhitespace(s[1..])
    else [s[0]] + RemoveWhitespace(s[1..])
  }

  /** Step 2 of forgiving-base64 decode: only when the length is a multiple of four, one or
      two trailing '=' are removed. */
  function StripPadding(s: string): string
  {
    if |s| % 4 == 0 && |s| >= 2 && s[|s| - 2..] == "==" then s[..|s| - 2]
    else if |s| % 4 == 0 && |s| >= 1 && s[|s| - 1] == '=' then s[..|s| - 1]
    else s
  }

  predicate AllAlphabet(s: string)
  {
    forall i :: 0 <= i < |s| ==> IsAlphabetChar(s[i])
  }

  /** Four characters become three bytes. */
  function DecodeQuad(s: string): (b: seq<Byte>)
    requires |s| == 4 && AllAlphabet(s)
  {
    var p, q, r, t := ValueOf(s[0]), ValueOf(s[1]), ValueOf(s[2]), ValueOf(s[3]);
    [(p * 4 + q / 16) as Byte, ((q % 16) * 16 + r / 4) as Byte, ((r % 4) * 64 + t) as Byte]
  }

  /** Groups of four characters, then a final group of two (one byte) or three (two bytes);
      the bits left over in a final group are dropped. */
  function DecodeSextets(s: string): (b: seq<Byte>)
    requires AllAlphabet(s) && |s| % 4 != 1
    ensures |b| == |s| * 3 / 4
    decreases |s|
  {
    if |s| == 0 then []
    else if |s| == 2 then
      var p, q := ValueOf(s[0]), ValueOf(s[1]);
      [(p * 4 + q / 16) as Byte]
    else if |s| == 3 then
      var p, q, r := ValueOf(s[0]), ValueOf(s[1]), ValueOf(s[2]);
      [(p * 4 + q / 16) as Byte, ((q % 16) * 16 + r / 4) as Byte]
    else
      DecodeQuad(s[..4]) + DecodeSextets(s[4..])
  }

  /** `Uint8Array.from(atob(s), c => c.charCodeAt(0))`: None where atob throws. */
  function Decode(s: string): (r: Option<seq<Byte>>)
    ensures var d := StripPadding(RemoveWhitespace(s));
      r.None? <==> |d| % 4 == 1 || exists i :: 0 <= i < |d| && !IsAlphabetChar(d[i])
    ensures r.Some? ==> |r.value| == |StripPadding(RemoveWhitespace(s))| * 6 / 8
  {
    var d := StripPadding(RemoveWhitespace(s));
    if |d| % 4 == 1 || !AllAlphabet(d) then None
    else Some(DecodeSextets(d))
  }

  // ----- Properties -----

  /** The bits of one six-bit group split across two bytes recombine: hi is the part of the
      group taken from the first byte, k the number of values its low part can take. */
  lemma SplitSextet(hi: int, lo: int, k: int)
    requires k == 4 || k == 16 || k == 64
    requires 0 <= lo < k
    ensures (hi * k + lo) / k == hi && (hi * k + lo) % k == lo
  {
  }

  lemma DecodeQuadEncodeTriple(a: Byte, b: Byte, c: Byte)
    ensures DecodeQuad(EncodeTriple(a, b, c)) == [a, b, c]
  {
    var x, y, z := a as int, b as int, c as int;
    var p, q, r, t := x / 4, (x % 4) * 16 + y / 16, (y % 16) * 4 + z / 64, z % 64;
    ValueOfCharOf(p);
    ValueOfCharOf(q);
    ValueOfCharOf(r);
    ValueOfCharOf(t);
    SplitSextet(x % 4, y / 16, 16);
    SplitSextet(y % 16, z / 64, 4);
    assert p * 4 + q / 16 == x;
    assert (q % 16) * 16 + r / 4 == y;
    assert (r % 4) * 64 + t == z;
  }

  lemma DecodeSingleByte(x: Byte)
    ensures DecodeSextets(EncodeUnpadded([x])) == [x]
  {
  }

  lemma DecodeBytePair(x: Byte, y: Byte)
    ensures DecodeSextets(EncodeUnpadded([x, y])) == [x, y]
  {
    var v, w := x as int, y as int;
    var p, q, r := v / 4, (v % 4) * 16 + w / 16, (w % 16) * 4;
    ValueOfCharOf(p);
    ValueOfCharOf(q);
    ValueOfCharOf(r);
    SplitSextet(v % 4, w / 16, 16);
    SplitSextet(w % 16, 0, 4);
    assert p * 4 + q / 16 == v;
    assert (q % 16) * 16 + r / 4 == w;
  }

  /** A full group of four characters decodes in front of whatever follows it. */
  lemma DecodeSextetsAppend(head: string, rest: string)
    requires |head| == 4 && AllAlphabet(head) && AllAlphabet(rest) && |rest| % 4 != 1
    ensures AllAlphabet(head + rest) && |head + rest| % 4 != 1
    ensures DecodeSextets(head + rest) == DecodeQuad(head) + DecodeSextets(rest)
  {
  }

  lemma SplitThree<T>(b: seq<T>)
    requires |b| > 2
    ensures b == [b[0], b[1], b[2]] + b[3..]
  {
  }

  lemma DecodeLeadingTriple(b: seq<Byte>)
    requires |b| > 2
    requires DecodeSextets(EncodeUnpadded(b[3..])) == b[3..]
    ensures DecodeSextets(EncodeUnpadded(b)) == b
  {
    SplitThree(b);
    var head, rest := EncodeTriple(b[0], b[1], b[2]), EncodeUnpadded(b[3..]);
    assert EncodeUnpadded(b) == head + rest;
    assert AllAlphabet(rest) && |rest| % 4 != 1;
    DecodeSextetsAppend(head, rest);
    DecodeQuadEncodeTriple(b[0], b[1], b[2]);
  }

  /** Decoding the unpadded characters gives back the bytes. */
  lemma {:induction false} DecodeSextetsEncodeUnpadded(b: seq<Byte>)
    ensures DecodeSextets(EncodeUnpadded(b)) == b
    decreases |b|
  {
    if |b| == 1 {
      assert b == [b[0]];
      DecodeSingleByte(b[0]);
    } else if |b| == 2 {
      assert b == [b[0], b[1]];
      DecodeBytePair(b[0], b[1]);
    } else if |b| > 2 {
      DecodeSextetsEncodeUnpadded(b[3..]);
      DecodeLeadingTriple(b);
    }
  }

  lemma StripPaddingOfEncode(b: seq<Byte>)
    ensures StripPadding(Encode(b)) == EncodeUnpadded(b)
  {
    var u := EncodeUnpadded(b);
    var s := Encode(b);
    assert s == u + Padding(|b|);
    if |b| % 3 == 1 {
      assert s[..|s| - 2] == u;
    } else if |b| % 3 == 2 {
      assert |u| >= 2 && s[|s| - 2] == u[|u| - 1];
      assert s[..|s| - 1] == u;
    } else if |u| > 0 {
      assert s[|s| - 1] == u[|u| - 1];
    }
  }

  /** Decoding inverts encoding: `atob(btoa(String.fromCharCode(...b)))` read back code by code
      is b, for every byte sequence b, the empty one included. */
  lemma DecodeEncode(b: seq<Byte>)
    ensures Decode(Encode(b)) == Some(b)
  {
    var s := Encode(b);
    assert RemoveWhitespace(s) == s by {
      NoWhitespaceUnchanged(s);
    }
    StripPaddingOfEncode(b);
    DecodeSextetsEncodeUnpadded(b);
  }

  lemma {:induction false} NoWhitespaceUnchanged(s: string)
    requires forall i :: 0 <= i < |s| ==> !IsAsciiWhitespace(s[i])
    ensures RemoveWhitespace(s) == s
    decreases |s|
  {
    if s != [] {
      NoWhitespaceUnchanged(s[1..]);
      assert s == [s[0]] + s[1..];
    }
  }

  /** atob throws on any character that is neither in the alphabet, nor '=', nor ASCII
      whitespace. */
  lemma DecodeRejectsForeignChar(s: string, c: char)
    requires c in s && !IsAlphabetChar(c) && c != '=' && !IsAsciiWhitespace(c)
    ensures Decode(s) == None
  {
    var w := RemoveWhitespace(s);
    assert c in w;
    var k :| 0 <= k < |w| && w[k] == c;
    var d := StripPadding(w);
    if |w| % 4 == 0 && |w| >= 2 && w[|w| - 2..] == "==" {
      assert w[|w| - 2] == '=' && w[|w| - 1] == '=';
      assert d[k] == c;
    } else if |w| % 4 == 0 && |w| >= 1 && w[|w| - 1] == '=' {
      assert d[k] == c;
    } else {
      assert d[k] == c;
    }
  }
}
