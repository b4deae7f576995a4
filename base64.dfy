/**
 * The browser's btoa and atob: base64 encoding of a "binary string" (a string
 * whose characters are all below 256, one per byte) as RFC 4648 section 4
 * defines it, and the forgiving decoder of the WHATWG HTML standard
 * ("forgiving-base64 decode"), which skips ASCII white space, accepts missing
 * padding and fails on any other character outside the alphabet.
 */
module Base64 {
  import opened Text

  type Byte = x: int | 0 <= x < 256

  // ---------------------------------------------------------------------------
  // The alphabet
  // ---------------------------------------------------------------------------

  /** The character for a 6-bit value: A-Z, a-z, 0-9, '+', '/'. */
  function EncodeChar(v: int): (c: char)
    requires 0 <= v < 64
    ensures IsBase64Char(c)
  {
    if v < 26 then ('A' as int + v) as char
    else if v < 52 then ('a' as int + (v - 26)) as char
    else if v < 62 then ('0' as int + (v - 52)) as char
    else if v == 62 then '+'
    else '/'
  }

  predicate IsBase64Char(c: char) {
    'A' <= c <= 'Z' || 'a' <= c <= 'z' || '0' <= c <= '9' || c == '+' || c == '/'
  }

  /** The 6-bit value of an alphabet character. */
  function DecodeChar(c: char): (v: int)
    requires IsBase64Char(c)
    ensures 0 <= v < 64
    ensures EncodeChar(v) == c
  {
    if 'A' <= c <= 'Z' then c as int - 'A' as int
    else if 'a' <= c <= 'z' then c as int - 'a' as int + 26
    else if '0' <= c <= '9' then c as int - '0' as int + 52
    else if c == '+' then 62
    else 63
  }

  lemma DecodeEncodeChar(v: int)
    requires 0 <= v < 64
    ensures DecodeChar(EncodeChar(v)) == v
  {
  }

  // ---------------------------------------------------------------------------
  // Encoding
  // ---------------------------------------------------------------------------

  /** Four characters for three bytes. */
  function Quad(a: Byte, b: Byte, c: Byte): (r: string)
    ensures |r| == 4
    ensures forall i :: 0 <= i < 4 ==> IsBase64Char(r[i])
  {
    [EncodeChar(Sextet0(a)), EncodeChar(Sextet1(a, b)),
     EncodeChar(Sextet2(b, c)), EncodeChar(Sextet3(c))]
  }

  /** The top six bits of the first byte. */
  function Sextet0(a: Byte): (v: int)
    ensures 0 <= v < 64
  {
    a / 4
  }

  /** The low two bits of the first byte and the top four of the second. */
  function Sextet1(a: Byte, b: Byte): (v: int)
    ensures 0 <= v < 64
  {
    (a % 4) * 16 + b / 16
  }

  /** The low four bits of the second byte and the top two of the third. */
  function Sextet2(b: Byte, c: Byte): (v: int)
    ensures 0 <= v < 64
  {
    (b % 16) * 4 + c / 64
  }

  /** The low six bits of the third byte. */
  function Sextet3(c: Byte): (v: int)
    ensures 0 <= v < 64
  {
    c % 64
  }

  /** Every character is in the alphabet. */
  predicate InAlphabet(s: string) {
    forall i :: 0 <= i < |s| ==> IsBase64Char(s[i])
  }

  /** The encoding without the '=' padding. */
  function EncodeBare(bs: seq<Byte>): (r: string)
    ensures |r| % 4 != 1
    ensures InAlphabet(r)
  {
    if |bs| >= 3 then
      var r := Quad(bs[0], bs[1], bs[2]) + EncodeBare(bs[3..]);
      AlphabetQuadAppend(bs[0], bs[1], bs[2], EncodeBare(bs[3..]));
      r
    else if |bs| == 2 then
      AlphabetQuadPrefix(bs[0], bs[1], 0, 3);
      Quad(bs[0], bs[1], 0)[..3]
    else if |bs| == 1 then
      AlphabetQuadPrefix(bs[0], 0, 0, 2);
      Quad(bs[0], 0, 0)[..2]
    else []
  }

  lemma AlphabetQuadAppend(a: Byte, b: Byte, c: Byte, rest: string)
    requires InAlphabet(rest) && |rest| % 4 != 1
    ensures InAlphabet(Quad(a, b, c) + rest) && |Quad(a, b, c) + rest| % 4 != 1
  {
    var q := Quad(a, b, c);
    var r := q + rest;
    forall i | 0 <= i < |r| ensures IsBase64Char(r[i]) {
      if i >= 4 { assert r[i] == rest[i - 4]; } else { assert r[i] == q[i]; }
    }
  }

  lemma AlphabetQuadPrefix(a: Byte, b: Byte, c: Byte, n: nat)
    requires n <= 4
    ensures InAlphabet(Quad(a, b, c)[..n])
  {
  }

  function Padding(n: nat): (r: string)
    ensures forall i :: 0 <= i < |r| ==> r[i] == '='
  {
    if n % 3 == 1 then "==" else if n % 3 == 2 then "=" else ""
  }

  /** RFC 4648 base64 with padding. */
  function Encode(bs: seq<Byte>): (r: string)
  {
    EncodeBare(bs) + Padding(|bs|)
  }

  /** The length of the unpadded encoding of n bytes. */
  function BareLength(n: nat): nat {
    4 * (n / 3) + (if n % 3 == 0 then 0 else n % 3 + 1)
  }

  lemma {:induction false} EncodeBareLength(bs: seq<Byte>)
    ensures |EncodeBare(bs)| == BareLength(|bs|)
    ensures |EncodeBare(bs)| % 4 == (if |bs| % 3 == 0 then 0 else |bs| % 3 + 1)
  {
    if |bs| >= 3 {
      EncodeBareLength(bs[3..]);
      BareLengthStep(|bs|);
      EncodeBareCons(bs);
    }
    BareLengthMod(|bs|);
  }

  /** Three or more bytes: one group of four characters, then the rest. */
  lemma EncodeBareCons(bs: seq<Byte>)
    requires |bs| >= 3
    ensures EncodeBare(bs) == Quad(bs[0], bs[1], bs[2]) + EncodeBare(bs[3..])
  {
  }

  lemma BareLengthStep(n: nat)
    requires n >= 3
    ensures BareLength(n) == 4 + BareLength(n - 3)
  {
  }

  lemma BareLengthMod(n: nat)
    ensures BareLength(n) % 4 == (if n % 3 == 0 then 0 else n % 3 + 1)
  {
  }

  /** The encoding is a whole number of four-character groups, 4 * ceil(n / 3)
      characters long, drawn from the alphabet and '='. */
  lemma EncodeShape(bs: seq<Byte>)
    ensures |Encode(bs)| == 4 * ((|bs| + 2) / 3)
    ensures forall i :: 0 <= i < |Encode(bs)| ==> IsBase64Char(Encode(bs)[i]) || Encode(bs)[i] == '='
  {
    EncodeBareLength(bs);
    PaddedLength(|bs|);
    var e, p := EncodeBare(bs), Padding(|bs|);
    forall i | 0 <= i < |e + p| ensures IsBase64Char((e + p)[i]) || (e + p)[i] == '=' {
      if i >= |e| { assert (e + p)[i] == p[i - |e|]; }
    }
  }

  lemma PaddedLength(n: nat)
    ensures BareLength(n) + |Padding(n)| == 4 * ((n + 2) / 3)
  {
  }

  // ---------------------------------------------------------------------------
  // Forgiving decoding
  // ---------------------------------------------------------------------------

  /** The ASCII white space that the forgiving decoder skips. */
  predicate IsAsciiWhitespace(c: char) {
    c == '\t' || c == '\n' || c == '\U{C}' || c == '\r' || c == ' '
  }

  function StripAsciiWhitespace(s: string): (r: string)
    ensures |r| <= |s|
    ensures forall i :: 0 <= i < |r| ==> !IsAsciiWhitespace(r[i])
  {
    if s == [] then []
    else (if IsAsciiWhitespace(s[0]) then [] else [s[0]]) + StripAsciiWhitespace(s[1..])
  }

  /** When the length is a multiple of four, one or two trailing '=' go. */
  function StripPadding(s: string): (r: string)
    ensures |r| <= |s|
  {
    if |s| % 4 != 0 then s
    else if |s| >= 2 && s[|s| - 2..] == "==" then s[..|s| - 2]
    else if |s| >= 1 && s[|s| - 1] == '=' then s[..|s| - 1]
    else s
  }

  /** The bytes of a string of alphabet characters, four characters giving three
      bytes; a tail of two or three characters gives one or two bytes and the
      bits left over are dropped. */
  function DecodeBare(s: string): (r: seq<Byte>)
    requires |s| % 4 != 1
    requires forall i :: 0 <= i < |s| ==> IsBase64Char(s[i])
  {
    if |s| == 0 then []
    else if |s| == 2 then [Glue0(DecodeChar(s[0]), DecodeChar(s[1]))]
    else if |s| == 3 then
      [Glue0(DecodeChar(s[0]), DecodeChar(s[1])), Glue1(DecodeChar(s[1]), DecodeChar(s[2]))]
    else
      [Glue0(DecodeChar(s[0]), DecodeChar(s[1])), Glue1(DecodeChar(s[1]), DecodeChar(s[2])),
       Glue2(DecodeChar(s[2]), DecodeChar(s[3]))] + DecodeBare(s[4..])
  }

  /** The first byte of a group: six bits of the first character and the top two
      of the second. */
  function Glue0(v0: int, v1: int): Byte
    requires 0 <= v0 < 64 && 0 <= v1 < 64
  {
    v0 * 4 + v1 / 16
  }

  /** The second byte: the low four bits of the second character and the top four
      of the third. */
  function Glue1(v1: int, v2: int): Byte
    requires 0 <= v1 < 64 && 0 <= v2 < 64
  {
    (v1 % 16) * 16 + v2 / 4
  }

  /** The third byte: the low two bits of the third character and all of the
      fourth. */
  function Glue2(v2: int, v3: int): Byte
    requires 0 <= v2 < 64 && 0 <= v3 < 64
  {
    (v2 % 4) * 64 + v3
  }

  /** atob's decoder: None where atob throws InvalidCharacterError. */
  function Decode(s: string): (r: Option<seq<Byte>>)
    ensures r.Some? <==>
      var t := StripPadding(StripAsciiWhitespace(s));
      |t| % 4 != 1 && forall i :: 0 <= i < |t| ==> IsBase64Char(t[i])
  {
    var t := StripPadding(StripAsciiWhitespace(s));
    if |t| % 4 == 1 then None
    else if exists i :: 0 <= i < |t| && !IsBase64Char(t[i]) then None
    else Some(DecodeBare(t))
  }

  // ---------------------------------------------------------------------------
  // Round trip
  // ---------------------------------------------------------------------------

  lemma QuadRoundTrip(a: Byte, b: Byte, c: Byte)
    ensures Glue0(DecodeChar(Quad(a, b, c)[0]), DecodeChar(Quad(a, b, c)[1])) == a
    ensures Glue1(DecodeChar(Quad(a, b, c)[1]), DecodeChar(Quad(a, b, c)[2])) == b
    ensures Glue2(DecodeChar(Quad(a, b, c)[2]), DecodeChar(Quad(a, b, c)[3])) == c
  {
    var v0, v1, v2, v3 := Sextet0(a), Sextet1(a, b), Sextet2(b, c), Sextet3(c);
    DecodeEncodeChar(v0);
    DecodeEncodeChar(v1);
    DecodeEncodeChar(v2);
    DecodeEncodeChar(v3);
    assert v1 / 16 == a % 4 && v1 % 16 == b / 16;
    assert v2 / 4 == b % 16 && v2 % 4 == c / 64;
  }

  lemma DecodeBareQuad(a: Byte, b: Byte, c: Byte, rest: string)
    requires |rest| % 4 != 1
    requires forall i :: 0 <= i < |rest| ==> IsBase64Char(rest[i])
    ensures DecodeBare(Quad(a, b, c) + rest) == [a, b, c] + DecodeBare(rest)
  {
    var q := Quad(a, b, c);
    var e := q + rest;
    AlphabetQuadAppend(a, b, c, rest);
    assert e[4..] == rest;
    assert e[0] == q[0] && e[1] == q[1] && e[2] == q[2] && e[3] == q[3];
    DecodeBareCons(e);
    QuadRoundTrip(a, b, c);
  }

  /** Four or more characters: one group of three bytes, then the rest. */
  lemma DecodeBareCons(s: string)
    requires |s| >= 4 && |s| % 4 != 1 && InAlphabet(s)
    ensures DecodeBare(s)
         == [Glue0(DecodeChar(s[0]), DecodeChar(s[1])), Glue1(DecodeChar(s[1]), DecodeChar(s[2])),
             Glue2(DecodeChar(s[2]), DecodeChar(s[3]))] + DecodeBare(s[4..])
  {
  }


  lemma {:induction false} DecodeEncodeBare(bs: seq<Byte>)
    ensures DecodeBare(EncodeBare(bs)) == bs
  {
    if |bs| >= 3 {
      var rest := EncodeBare(bs[3..]);
      DecodeEncodeBare(bs[3..]);
      DecodeBareQuad(bs[0], bs[1], bs[2], rest);
      EncodeBareCons(bs);
      FirstThree(bs);
    } else if |bs| == 2 {
      DecodeBareTail2(bs[0], bs[1]);
    } else if |bs| == 1 {
      DecodeBareTail1(bs[0]);
    }
  }

  lemma FirstThree(bs: seq<Byte>)
    requires |bs| >= 3
    ensures bs == [bs[0], bs[1], bs[2]] + bs[3..]
  {
  }

  lemma DecodeBareTail2(a: Byte, b: Byte)
    ensures DecodeBare(Quad(a, b, 0)[..3]) == [a, b]
  {
    var q := Quad(a, b, 0);
    var e := q[..3];
    assert e[0] == q[0] && e[1] == q[1] && e[2] == q[2];
    QuadRoundTrip(a, b, 0);
  }

  lemma DecodeBareTail1(a: Byte)
    ensures DecodeBare(Quad(a, 0, 0)[..2]) == [a]
  {
    var q := Quad(a, 0, 0);
    var e := q[..2];
    assert e[0] == q[0] && e[1] == q[1];
    QuadRoundTrip(a, 0, 0);
  }

  /** A string without ASCII white space is left as it is. */
  lemma {:induction false} StripWithoutWhitespace(s: string)
    requires forall i :: 0 <= i < |s| ==> !IsAsciiWhitespace(s[i])
    ensures StripAsciiWhitespace(s) == s
  {
    if s != [] {
      assert !IsAsciiWhitespace(s[0]);
      assert forall i :: 0 <= i < |s[1..]| ==> s[1..][i] == s[i + 1];
      StripWithoutWhitespace(s[1..]);
      assert s == [s[0]] + s[1..];
    }
  }


  lemma StripPaddingOfEncode(bs: seq<Byte>)
    ensures StripPadding(Encode(bs)) == EncodeBare(bs)
  {
    EncodeBareLength(bs);
    var e := EncodeBare(bs);
    if |bs| % 3 == 1 {
      assert Encode(bs) == e + "==";
      StripTwo(e);
    } else if |bs| % 3 == 2 {
      assert Encode(bs) == e + "=";
      StripOne(e);
    } else {
      assert Encode(bs) == e;
      StripNone(e);
    }
  }

  lemma StripNone(e: string)
    requires |e| % 4 == 0 && forall i :: 0 <= i < |e| ==> IsBase64Char(e[i])
    ensures StripPadding(e) == e
  {
    if |e| > 0 {
      assert IsBase64Char(e[|e| - 1]);
    }
  }

  lemma StripTwo(e: string)
    requires |e| % 4 == 2
    ensures StripPadding(e + "==") == e
  {
    var r := e + "==";
    assert r[|r| - 2..] == "==";
    assert r[..|r| - 2] == e;
  }

  lemma StripOne(e: string)
    requires |e| % 4 == 3 && IsBase64Char(e[|e| - 1])
    ensures StripPadding(e + "=") == e
  {
    var r := e + "=";
    assert r[|r| - 2] == e[|e| - 1];
    assert r[..|r| - 1] == e;
  }

  /** atob undoes btoa: decoding an encoding gives the bytes back. */
  lemma DecodeEncode(bs: seq<Byte>)
    ensures Decode(Encode(bs)) == Some(bs)
  {
    EncodeShape(bs);
    StripWithoutWhitespace(Encode(bs));
    StripPaddingOfEncode(bs);
    DecodeEncodeBare(bs);
  }

  // ---------------------------------------------------------------------------
  // Binary strings
  // ---------------------------------------------------------------------------

  predicate IsBinaryString(s: string) {
    forall i :: 0 <= i < |s| ==> s[i] as int < 256
  }

  function BytesOf(s: string): (r: seq<Byte>)
    requires IsBinaryString(s)
    ensures |r| == |s|
    ensures forall i :: 0 <= i < |s| ==> r[i] == s[i] as int
  {
    seq(|s|, i requires 0 <= i < |s| => s[i] as int as Byte)
  }

  /** String.fromCharCode applied to each byte. */
  function CharsOf(bs: seq<Byte>): (r: string)
    ensures IsBinaryString(r)
    ensures |r| == |bs|
    ensures forall i :: 0 <= i < |bs| ==> r[i] as int == bs[i]
  {
    seq(|bs|, i requires 0 <= i < |bs| => bs[i] as char)
  }

  lemma CharsOfBytesOf(s: string)
    requires IsBinaryString(s)
    ensures CharsOf(BytesOf(s)) == s
  {
  }

  /** window.btoa: None where btoa throws, that is when some character is not
      below 256. */
  function Btoa(s: string): (r: Option<string>)
    ensures r.Some? <==> IsBinaryString(s)
  {
    if IsBinaryString(s) then Some(Encode(BytesOf(s))) else None
  }

  /** window.atob: the decoded bytes as a binary string. */
  function Atob(s: string): (r: Option<string>)
    ensures r.Some? ==> IsBinaryString(r.value)
  {
    match Decode(s)
    case None => None
    case Some(bs) => Some(CharsOf(bs))
  }

  /** atob(btoa(s)) == s for every string btoa accepts. */
  lemma AtobBtoa(s: string)
    requires IsBinaryString(s)
    ensures Atob(Btoa(s).value) == Some(s)
  {
    DecodeEncode(BytesOf(s));
    CharsOfBytesOf(s);
  }
}
