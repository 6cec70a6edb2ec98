/** The "base64" encoding of section 4 of RFC 4648, as `java.util.Base64`'s
    basic encoder produces it: the 64-character alphabet of Table 1, one
    group of four characters per three bytes, and '=' padding for a final
    group of one or two bytes. The encoder's partner is a decoder that
    accepts only canonical encodings: the pad bits must be zero, as section
    3.5 of RFC 4648 allows a decoder to require. */
module Base64 {
  import opened Wrappers
  import opened Utf8

  /** Table 1 of RFC 4648: 0..25 'A'..'Z', 26..51 'a'..'z', 52..61 '0'..'9',
      62 '+', 63 '/'. */
  function SextetChar(v: int): (c: char)
    requires 0 <= v < 64
  {
    if v < 26 then ('A' as int + v) as char
    else if v < 52 then ('a' as int + (v - 26)) as char
    else if v < 62 then ('0' as int + (v - 52)) as char
    else if v == 62 then '+'
    else '/'
  }

  predicate IsAlphabetChar(c: char) {
    ('A' <= c <= 'Z') || ('a' <= c <= 'z') || ('0' <= c <= '9') || c == '+' || c == '/'
  }

  function SextetValue(c: char): (v: int)
    requires IsAlphabetChar(c)
    ensures 0 <= v < 64
  {
    if 'A' <= c <= 'Z' then c as int - 'A' as int
    else if 'a' <= c <= 'z' then c as int - 'a' as int + 26
    else if '0' <= c <= '9' then c as int - '0' as int + 52
    else if c == '+' then 62
    else 63
  }

  lemma SextetRoundTrip(v: int)
    requires 0 <= v < 64
    ensures IsAlphabetChar(SextetChar(v)) && SextetValue(SextetChar(v)) == v
  {
  }

  const Pad: char := '='

  /** Encodes `b`, three bytes (24 bits) at a time: four characters for
      every started group of three bytes. */
  function Encode(b: seq<byte>): (s: string)
    ensures |s| == 4 * ((|b| + 2) / 3)
    decreases |b|
  {
    if b == [] then []
    else if |b| == 1 then
      [SextetChar(b[0] / 4), SextetChar((b[0] % 4) * 16), Pad, Pad]
    else if |b| == 2 then
      [SextetChar(b[0] / 4), SextetChar((b[0] % 4) * 16 + b[1] / 16), SextetChar((b[1] % 16) * 4), Pad]
    else Group(b[0], b[1], b[2]) + Encode(b[3..])
  }

  /** The four characters of a full group of three bytes. */
  function Group(x: byte, y: byte, z: byte): (s: string) {
    [SextetChar(x / 4), SextetChar((x % 4) * 16 + y / 16), SextetChar((y % 16) * 4 + z / 64), SextetChar(z % 64)]
  }

  /** The three bytes of a full group of four characters; `None` unless all
      four are in the alphabet. */
  function DecodeQuad(c0: char, c1: char, c2: char, c3: char): Option<seq<byte>> {
    if IsAlphabetChar(c0) && IsAlphabetChar(c1) && IsAlphabetChar(c2) && IsAlphabetChar(c3) then
      var v0, v1, v2, v3 := SextetValue(c0), SextetValue(c1), SextetValue(c2), SextetValue(c3);
      Some([v0 * 4 + v1 / 16, (v1 % 16) * 16 + v2 / 4, (v2 % 4) * 64 + v3])
    else None
  }

  /** The byte of a final "xx==" or the two bytes of a final "xxx=" (the
      fourth character, '=', is not passed). The bits that padding leaves
      over must be zero (section 3.5 of RFC 4648), so each byte sequence has
      exactly one encoding this accepts. */
  function DecodePadded(c0: char, c1: char, c2: char): Option<seq<byte>> {
    if !IsAlphabetChar(c0) || !IsAlphabetChar(c1) then None
    else
      var v0, v1 := SextetValue(c0), SextetValue(c1);
      if c2 == Pad then
        if v1 % 16 == 0 then Some([v0 * 4 + v1 / 16]) else None
      else if !IsAlphabetChar(c2) then None
      else
        var v2 := SextetValue(c2);
        if v2 % 4 == 0 then Some([v0 * 4 + v1 / 16, (v1 % 16) * 16 + v2 / 4]) else None
  }

  /** Decodes a padded base64 string, `None` when it is not one. */
  function Decode(s: string): (r: Option<seq<byte>>)
    decreases |s|
  {
    if s == [] then Some([])
    else if |s| < 4 then None
    else if |s| == 4 && s[3] == Pad then DecodePadded(s[0], s[1], s[2])
    else match DecodeQuad(s[0], s[1], s[2], s[3])
      case None => None
      case Some(group) =>
        match Decode(s[4..])
        case None => None
        case Some(rest) => Some(group + rest)
  }

  /** Three bytes (24 bits) as four sextets, and each sextet's character
      read back. */
  lemma ThreeByteGroup(x: byte, y: byte, z: byte)
    ensures var v1, v2, v3 := (x % 4) * 16 + y / 16, (y % 16) * 4 + z / 64, z % 64;
      && IsAlphabetChar(SextetChar(x / 4)) && SextetValue(SextetChar(x / 4)) == x / 4
      && IsAlphabetChar(SextetChar(v1)) && SextetValue(SextetChar(v1)) == v1
      && IsAlphabetChar(SextetChar(v2)) && SextetValue(SextetChar(v2)) == v2
      && IsAlphabetChar(SextetChar(v3)) && SextetValue(SextetChar(v3)) == v3
      && (x / 4) * 4 + v1 / 16 == x
      && (v1 % 16) * 16 + v2 / 4 == y
      && (v2 % 4) * 64 + v3 == z
  {
    var v1, v2, v3 := (x % 4) * 16 + y / 16, (y % 16) * 4 + z / 64, z % 64;
    SextetRoundTrip(x / 4);
    SextetRoundTrip(v1);
    SextetRoundTrip(v2);
    SextetRoundTrip(v3);
  }

  /** A full group reads back as its three bytes. */
  lemma QuadOfGroup(x: byte, y: byte, z: byte)
    ensures var g := Group(x, y, z);
      DecodeQuad(g[0], g[1], g[2], g[3]) == Some([x, y, z]) && g[3] != Pad
  {
    ThreeByteGroup(x, y, z);
  }

  /** A final group of one byte reads back as that byte. */
  lemma PaddedOfOne(x: byte)
    ensures var e := Encode([x]);
      |e| == 4 && e[3] == Pad && DecodePadded(e[0], e[1], e[2]) == Some([x])
  {
    SextetRoundTrip(x / 4);
    SextetRoundTrip((x % 4) * 16);
  }

  /** A final group of two bytes reads back as those bytes. */
  lemma PaddedOfTwo(x: byte, y: byte)
    ensures var e := Encode([x, y]);
      |e| == 4 && e[3] == Pad && DecodePadded(e[0], e[1], e[2]) == Some([x, y])
  {
    var v1 := (x % 4) * 16 + y / 16;
    var v2 := (y % 16) * 4;
    SextetRoundTrip(x / 4);
    SextetRoundTrip(v1);
    SextetRoundTrip(v2);
    assert v1 / 16 == x % 4 && v1 % 16 == y / 16 && v2 / 4 == y % 16;
  }

  /** Decoding the encoding of a byte sequence gives the bytes back. */
  lemma {:induction false} DecodeEncode(b: seq<byte>)
    ensures Decode(Encode(b)) == Some(b)
    decreases |b|
  {
    if |b| < 3 {
      DecodeEncodeFinal(b);
    } else {
      DecodeEncode(b[3..]);
      DecodeEncodeGroup(b);
    }
  }

  /** The round trip for no bytes and for a final group of one or two. */
  lemma DecodeEncodeFinal(b: seq<byte>)
    requires |b| < 3
    ensures Decode(Encode(b)) == Some(b)
  {
    if |b| == 1 {
      DecodeEncodeOne(b);
    } else if |b| == 2 {
      DecodeEncodeTwo(b);
    }
  }

  lemma DecodeEncodeOne(b: seq<byte>)
    requires |b| == 1
    ensures Decode(Encode(b)) == Some(b)
  {
    PaddedOfOne(b[0]);
    assert b == [b[0]];
  }

  lemma DecodeEncodeTwo(b: seq<byte>)
    requires |b| == 2
    ensures Decode(Encode(b)) == Some(b)
  {
    PaddedOfTwo(b[0], b[1]);
    assert b == [b[0], b[1]];
  }

  /** The round trip extends from the rest of the bytes to a first full
      group in front of them. */
  lemma DecodeEncodeGroup(b: seq<byte>)
    requires |b| >= 3 && Decode(Encode(b[3..])) == Some(b[3..])
    ensures Decode(Encode(b)) == Some(b)
  {
    var t := Encode(b[3..]);
    EncodeStep(b);
    DecodeGroup(b[0], b[1], b[2], t);
    FirstGroupJoins(b);
    assert Decode(Group(b[0], b[1], b[2]) + t) == Some([b[0], b[1], b[2]] + b[3..]);
  }

  lemma FirstGroupJoins(b: seq<byte>)
    requires |b| >= 3
    ensures [b[0], b[1], b[2]] + b[3..] == b
  {
  }

  /** Three or more bytes encode as their first group followed by the
      encoding of the rest. */
  lemma EncodeStep(b: seq<byte>)
    requires |b| >= 3
    ensures Encode(b) == Group(b[0], b[1], b[2]) + Encode(b[3..])
  {
  }

  /** A full group decodes to its three bytes, followed by whatever the
      rest decodes to. */
  lemma DecodeGroup(x: byte, y: byte, z: byte, t: string)
    ensures Decode(Group(x, y, z) + t) ==
      match Decode(t)
      case None => None
      case Some(rest) => Some([x, y, z] + rest)
  {
    var g := Group(x, y, z);
    var s := g + t;
    QuadOfGroup(x, y, z);
    assert s[0] == g[0] && s[1] == g[1] && s[2] == g[2] && s[3] == g[3];
    assert s[4..] == t;
  }

  lemma SextetValueRoundTrip(c: char)
    requires IsAlphabetChar(c)
    ensures SextetChar(SextetValue(c)) == c
  {
  }

  /** The arithmetic behind reading bytes from sextets: the sextets come back
      from the bytes they decode to. */
  lemma OneByteOf(v0: int, v1: int)
    requires 0 <= v0 < 64 && 0 <= v1 < 64 && v1 % 16 == 0
    ensures var b0 := v0 * 4 + v1 / 16;
      0 <= b0 < 256 && b0 / 4 == v0 && (b0 % 4) * 16 == v1
  {
  }

  lemma TwoBytesOf(v0: int, v1: int, v2: int)
    requires 0 <= v0 < 64 && 0 <= v1 < 64 && 0 <= v2 < 64
    ensures var b0, b1 := v0 * 4 + v1 / 16, (v1 % 16) * 16 + v2 / 4;
      && 0 <= b0 < 256 && 0 <= b1 < 256
      && b0 / 4 == v0 && (b0 % 4) * 16 + b1 / 16 == v1
      && (v2 % 4 == 0 ==> (b1 % 16) * 4 == v2)
  {
  }

  lemma ThreeBytesOf(v1: int, v2: int, v3: int)
    requires 0 <= v1 < 64 && 0 <= v2 < 64 && 0 <= v3 < 64
    ensures var b1, b2 := (v1 % 16) * 16 + v2 / 4, (v2 % 4) * 64 + v3;
      && 0 <= b2 < 256
      && (b1 % 16) * 4 + b2 / 64 == v2 && b2 % 64 == v3
  {
  }

  /** Four characters that read as a full group are that group's encoding. */
  lemma EncodeOfQuad(c0: char, c1: char, c2: char, c3: char, g: seq<byte>)
    requires DecodeQuad(c0, c1, c2, c3) == Some(g)
    ensures |g| == 3 && Group(g[0], g[1], g[2]) == [c0, c1, c2, c3]
  {
    var v0, v1, v2, v3 := SextetValue(c0), SextetValue(c1), SextetValue(c2), SextetValue(c3);
    TwoBytesOf(v0, v1, v2);
    ThreeBytesOf(v1, v2, v3);
    var b0, b1, b2 := v0 * 4 + v1 / 16, (v1 % 16) * 16 + v2 / 4, (v2 % 4) * 64 + v3;
    assert g == [b0, b1, b2];
    assert b0 / 4 == v0 && (b0 % 4) * 16 + b1 / 16 == v1;
    assert (b1 % 16) * 4 + b2 / 64 == v2 && b2 % 64 == v3;
    SextetValueRoundTrip(c0);
    SextetValueRoundTrip(c1);
    SextetValueRoundTrip(c2);
    SextetValueRoundTrip(c3);
  }

  /** Three characters that read as a final padded group are, with the
      final '=', that group's encoding. */
  lemma EncodeOfPadded(c0: char, c1: char, c2: char, b: seq<byte>)
    requires DecodePadded(c0, c1, c2) == Some(b)
    ensures Encode(b) == [c0, c1, c2, Pad]
  {
    var v0, v1 := SextetValue(c0), SextetValue(c1);
    SextetValueRoundTrip(c0);
    SextetValueRoundTrip(c1);
    if c2 == Pad {
      OneByteOf(v0, v1);
      assert b == [v0 * 4 + v1 / 16];
    } else {
      var v2 := SextetValue(c2);
      SextetValueRoundTrip(c2);
      TwoBytesOf(v0, v1, v2);
      var b0, b1 := v0 * 4 + v1 / 16, (v1 % 16) * 16 + v2 / 4;
      assert b == [b0, b1];
      assert b0 / 4 == v0 && (b0 % 4) * 16 + b1 / 16 == v1 && (b1 % 16) * 4 == v2;
    }
  }

  /** The converse of `DecodeEncode`: a string the decoder accepts is the
      encoding of the bytes it returns, so the encoder's output is the only
      form of those bytes. */
  lemma {:induction false} EncodeDecode(s: string, b: seq<byte>)
    requires Decode(s) == Some(b)
    ensures Encode(b) == s
    decreases |s|
  {
    if s == [] {
    } else if |s| == 4 && s[3] == Pad {
      EncodeOfPadded(s[0], s[1], s[2], b);
      assert s == [s[0], s[1], s[2], Pad];
    } else {
      var g, rest := DecodeFullGroup(s, b);
      EncodeOfQuad(s[0], s[1], s[2], s[3], g);
      EncodeDecode(s[4..], rest);
      assert b[0] == g[0] && b[1] == g[1] && b[2] == g[2] && b[3..] == rest;
      assert Encode(b) == Group(g[0], g[1], g[2]) + Encode(rest);
      assert s == [s[0], s[1], s[2], s[3]] + s[4..];
    }
  }

  /** What the decoder does with a string that does not end after one
      padded group: a full group, then the decoding of the rest. */
  lemma DecodeFullGroup(s: string, b: seq<byte>) returns (g: seq<byte>, rest: seq<byte>)
    requires s != [] && !(|s| == 4 && s[3] == Pad) && Decode(s) == Some(b)
    ensures DecodeQuad(s[0], s[1], s[2], s[3]) == Some(g) && Decode(s[4..]) == Some(rest)
    ensures b == g + rest
  {
    g := DecodeQuad(s[0], s[1], s[2], s[3]).value;
    rest := Decode(s[4..]).value;
  }

  /** The output uses only the alphabet and, at the end only, padding. */
  lemma {:induction false} EncodeAlphabet(b: seq<byte>)
    ensures forall i :: 0 <= i < |Encode(b)| ==> IsAlphabetChar(Encode(b)[i]) || Encode(b)[i] == Pad
    ensures forall i :: 0 <= i < |Encode(b)| - 2 ==> IsAlphabetChar(Encode(b)[i])
    decreases |b|
  {
    if |b| > 2 {
      EncodeAlphabet(b[3..]);
      var v1, v2 := (b[0] % 4) * 16 + b[1] / 16, (b[1] % 16) * 4 + b[2] / 64;
      SextetRoundTrip(b[0] / 4);
      SextetRoundTrip(v1);
      SextetRoundTrip(v2);
      SextetRoundTrip(b[2] % 64);
    } else if |b| == 2 {
      SextetRoundTrip(b[0] / 4);
      SextetRoundTrip((b[0] % 4) * 16 + b[1] / 16);
      SextetRoundTrip((b[1] % 16) * 4);
    } else if |b| == 1 {
      SextetRoundTrip(b[0] / 4);
      SextetRoundTrip((b[0] % 4) * 16);
    }
  }

  /** The examples of section 10 of RFC 4648. */
  lemma Examples()
    ensures Encode([0x66, 0x6F, 0x6F]) == "Zm9v"
    ensures Encode([0x66, 0x6F]) == "Zm8="
    ensures Encode([0x66]) == "Zg=="
  {
  }

  /** The bytes of the credential "123:secret" used as an example of a
      Grafana Cloud instance id and key. */
  lemma CredentialExample()
    ensures Encode([0x31, 0x32, 0x33, 0x3A, 0x73, 0x65, 0x63, 0x72, 0x65, 0x74]) == "MTIzOnNlY3JldA=="
  {
    var b: seq<byte> := [0x31, 0x32, 0x33, 0x3A, 0x73, 0x65, 0x63, 0x72, 0x65, 0x74];
    CredentialGroups();
    EncodeStep(b);
    EncodeStep(b[3..]);
    EncodeStep(b[6..]);
    assert b[3..][3..] == b[6..] && b[6..][3..] == [0x74];
  }

  /** The three full groups of "123:secret" and its final byte. */
  lemma CredentialGroups()
    ensures Group(0x31, 0x32, 0x33) == "MTIz"
    ensures Group(0x3A, 0x73, 0x65) == "OnNl"
    ensures Group(0x63, 0x72, 0x65) == "Y3Jl"
    ensures Encode([0x74]) == "dA=="
  {
  }
}
