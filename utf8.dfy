/** `String.getBytes()` under the UTF-8 charset: every Unicode scalar value
    becomes one to four bytes, as section 3 of RFC 3629 lays out. The
    encoder's partner is a decoder that, as that section demands, rejects
    ill-formed sequences, overlong forms and surrogates. */
module Utf8 {
  import opened Wrappers

  type byte = x: int | 0 <= x < 256

  /** The bytes of one code point. */
  function EncodeChar(c: char): (b: seq<byte>)
    ensures 1 <= |b| <= 4
    ensures |b| == 1 <==> c as int < 0x80
  {
    var cp := c as int;
    if cp < 0x80 then [cp]
    else if cp < 0x800 then [0xC0 + cp / 0x40, 0x80 + cp % 0x40]
    else if cp < 0x1_0000 then [0xE0 + cp / 0x1000, 0x80 + (cp / 0x40) % 0x40, 0x80 + cp % 0x40]
    else [0xF0 + cp / 0x4_0000, 0x80 + (cp / 0x1000) % 0x40, 0x80 + (cp / 0x40) % 0x40, 0x80 + cp % 0x40]
  }

  /** The bytes of a string, character by character: one to four each. */
  function Encode(s: string): (b: seq<byte>)
    ensures |s| <= |b| <= 4 * |s|
    decreases |s|
  {
    if s == [] then [] else EncodeChar(s[0]) + Encode(s[1..])
  }

  /** The length of the sequence a lead byte announces, 0 for a byte that
      cannot lead one. */
  function SequenceLength(lead: byte): nat {
    if lead < 0x80 then 1
    else if 0xC0 <= lead < 0xE0 then 2
    else if 0xE0 <= lead < 0xF0 then 3
    else if 0xF0 <= lead < 0xF8 then 4
    else 0
  }

  predicate IsContinuation(b: byte) { 0x80 <= b < 0xC0 }

  /** The smallest code point a sequence of `n` bytes may carry: anything
      below it has a shorter encoding. */
  function MinCodePoint(n: nat): int {
    if n <= 1 then 0 else if n == 2 then 0x80 else if n == 3 then 0x800 else 0x1_0000
  }

  /** The code point of one sequence of `n` bytes, `None` when the bytes
      are not continuation bytes, the value is not a scalar value, or the
      sequence is overlong (section 3 of RFC 3629 forbids decoding those). */
  function DecodeSequence(b: seq<byte>): (r: Option<char>)
    requires 1 <= |b| <= 4 && SequenceLength(b[0]) == |b|
  {
    if exists i :: 1 <= i < |b| && !IsContinuation(b[i]) then None
    else
      var cp :=
        if |b| == 1 then b[0] as int
        else if |b| == 2 then (b[0] as int - 0xC0) * 0x40 + (b[1] as int - 0x80)
        else if |b| == 3 then (b[0] as int - 0xE0) * 0x1000 + (b[1] as int - 0x80) * 0x40 + (b[2] as int - 0x80)
        else (b[0] as int - 0xF0) * 0x4_0000 + (b[1] as int - 0x80) * 0x1000 + (b[2] as int - 0x80) * 0x40 + (b[3] as int - 0x80);
      if MinCodePoint(|b|) <= cp && (cp < 0xD800 || 0xE000 <= cp < 0x11_0000) then Some(cp as char) else None
  }

  /** Decodes a byte sequence, `None` when it is not made of complete,
      well-formed sequences. */
  function Decode(b: seq<byte>): (r: Option<string>)
    decreases |b|
  {
    if b == [] then Some([])
    else
      var n := SequenceLength(b[0]);
      if n == 0 || |b| < n then None
      else match DecodeSequence(b[..n])
        case None => None
        case Some(c) =>
          match Decode(b[n..])
          case None => None
          case Some(rest) => Some([c] + rest)
  }

  lemma EncodeCharDecodes(c: char)
    ensures SequenceLength(EncodeChar(c)[0]) == |EncodeChar(c)|
    ensures DecodeSequence(EncodeChar(c)) == Some(c)
  {
    var cp := c as int;
    if cp < 0x80 {
    } else if cp < 0x800 {
      TwoByteDecodes(c);
    } else if cp < 0x1_0000 {
      ThreeByteDecodes(c);
    } else {
      FourByteDecodes(c);
    }
  }

  lemma TwoByteDecodes(c: char)
    requires 0x80 <= c as int < 0x800
    ensures SequenceLength(EncodeChar(c)[0]) == 2
    ensures DecodeSequence(EncodeChar(c)) == Some(c)
  {
    var cp := c as int;
    var q, r := cp / 0x40, cp % 0x40;
    assert cp == q * 0x40 + r;
    var b := EncodeChar(c);
    assert b == [0xC0 + q, 0x80 + r];
    assert IsContinuation(b[1]);
  }

  lemma ThreeByteDecodes(c: char)
    requires 0x800 <= c as int < 0x1_0000
    ensures SequenceLength(EncodeChar(c)[0]) == 3
    ensures DecodeSequence(EncodeChar(c)) == Some(c)
  {
    var cp := c as int;
    var hi, mid, lo := cp / 0x1000, (cp / 0x40) % 0x40, cp % 0x40;
    assert cp / 0x40 == hi * 0x40 + mid;
    assert cp == (cp / 0x40) * 0x40 + lo;
    assert cp == hi * 0x1000 + mid * 0x40 + lo;
    var b := EncodeChar(c);
    assert b == [0xE0 + hi, 0x80 + mid, 0x80 + lo];
    assert IsContinuation(b[1]) && IsContinuation(b[2]);
  }

  lemma FourByteDecodes(c: char)
    requires 0x1_0000 <= c as int
    ensures SequenceLength(EncodeChar(c)[0]) == 4
    ensures DecodeSequence(EncodeChar(c)) == Some(c)
  {
    var cp := c as int;
    assert cp < 0x11_0000;
    var top, hi, mid, lo := cp / 0x4_0000, (cp / 0x1000) % 0x40, (cp / 0x40) % 0x40, cp % 0x40;
    assert cp / 0x1000 == top * 0x40 + hi;
    assert cp / 0x40 == (cp / 0x1000) * 0x40 + mid;
    assert cp == (cp / 0x40) * 0x40 + lo;
    assert cp == top * 0x4_0000 + hi * 0x1000 + mid * 0x40 + lo;
    assert top <= 4;
    var b := EncodeChar(c);
    assert b == [0xF0 + top, 0x80 + hi, 0x80 + mid, 0x80 + lo];
    assert IsContinuation(b[1]) && IsContinuation(b[2]) && IsContinuation(b[3]);
  }

  /** Decoding the UTF-8 form of a string gives the string back. */
  lemma {:induction false} DecodeEncode(s: string)
    ensures Decode(Encode(s)) == Some(s)
    decreases |s|
  {
    if s != [] {
      var head := EncodeChar(s[0]);
      var b := Encode(s);
      EncodeCharDecodes(s[0]);
      assert b[..|head|] == head;
      assert b[|head|..] == Encode(s[1..]);
      DecodeEncode(s[1..]);
      assert [s[0]] + s[1..] == s;
    }
  }

  /** A well-formed two-byte sequence is the encoding of its code point. */
  lemma TwoByteEncodes(b: seq<byte>, c: char)
    requires |b| == 2 && SequenceLength(b[0]) == 2 && DecodeSequence(b) == Some(c)
    ensures EncodeChar(c) == b
  {
    assert IsContinuation(b[1]);
    var cp := c as int;
    var hi: int, lo: int := b[0] - 0xC0, b[1] - 0x80;
    assert cp == hi * 0x40 + lo && 0 <= lo < 0x40;
    assert cp / 0x40 == hi && cp % 0x40 == lo;
    assert 0x80 <= cp < 0x800;
  }

  /** A well-formed three-byte sequence is the encoding of its code point. */
  lemma ThreeByteEncodes(b: seq<byte>, c: char)
    requires |b| == 3 && SequenceLength(b[0]) == 3 && DecodeSequence(b) == Some(c)
    ensures EncodeChar(c) == b
  {
    assert IsContinuation(b[1]) && IsContinuation(b[2]);
    var cp := c as int;
    var hi: int, mid: int, lo: int := b[0] - 0xE0, b[1] - 0x80, b[2] - 0x80;
    assert cp == hi * 0x1000 + mid * 0x40 + lo && 0 <= mid < 0x40 && 0 <= lo < 0x40;
    assert cp / 0x40 == hi * 0x40 + mid && cp % 0x40 == lo;
    assert cp / 0x1000 == hi && (cp / 0x40) % 0x40 == mid;
    assert 0x800 <= cp < 0x1_0000;
  }

  /** A well-formed four-byte sequence is the encoding of its code point. */
  lemma FourByteEncodes(b: seq<byte>, c: char)
    requires |b| == 4 && SequenceLength(b[0]) == 4 && DecodeSequence(b) == Some(c)
    ensures EncodeChar(c) == b
  {
    assert IsContinuation(b[1]) && IsContinuation(b[2]) && IsContinuation(b[3]);
    var cp := c as int;
    var top: int, hi: int, mid: int, lo: int := b[0] - 0xF0, b[1] - 0x80, b[2] - 0x80, b[3] - 0x80;
    assert cp == top * 0x4_0000 + hi * 0x1000 + mid * 0x40 + lo;
    assert 0 <= hi < 0x40 && 0 <= mid < 0x40 && 0 <= lo < 0x40;
    assert cp / 0x40 == top * 0x1000 + hi * 0x40 + mid && cp % 0x40 == lo;
    assert cp / 0x1000 == top * 0x40 + hi && (cp / 0x40) % 0x40 == mid;
    assert cp / 0x4_0000 == top && (cp / 0x1000) % 0x40 == hi;
    assert 0x1_0000 <= cp;
  }

  /** A well-formed sequence is the encoding of the character it decodes to. */
  lemma SequenceEncodes(b: seq<byte>, c: char)
    requires 1 <= |b| <= 4 && SequenceLength(b[0]) == |b| && DecodeSequence(b) == Some(c)
    ensures EncodeChar(c) == b
  {
    if |b| == 1 {
      assert b == [c as int];
    } else if |b| == 2 {
      TwoByteEncodes(b, c);
    } else if |b| == 3 {
      ThreeByteEncodes(b, c);
    } else {
      FourByteEncodes(b, c);
    }
  }

  /** The converse of `DecodeEncode`: bytes the decoder accepts are the
      UTF-8 form of the string it returns, so the encoder's shortest form is
      the only one it reads. */
  lemma {:induction false} EncodeDecode(b: seq<byte>, s: string)
    requires Decode(b) == Some(s)
    ensures Encode(s) == b
    decreases |b|
  {
    if b != [] {
      var n, c, rest := DecodeStep(b, s);
      SequenceEncodes(b[..n], c);
      EncodeDecode(b[n..], rest);
      EncodeJoins(b, n, c, rest);
    }
  }

  /** Splicing the encoding of one character before the encoding of the rest
      gives the bytes back. */
  lemma EncodeJoins(b: seq<byte>, n: nat, c: char, rest: string)
    requires n <= |b| && EncodeChar(c) == b[..n] && Encode(rest) == b[n..]
    ensures Encode([c] + rest) == b
  {
    var s := [c] + rest;
    assert s[0] == c && s[1..] == rest;
    assert b == b[..n] + b[n..];
  }

  /** What the decoder does with non-empty bytes: one sequence, then the
      decoding of the rest. */
  lemma DecodeStep(b: seq<byte>, s: string) returns (n: nat, c: char, rest: string)
    requires b != [] && Decode(b) == Some(s)
    ensures n == SequenceLength(b[0]) && 1 <= n <= |b| && n <= 4
    ensures DecodeSequence(b[..n]) == Some(c) && Decode(b[n..]) == Some(rest)
    ensures s == [c] + rest
  {
    n := SequenceLength(b[0]);
    c := DecodeSequence(b[..n]).value;
    rest := Decode(b[n..]).value;
  }

  /** Characters below U+0080 are one byte each, with the character's code. */
  lemma {:induction false} EncodeAscii(s: string)
    requires forall i :: 0 <= i < |s| ==> s[i] as int < 0x80
    ensures |Encode(s)| == |s|
    ensures forall i :: 0 <= i < |s| ==> Encode(s)[i] == s[i] as int
    decreases |s|
  {
    if s != [] {
      EncodeAscii(s[1..]);
    }
  }

  /** The credential "123:secret" is ASCII, one byte per character. */
  lemma CredentialBytes()
    ensures Encode("123:secret") == [0x31, 0x32, 0x33, 0x3A, 0x73, 0x65, 0x63, 0x72, 0x65, 0x74]
  {
    EncodeAscii("123:secret");
  }
}
