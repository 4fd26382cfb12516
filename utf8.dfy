/** `str.encode("utf-8")`, the UTF-8 encoding of RFC 3629 (section 3), with the
    decoder that inverts it. Dafny's `char` is a Unicode scalar value, which is
    exactly the set of code points UTF-8 can encode. */
module Utf8 {
  import opened Common

  /** The one to four bytes of section 3 of RFC 3629 for one code point. */
  function EncodeChar(c: char): (b: seq<Byte>)
    ensures 1 <= |b| <= 4
    ensures c as int < 0x80 <==> |b| == 1
    ensures c as int < 0x80 ==> b == [c as int]
    ensures c as int >= 0x80 ==> forall i :: 0 <= i < |b| ==> b[i] >= 0x80
  {
    var cp := c as int;
    if cp < 0x80 then [cp]
    else if cp < 0x800 then [0xC0 + cp / 64, 0x80 + cp % 64]
    else if cp < 0x10000 then [0xE0 + cp / 4096, 0x80 + (cp / 64) % 64, 0x80 + cp % 64]
    else [0xF0 + cp / 262144, 0x80 + (cp / 4096) % 64, 0x80 + (cp / 64) % 64, 0x80 + cp % 64]
  }

  /** The UTF-8 bytes of a whole string, character after character. */
  function Encode(s: string): seq<Byte>
  {
    if s == [] then [] else EncodeChar(s[0]) + Encode(s[1..])
  }

  predicate IsContinuation(b: Byte) { 0x80 <= b < 0xC0 }

  predicate IsScalar(cp: int) { 0 <= cp < 0xD800 || 0xE000 <= cp < 0x110000 }

  /** The length of the sequence a lead byte announces, or 0 for a byte that
      cannot start one. */
  function SequenceLength(b: Byte): nat
  {
    if b < 0x80 then 1
    else if 0xC0 <= b < 0xE0 then 2
    else if 0xE0 <= b < 0xF0 then 3
    else if 0xF0 <= b < 0xF8 then 4
    else 0
  }

  /** The code point of one well-formed, shortest-form sequence, if `b` is one. */
  function DecodeSequence(b: seq<Byte>): Option<char>
  {
    if |b| == 1 && b[0] < 0x80 then Some(b[0] as char)
    else if |b| == 2 && IsContinuation(b[1]) then
      var cp := (b[0] as int - 0xC0) * 64 + (b[1] as int - 0x80);
      if 0x80 <= cp < 0x800 then Some(cp as char) else None
    else if |b| == 3 && IsContinuation(b[1]) && IsContinuation(b[2]) then
      var cp := (b[0] as int - 0xE0) * 4096 + (b[1] as int - 0x80) * 64 + (b[2] as int - 0x80);
      if 0x800 <= cp < 0x10000 && IsScalar(cp) then Some(cp as char) else None
    else if |b| == 4 && IsContinuation(b[1]) && IsContinuation(b[2]) && IsContinuation(b[3]) then
      var cp := (b[0] as int - 0xF0) * 262144 + (b[1] as int - 0x80) * 4096 + (b[2] as int - 0x80) * 64 + (b[3] as int - 0x80);
      if 0x10000 <= cp < 0x110000 then Some(cp as char) else None
    else None
  }

  /** Strict UTF-8 decoding: `None` for any malformed input. */
  function Decode(b: seq<Byte>): Option<string>
    decreases |b|
  {
    if b == [] then Some([])
    else
      var n := SequenceLength(b[0]);
      if n == 0 || |b| < n then None
      else match DecodeSequence(b[..n])
        case None => None
        case Some(c) =>
          match Decode(b[n..])
          case None => None
          case Some(rest) => Some([c] + rest)
  }

  lemma EncodeCharDecodes(c: char)
    ensures SequenceLength(EncodeChar(c)[0]) == |EncodeChar(c)|
    ensures DecodeSequence(EncodeChar(c)) == Some(c)
  {
    var cp := c as int;
    var q := cp / 64;
    assert cp == 64 * q + cp % 64;
    if cp >= 0x800 {
      var q2 := q / 64;
      assert q == 64 * q2 + q % 64;
      assert cp / 4096 == q2;
      if cp >= 0x10000 {
        assert q2 == 64 * (q2 / 64) + q2 % 64;
        assert cp / 262144 == q2 / 64;
        assert (cp / 4096) % 64 == q2 % 64;
      }
    }
  }

  lemma {:induction false} DecodeAfterChar(c: char, rest: seq<Byte>)
    ensures Decode(EncodeChar(c) + rest) ==
            match Decode(rest) case None => None case Some(t) => Some([c] + t)
  {
    var e := EncodeChar(c);
    var b := e + rest;
    EncodeCharDecodes(c);
    assert b[0] == e[0];
    assert b[..|e|] == e;
    assert b[|e|..] == rest;
  }

  /** Decoding undoes `str.encode("utf-8")`. */
  lemma {:induction false} DecodeEncode(s: string)
    ensures Decode(Encode(s)) == Some(s)
  {
    if s != [] {
      DecodeEncode(s[1..]);
      DecodeAfterChar(s[0], Encode(s[1..]));
      assert [s[0]] + s[1..] == s;
    }
  }

  /** A string of ASCII characters is its own encoding, byte for character. */
  lemma {:induction false} EncodeAscii(s: string)
    requires forall i :: 0 <= i < |s| ==> s[i] as int < 0x80
    ensures |Encode(s)| == |s|
    ensures forall i :: 0 <= i < |s| ==> Encode(s)[i] == s[i] as int
  {
    if s != [] {
      EncodeAscii(s[1..]);
    }
  }
}
