/** `encode_as_c_string` in its two variants, and the C99 reading of a string
    literal body (section 6.4.4.4 of ISO/IEC 9899:1999) they are checked against.
    That reading applies the escape rules only: trigraph replacement (section
    5.2.1.1, translation phase 1) is not part of it, so every "reads back"
    below is about a compiler that does not replace trigraphs, as the GNU
    dialects and C++17 do not.

    The current variant writes bytes 32..126 as themselves and every other byte
    as a backslash and exactly three octal digits. The older variant writes bytes
    32..127 as themselves and every other byte as `\x` and the unpadded lower-case
    hex digits of `hex()`. A C compiler reads a hex escape greedily, so the older
    form is misread as soon as an escape is followed by a hex-digit character;
    an octal escape stops after three digits, so the current form is not. */
module CString {
  import opened Common
  import opened Text
  import Utf8

  // ------------------------------------------------------- C99 literal body

  predicate IsOctalDigit(c: char) { '0' <= c <= '7' }

  predicate AllOctal(s: string) { forall i :: 0 <= i < |s| ==> IsOctalDigit(s[i]) }

  function OctalValue(s: string): nat
    requires AllOctal(s)
  {
    if s == [] then 0 else 8 * OctalValue(s[..|s| - 1]) + (s[|s| - 1] as int - '0' as int)
  }

  /** How many octal digits an escape `\ooo` takes from `t`: one to three. */
  function OctalRun(t: string): (n: nat)
    ensures n <= 3 && n <= |t| && AllOctal(t[..n])
    ensures n < 3 && n < |t| ==> !IsOctalDigit(t[n])
  {
    if |t| >= 1 && IsOctalDigit(t[0]) then
      if |t| >= 2 && IsOctalDigit(t[1]) then
        if |t| >= 3 && IsOctalDigit(t[2]) then 3 else 2
      else 1
    else 0
  }

  /** How many hex digits an escape `\x...` takes from `t`: all of them. */
  function HexRun(t: string): (n: nat)
    ensures n <= |t| && AllHex(t[..n])
    ensures n < |t| ==> !IsHexDigit(t[n])
  {
    if t == [] || !IsHexDigit(t[0]) then 0
    else
      var n := 1 + HexRun(t[1..]);
      assert t[..n] == [t[0]] + t[1..][..n - 1];
      n
  }

  /** The values of the simple escape sequences `\' \" \? \\ \a \b \f \n \r \t \v`. */
  function SimpleEscape(c: char): Option<int>
  {
    if c == '\'' then Some(39) else if c == '"' then Some(34) else if c == '?' then Some(63)
    else if c == '\\' then Some(92) else if c == 'a' then Some(7) else if c == 'b' then Some(8)
    else if c == 'f' then Some(12) else if c == 'n' then Some(10) else if c == 'r' then Some(13)
    else if c == 't' then Some(9) else if c == 'v' then Some(11) else None
  }

  function Prepend(v: int, r: Option<seq<int>>): Option<seq<int>>
  {
    match r case None => None case Some(vs) => Some([v] + vs)
  }

  /** The char values a C compiler reads from the text between the quotes of a
      string literal, or `None` when that text is not a valid literal body
      (an unescaped `"` or new-line, a dangling or unknown escape). */
  function CDecode(s: string): Option<seq<int>>
    decreases |s|
  {
    if s == [] then Some([])
    else if s[0] == '"' || s[0] == '\n' then None
    else if s[0] != '\\' then Prepend(s[0] as int, CDecode(s[1..]))
    else if |s| < 2 then None
    else if IsOctalDigit(s[1]) then
      var digits := s[1..];
      var n := OctalRun(digits);
      Prepend(OctalValue(digits[..n]), CDecode(digits[n..]))
    else if s[1] == 'x' then
      var digits := s[2..];
      var n := HexRun(digits);
      if n == 0 then None else Prepend(HexValue(digits[..n]), CDecode(digits[n..]))
    else match SimpleEscape(s[1])
      case None => None
      case Some(v) => Prepend(v, CDecode(s[2..]))
  }

  // ------------------------------------- current variant: octal escapes

  function OctalDigit(d: int): (c: char)
    requires 0 <= d < 8
    ensures IsOctalDigit(c)
  {
    ('0' as int + d) as char
  }

  /** `"\\%03o" % b`: a backslash and the three octal digits of a byte. */
  function OctalEscape(b: Byte): (e: string)
    ensures |e| == 4 && e[0] == '\\' && AllOctal(e[1..])
  {
    ['\\', OctalDigit(b / 64), OctalDigit((b / 8) % 8), OctalDigit(b % 8)]
  }

  predicate IsPrintable(b: Byte) { 32 <= b <= 126 }

  /** What the current encoder emits for one byte. */
  function EncodeByte(b: Byte): string
  {
    if IsPrintable(b) then [b as char] else OctalEscape(b)
  }

  /** What the current encoder emits for a byte string. */
  function EncodeBytes(bs: seq<Byte>): string
  {
    if bs == [] then "" else EncodeByte(bs[0]) + EncodeBytes(bs[1..])
  }

  /** `encode_as_c_string`: encode the string as UTF-8 and emit each byte in turn,
      collecting the pieces in a list that is joined at the end. */
  method EncodeAsCString(s: string) returns (r: string)
    ensures r == EncodeBytes(Utf8.Encode(s))
  {
    var bytes := Utf8.Encode(s);
    var result: seq<string> := [];
    for i := 0 to |bytes|
      invariant Concat(result) + EncodeBytes(bytes[i..]) == EncodeBytes(bytes)
    {
      var ordC := bytes[i];
      var piece: string;
      if 32 <= ordC && ordC <= 126 {
        piece := [ordC as char];
      } else {
        piece := OctalEscape(ordC);
      }
      assert piece == EncodeByte(ordC);
      EncodeBytesStep(bytes, i);
      PieceAppended(result, piece, EncodeBytes(bytes[i + 1..]), EncodeBytes(bytes));
      result := result + [piece];
    }
    assert bytes[|bytes|..] == [];
    r := Concat(result);
  }

  /** Moving the next piece from the text still to emit onto the list. */
  lemma PieceAppended(result: seq<string>, piece: string, rest: string, whole: string)
    requires Concat(result) + (piece + rest) == whole
    ensures Concat(result + [piece]) + rest == whole
  {
    ConcatAppend(result, piece);
  }

  lemma EncodeBytesStep(bs: seq<Byte>, i: nat)
    requires i < |bs|
    ensures EncodeBytes(bs[i..]) == EncodeByte(bs[i]) + EncodeBytes(bs[i + 1..])
  {
    assert bs[i..][1..] == bs[i + 1..];
  }

  /** Byte 10 (new-line) is written as `\012`, neither `\n` nor `\x0a`. */
  lemma NewlineIsOctal()
    ensures EncodeByte(10) == "\\012"
  {
  }

  /** An escape's three digits spell the byte's value in octal. */
  lemma OctalEscapeValue(b: Byte)
    ensures OctalValue(OctalEscape(b)[1..]) == b
  {
    var e := OctalEscape(b)[1..];
    assert e[..2][..1] == e[..1];
    assert e[..2] == e[..|e| - 1];
    assert OctalValue(e[..1]) == b / 64;
  }

  function CountPrintable(bs: seq<Byte>): (n: nat)
    ensures n <= |bs|
  {
    if bs == [] then 0 else (if IsPrintable(bs[0]) then 1 else 0) + CountPrintable(bs[1..])
  }

  /** One character per printable byte, four per other byte, and nothing but
      printable ASCII in the output. */
  lemma {:induction false} EncodeBytesShape(bs: seq<Byte>)
    ensures |EncodeBytes(bs)| == CountPrintable(bs) + 4 * (|bs| - CountPrintable(bs))
    ensures forall i :: 0 <= i < |EncodeBytes(bs)| ==> 32 <= EncodeBytes(bs)[i] as int <= 126
  {
    if bs != [] {
      EncodeBytesShape(bs[1..]);
      var head := EncodeByte(bs[0]);
      assert forall i :: 0 <= i < |head| ==> 32 <= head[i] as int <= 126;
    }
  }

  /** A backslash and three octal digits are one value, whatever follows. */
  lemma OctalDigitsDecode(d: string, rest: string)
    requires |d| == 3 && AllOctal(d)
    ensures CDecode(['\\'] + d + rest) == Prepend(OctalValue(d), CDecode(rest))
  {
    var t := ['\\'] + d + rest;
    var digits := t[1..];
    assert digits == d + rest;
    assert OctalRun(digits) == 3;
    assert digits[..3] == d;
    assert digits[3..] == rest;
  }

  lemma OctalEscapeDecodes(b: Byte, rest: string)
    ensures CDecode(OctalEscape(b) + rest) == Prepend(b, CDecode(rest))
  {
    var e := OctalEscape(b);
    assert e == ['\\'] + e[1..];
    OctalDigitsDecode(e[1..], rest);
    OctalEscapeValue(b);
  }

  /** With no `"` and no backslash among the bytes, a C compiler that does not
      replace trigraphs reads back exactly the bytes that were encoded. */
  lemma {:induction false} EncodeBytesRoundTrip(bs: seq<Byte>)
    requires forall i :: 0 <= i < |bs| ==> bs[i] != 34 && bs[i] != 92
    ensures CDecode(EncodeBytes(bs)) == Some(bs)
  {
    if bs != [] {
      EncodeBytesRoundTrip(bs[1..]);
      var rest := EncodeBytes(bs[1..]);
      if IsPrintable(bs[0]) {
        var t := [bs[0] as char] + rest;
        assert t[1..] == rest;
      } else {
        OctalEscapeDecodes(bs[0], rest);
      }
      assert [bs[0]] + bs[1..] == bs;
    }
  }

  /** A literal backslash is not escaped: the bytes of `\123` come back as
      the single byte 83. */
  lemma BackslashIsMisread()
    ensures EncodeBytes([92, 49, 50, 51]) == "\\123"
    ensures CDecode(EncodeBytes([92, 49, 50, 51])) == Some([83])
  {
    var s := EncodeBytes([92, 49, 50, 51]);
    assert s == "\\123";
    assert s == ['\\'] + "123" + "";
    OctalDigitsDecode("123", "");
    assert CDecode("") == Some([]);
    assert "123"[..2] == "12" && "12"[..1] == "1" && "1"[..0] == "";
    assert OctalValue("123") == 83;
    assert CDecode(s) == Prepend(83, Some([]));
    assert [83] + [] == [83];
  }

  /** A literal `"` is not escaped either: it ends the C literal early. */
  lemma QuoteBreaksLiteral()
    ensures EncodeBytes([34]) == "\""
    ensures CDecode(EncodeBytes([34])) == None
  {
  }

  /** `?` is printable and passes through, so a `??/` trigraph in a message
      reaches the C text unchanged; a compiler that replaces trigraphs reads
      it as a backslash. */
  lemma TrigraphPassesThrough()
    ensures EncodeBytes([63, 63, 47, 110]) == "??/n"
  {
    assert EncodeBytes([63, 63, 47, 110]) == EncodeByte(63) + EncodeBytes([63, 47, 110]);
  }

  lemma {:induction false} EncodeAvoidsQuoteAndBackslash(s: string)
    requires forall i :: 0 <= i < |s| ==> s[i] != '"' && s[i] != '\\'
    ensures forall i :: 0 <= i < |Utf8.Encode(s)| ==> Utf8.Encode(s)[i] != 34 && Utf8.Encode(s)[i] != 92
  {
    if s != [] {
      EncodeAvoidsQuoteAndBackslash(s[1..]);
    }
  }

  /** End to end: for a message without `"` and backslash, the reading of the
      emitted literal by a compiler that does not replace trigraphs is the
      message's UTF-8, which decodes back to the message. */
  lemma EncodeAsCStringRoundTrip(s: string)
    requires forall i :: 0 <= i < |s| ==> s[i] != '"' && s[i] != '\\'
    ensures CDecode(EncodeBytes(Utf8.Encode(s))) == Some(Utf8.Encode(s))
    ensures Utf8.Decode(Utf8.Encode(s)) == Some(s)
  {
    EncodeAvoidsQuoteAndBackslash(s);
    EncodeBytesRoundTrip(Utf8.Encode(s));
    Utf8.DecodeEncode(s);
  }

  // ------------------------------------------- older variant: hex escapes

  predicate IsRawInOldVariant(b: Byte) { 32 <= b <= 127 }

  /** `"\\" + hex(b)[1:]`: a backslash, `x` and the shortest lower-case digits. */
  function HexEscape(b: Byte): (e: string)
    ensures |e| >= 3 && e[..2] == "\\x" && AllHex(e[2..])
  {
    var digits := Hex(b, false);
    assert ("\\x" + digits)[2..] == digits;
    "\\x" + digits
  }

  function EncodeByteOld(b: Byte): string
  {
    if IsRawInOldVariant(b) then [b as char] else HexEscape(b)
  }

  function EncodeBytesOld(bs: seq<Byte>): string
  {
    if bs == [] then "" else EncodeByteOld(bs[0]) + EncodeBytesOld(bs[1..])
  }

  lemma PyHexEscape(b: Byte)
    ensures "\\" + PyHex(b)[1..] == HexEscape(b)
  {
    assert PyHex(b)[1..] == "x" + Hex(b, false);
  }

  /** `encode_as_c_string` of the older script. */
  method EncodeAsCStringOld(s: string) returns (r: string)
    ensures r == EncodeBytesOld(Utf8.Encode(s))
  {
    var bytes := Utf8.Encode(s);
    var result: seq<string> := [];
    for i := 0 to |bytes|
      invariant Concat(result) + EncodeBytesOld(bytes[i..]) == EncodeBytesOld(bytes)
    {
      var ordC := bytes[i];
      var piece: string;
      if 32 <= ordC && ordC <= 127 {
        piece := [ordC as char];
      } else {
        var hexC := PyHex(ordC);
        PyHexEscape(ordC);
        piece := "\\" + hexC[1..];
      }
      assert piece == EncodeByteOld(ordC);
      EncodeBytesOldStep(bytes, i);
      PieceAppended(result, piece, EncodeBytesOld(bytes[i + 1..]), EncodeBytesOld(bytes));
      result := result + [piece];
    }
    assert bytes[|bytes|..] == [];
    r := Concat(result);
  }

  lemma EncodeBytesOldStep(bs: seq<Byte>, i: nat)
    requires i < |bs|
    ensures EncodeBytesOld(bs[i..]) == EncodeByteOld(bs[i]) + EncodeBytesOld(bs[i + 1..])
  {
    assert bs[i..][1..] == bs[i + 1..];
  }

  /** DEL passes through raw; byte 10 becomes `\xa` and byte 0 `\x0`; every
      escape is three characters below 16 and four from 16 on. */
  lemma OldEscapes(b: Byte)
    ensures EncodeByteOld(127) == [127 as char]
    ensures EncodeByteOld(10) == "\\xa" && EncodeByteOld(0) == "\\x0"
    ensures !IsRawInOldVariant(b) ==> |EncodeByteOld(b)| == (if b < 16 then 3 else 4)
  {
    if !IsRawInOldVariant(b) {
      HexLength(b, false, 1);
      HexLength(b, false, 2);
    }
  }

  /** The pitfall: new-line followed by `A` is emitted as `\xaA`, which a C
      compiler reads as the single value 0xAA. */
  lemma HexEscapeMerges()
    ensures EncodeBytesOld([10, 65]) == "\\xaA"
    ensures CDecode(EncodeBytesOld([10, 65])) == Some([0xAA])
  {
    assert Hex(10, false) == "a";
    assert EncodeBytesOld([65]) == "A";
    var s := EncodeBytesOld([10, 65]);
    assert s == "\\xaA";
    assert s == "\\x" + "aA" + "";
    HexDigitsDecode("aA", "");
    assert CDecode("") == Some([]);
    assert "aA"[..1] == "a" && "a"[..0] == "";
    assert HexValue("aA") == 0xAA;
    assert CDecode(s) == Prepend(0xAA, Some([]));
    assert [0xAA] + [] == [0xAA];
  }

  predicate IsHexDigitByte(b: Byte) { b < 128 && IsHexDigit(b as char) }

  /** No escaped byte is directly followed by a byte written as a hex digit. */
  predicate NoEscapeBeforeHexDigit(bs: seq<Byte>)
  {
    |bs| < 2 || ((IsRawInOldVariant(bs[0]) || !IsHexDigitByte(bs[1])) && NoEscapeBeforeHexDigit(bs[1..]))
  }

  lemma {:induction false} HexRunStops(h: string, rest: string)
    requires AllHex(h)
    requires rest == [] || !IsHexDigit(rest[0])
    ensures HexRun(h + rest) == |h|
    decreases |h|
  {
    if h != [] {
      HexRunStops(h[1..], rest);
      assert (h + rest)[1..] == h[1..] + rest;
    } else {
      assert h + rest == rest;
    }
  }

  lemma {:induction false} OldEncodingStartsWith(bs: seq<Byte>)
    requires |bs| >= 1
    ensures |EncodeBytesOld(bs)| >= 1
    ensures EncodeBytesOld(bs)[0] == (if IsRawInOldVariant(bs[0]) then bs[0] as char else '\\')
  {
  }

  /** `\x` and a run of hex digits not followed by another one are one value. */
  lemma HexDigitsDecode(d: string, rest: string)
    requires |d| >= 1 && AllHex(d)
    requires rest == [] || !IsHexDigit(rest[0])
    ensures CDecode("\\x" + d + rest) == Prepend(HexValue(d), CDecode(rest))
  {
    var t := "\\x" + d + rest;
    assert t[2..] == d + rest;
    HexRunStops(d, rest);
    assert (d + rest)[..|d|] == d && (d + rest)[|d|..] == rest;
    HexEscapeStep(t);
  }

  /** How `\x` and the digits after it are read: one step of `CDecode`. */
  lemma HexEscapeStep(t: string)
    requires |t| >= 2 && t[0] == '\\' && t[1] == 'x'
    ensures var n := HexRun(t[2..]);
      CDecode(t) == if n == 0 then None else Prepend(HexValue(t[2..][..n]), CDecode(t[2..][n..]))
  {
  }

  lemma HexEscapeDecodes(b: Byte, rest: string)
    requires rest == [] || !IsHexDigit(rest[0])
    ensures CDecode(HexEscape(b) + rest) == Prepend(b, CDecode(rest))
  {
    HexDigitsDecode(Hex(b, false), rest);
    HexRoundTrip(b, false);
  }

  /** The older form reads back correctly when the pitfall is avoided and
      there is no `"` or backslash; `HexEscapeMerges` shows a case where it is
      not avoided and the reading differs. */
  lemma {:induction false} EncodeBytesOldRoundTrip(bs: seq<Byte>)
    requires forall i :: 0 <= i < |bs| ==> bs[i] != 34 && bs[i] != 92
    requires NoEscapeBeforeHexDigit(bs)
    ensures CDecode(EncodeBytesOld(bs)) == Some(bs)
  {
    if bs != [] {
      EncodeBytesOldRoundTrip(bs[1..]);
      var rest := EncodeBytesOld(bs[1..]);
      var b := bs[0];
      if IsRawInOldVariant(b) {
        var t := [b as char] + rest;
        assert t[1..] == rest;
      } else {
        if |bs| >= 2 {
          OldEncodingStartsWith(bs[1..]);
        }
        HexEscapeDecodes(b, rest);
      }
      assert [b] + bs[1..] == bs;
    }
  }
}
