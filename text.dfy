/** The small pieces of Python text handling the generator relies on:
    `%X`/`%0NX`/`hex()`/`%s` formatting of integers, `int(s)` and `int(s, 16)`
    parsing, `str.split()`, the substring test `p in s` and `sep.join(...)`.
    Every formatter comes with the parser that inverts it. */
module Text {
  import opened Common

  // ---------------------------------------------------------------- digits

  predicate IsDecimalDigit(c: char) { '0' <= c <= '9' }

  predicate IsHexDigit(c: char) { '0' <= c <= '9' || 'a' <= c <= 'f' || 'A' <= c <= 'F' }

  predicate AllHex(s: string) { forall i :: 0 <= i < |s| ==> IsHexDigit(s[i]) }

  predicate AllDecimal(s: string) { forall i :: 0 <= i < |s| ==> IsDecimalDigit(s[i]) }

  /** The digit for `d`, in the case `%X` (upper) or `%x`/`hex()` (lower) uses. */
  function HexDigit(d: int, upper: bool): (c: char)
    requires 0 <= d < 16
    ensures IsHexDigit(c)
  {
    if d < 10 then ('0' as int + d) as char
    else if upper then ('A' as int + d - 10) as char
    else ('a' as int + d - 10) as char
  }

  function HexDigitValue(c: char): (v: int)
    requires IsHexDigit(c)
    ensures 0 <= v < 16
  {
    if '0' <= c <= '9' then c as int - '0' as int
    else if 'a' <= c <= 'f' then c as int - 'a' as int + 10
    else c as int - 'A' as int + 10
  }

  lemma HexDigitInverse(d: int, upper: bool)
    requires 0 <= d < 16
    ensures HexDigitValue(HexDigit(d, upper)) == d
  {
  }

  /** The number a string of hex digits denotes, most significant digit first. */
  function HexValue(s: string): nat
    requires AllHex(s)
  {
    if s == [] then 0 else 16 * HexValue(s[..|s| - 1]) + HexDigitValue(s[|s| - 1])
  }

  function Pow16(k: nat): (p: nat)
    ensures p >= 1
  {
    if k == 0 then 1 else 16 * Pow16(k - 1)
  }

  lemma {:induction false} HexValueBound(s: string)
    requires AllHex(s)
    ensures HexValue(s) < Pow16(|s|)
  {
    if s != [] {
      HexValueBound(s[..|s| - 1]);
    }
  }

  // -------------------------------------------------------- hex formatting

  /** `%X` / `%x` of a non-negative integer: the shortest digit string, "0" for zero. */
  function Hex(n: nat, upper: bool): (s: string)
    ensures |s| >= 1 && AllHex(s)
  {
    if n < 16 then [HexDigit(n, upper)] else Hex(n / 16, upper) + [HexDigit(n % 16, upper)]
  }

  lemma {:induction false} HexRoundTrip(n: nat, upper: bool)
    ensures HexValue(Hex(n, upper)) == n
  {
    var s := Hex(n, upper);
    if n < 16 {
      assert s[..0] == [];
    } else {
      HexRoundTrip(n / 16, upper);
      assert s[..|s| - 1] == Hex(n / 16, upper);
    }
  }

  /** `Hex` uses at most `k` digits exactly when the value is below 16^k. */
  lemma {:induction false} HexLength(n: nat, upper: bool, k: nat)
    requires k >= 1 || n >= 1
    ensures |Hex(n, upper)| <= k <==> n < Pow16(k)
  {
    if n < 16 {
      if k >= 1 { PowMonotone(1, k); }
    } else if k > 0 {
      HexLength(n / 16, upper, k - 1);
      var p := Pow16(k - 1);
      assert n / 16 < p <==> n < 16 * p;
    }
  }

  lemma {:induction false} PowMonotone(i: nat, j: nat)
    requires i <= j
    ensures Pow16(i) <= Pow16(j)
  {
    if i < j { PowMonotone(i, j - 1); }
  }

  /** Python's `"%0*X" % (width, n)`: the digits of `n`, padded on the left with
      zeros to at least `width` characters. */
  function FormatHex(n: nat, width: nat, upper: bool): (s: string)
    ensures AllHex(s)
  {
    var digits := Hex(n, upper);
    if |digits| >= width then digits else seq(width - |digits|, _ => '0') + digits
  }

  lemma {:induction false} LeadingZeros(z: nat, s: string)
    requires AllHex(s)
    ensures AllHex(seq(z, _ => '0') + s)
    ensures HexValue(seq(z, _ => '0') + s) == HexValue(s)
  {
    var t := seq(z, _ => '0') + s;
    if s == [] {
      assert t == seq(z, _ => '0');
      ZerosValue(z);
    } else {
      LeadingZeros(z, s[..|s| - 1]);
      assert t[..|t| - 1] == seq(z, _ => '0') + s[..|s| - 1];
    }
  }

  lemma {:induction false} ZerosValue(z: nat)
    ensures AllHex(seq(z, _ => '0')) && HexValue(seq(z, _ => '0')) == 0
  {
    if z > 0 {
      ZerosValue(z - 1);
      assert seq(z, _ => '0')[..z - 1] == seq(z - 1, _ => '0');
    }
  }

  /** `%0NX` can be read back, and has exactly `width` digits when the value fits. */
  lemma FormatHexRoundTrip(n: nat, width: nat, upper: bool)
    ensures HexValue(FormatHex(n, width, upper)) == n
    ensures width >= 1 && n < Pow16(width) ==> |FormatHex(n, width, upper)| == width
    ensures |FormatHex(n, width, upper)| >= width
  {
    var digits := Hex(n, upper);
    HexRoundTrip(n, upper);
    if width >= 1 || n >= 1 {
      HexLength(n, upper, width);
    }
    if |digits| < width {
      LeadingZeros(width - |digits|, digits);
    }
  }

  /** `%02X` of a byte is two digits that read back as the byte. */
  lemma ByteHex(b: nat)
    requires b < 256
    ensures |FormatHex(b, 2, true)| == 2 && HexValue(FormatHex(b, 2, true)) == b
  {
    FormatHexRoundTrip(b, 2, true);
    assert Pow16(2) == 256;
  }

  /** Only digits and upper-case letters, as `%X` writes them. */
  predicate UpperHex(s: string) { forall i :: 0 <= i < |s| ==> '0' <= s[i] <= '9' || 'A' <= s[i] <= 'F' }

  lemma {:induction false} HexUpper(n: nat)
    ensures UpperHex(Hex(n, true))
  {
    if n >= 16 {
      HexUpper(n / 16);
    }
  }

  /** `%0NX` writes upper-case digits only. */
  lemma FormatHexUpper(n: nat, width: nat)
    ensures UpperHex(FormatHex(n, width, true))
  {
    HexUpper(n);
  }

  /** Python's `hex(n)` for `n >= 0`: `0x` and the shortest lower-case digits. */
  function PyHex(n: nat): (s: string)
    ensures |s| >= 3 && s[..2] == "0x"
  {
    "0x" + Hex(n, false)
  }

  lemma PyHexRoundTrip(n: nat)
    ensures AllHex(PyHex(n)[2..]) && HexValue(PyHex(n)[2..]) == n
  {
    assert PyHex(n)[2..] == Hex(n, false);
    HexRoundTrip(n, false);
  }

  // ---------------------------------------------------- decimal formatting

  function DecimalValue(s: string): nat
    requires AllDecimal(s)
  {
    if s == [] then 0 else 10 * DecimalValue(s[..|s| - 1]) + (s[|s| - 1] as int - '0' as int)
  }

  /** `"%s" % n` for `n >= 0`. */
  function Decimal(n: nat): (s: string)
    ensures |s| >= 1 && AllDecimal(s)
  {
    if n < 10 then [('0' as int + n) as char]
    else Decimal(n / 10) + [('0' as int + n % 10) as char]
  }

  lemma {:induction false} DecimalRoundTrip(n: nat)
    ensures DecimalValue(Decimal(n)) == n
  {
    var s := Decimal(n);
    if n < 10 {
      assert s[..0] == [];
    } else {
      DecimalRoundTrip(n / 10);
      assert s[..|s| - 1] == Decimal(n / 10);
    }
  }

  /** `str(n)` for any integer. */
  function IntToString(n: int): string
  {
    if n < 0 then "-" + Decimal(-n) else Decimal(n)
  }

  /** Python's `int(s)` on a token: an optional sign and at least one decimal digit.
      Anything else raises `ValueError`. */
  function ParseInt(s: string): (r: Result<int>)
    ensures r.Err? ==> r.error == BadInteger(s)
  {
    if |s| >= 1 && (s[0] == '-' || s[0] == '+') then
      if |s| >= 2 && AllDecimal(s[1..]) then
        var magnitude: int := DecimalValue(s[1..]);
        Ok(if s[0] == '-' then -magnitude else magnitude)
      else Err(BadInteger(s))
    else if |s| >= 1 && AllDecimal(s) then Ok(DecimalValue(s))
    else Err(BadInteger(s))
  }

  lemma ParseIntRoundTrip(n: int)
    ensures ParseInt(IntToString(n)) == Ok(n)
  {
    var s := IntToString(n);
    if n < 0 {
      assert s[1..] == Decimal(-n);
      DecimalRoundTrip(-n);
    } else {
      DecimalRoundTrip(n);
    }
  }

  // ------------------------------------------------------------ splitting

  /** Python's `str.isspace()` for one character. */
  predicate IsSpace(c: char)
  {
    ('\t' <= c <= '\r') || ('\U{1c}' <= c <= ' ') || c == '\U{85}' || c == '\U{a0}'
    || c == '\U{1680}' || ('\U{2000}' <= c <= '\U{200a}') || c == '\U{2028}' || c == '\U{2029}'
    || c == '\U{202f}' || c == '\U{205f}' || c == '\U{3000}'
  }

  /** The number of leading characters that are not white space. */
  function WordLength(s: string): (n: nat)
    ensures n <= |s|
    ensures forall i :: 0 <= i < n ==> !IsSpace(s[i])
    ensures n < |s| ==> IsSpace(s[n])
  {
    if s == [] || IsSpace(s[0]) then 0 else 1 + WordLength(s[1..])
  }

  /** Python's `s.split()` with no argument: the maximal runs of non-space characters. */
  function Split(s: string): (words: seq<string>)
    decreases |s|
  {
    if s == [] then []
    else if IsSpace(s[0]) then Split(s[1..])
    else
      var n := WordLength(s);
      [s[..n]] + Split(s[n..])
  }

  /** Every word of `s.split()` is non-empty and holds no white space. */
  lemma {:induction false} SplitWords(s: string)
    ensures forall k :: 0 <= k < |Split(s)| ==> |Split(s)[k]| >= 1
    ensures forall k, i :: 0 <= k < |Split(s)| && 0 <= i < |Split(s)[k]| ==> !IsSpace(Split(s)[k][i])
    decreases |s|
  {
    if s == [] {
    } else if IsSpace(s[0]) {
      SplitWords(s[1..]);
    } else {
      SplitWords(s[WordLength(s)..]);
    }
  }

  /** `p in s` for strings: `p` occurs somewhere in `s`. */
  predicate Contains(s: string, p: string)
    decreases |s|
  {
    if |s| < |p| then false else s[..|p|] == p || Contains(s[1..], p)
  }

  /** `sep.join(parts)`. */
  function Join(parts: seq<string>, sep: string): string
  {
    if parts == [] then "" else if |parts| == 1 then parts[0] else parts[0] + sep + Join(parts[1..], sep)
  }

  /** The concatenation of `parts`: `''.join(parts)`. */
  function Concat(parts: seq<string>): string
  {
    if parts == [] then "" else Concat(parts[..|parts| - 1]) + parts[|parts| - 1]
  }

  /** Appending a part appends its text. */
  lemma ConcatAppend(parts: seq<string>, p: string)
    ensures Concat(parts + [p]) == Concat(parts) + p
  {
    assert (parts + [p])[..|parts|] == parts;
  }
}
