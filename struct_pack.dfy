/** Python's `struct.pack` and `struct.unpack` for the big-endian (`>`) formats the
    generator uses, built from three codes: `B` (one unsigned byte, 0..255),
    `b` (one signed byte, -128..127, two's complement) and `H` (two bytes,
    0..65535, high byte first). A value outside its code's range makes
    `struct.pack` raise `struct.error`. */
module StructPack {
  import opened Common

  datatype Code = UnsignedByte | SignedByte | UnsignedShort

  /** `">BBBbbBHHBBbbbbb"`, the u8glib font header. */
  const HeaderFormat: seq<Code> := [UnsignedByte, UnsignedByte, UnsignedByte, SignedByte, SignedByte,
    UnsignedByte, UnsignedShort, UnsignedShort, UnsignedByte, UnsignedByte,
    SignedByte, SignedByte, SignedByte, SignedByte, SignedByte]

  /** `">BBBbbb"`, the header of one glyph record. */
  const GlyphFormat: seq<Code> := [UnsignedByte, UnsignedByte, UnsignedByte, SignedByte, SignedByte, SignedByte]

  function Size(c: Code): nat
  {
    match c case UnsignedShort => 2 case _ => 1
  }

  /** The number of bytes codes `i..` of `fmt` pack into. */
  function SizeFrom(fmt: seq<Code>, i: nat): nat
    requires i <= |fmt|
    decreases |fmt| - i
  {
    if i == |fmt| then 0 else Size(fmt[i]) + SizeFrom(fmt, i + 1)
  }

  function FormatSize(fmt: seq<Code>): nat
  {
    SizeFrom(fmt, 0)
  }

  predicate Fits(c: Code, v: int)
  {
    match c
    case UnsignedByte => 0 <= v <= 255
    case SignedByte => -128 <= v <= 127
    case UnsignedShort => 0 <= v <= 65535
  }

  predicate AllFit(fmt: seq<Code>, values: seq<int>)
  {
    |fmt| == |values| && forall i :: 0 <= i < |fmt| ==> Fits(fmt[i], values[i])
  }

  function PackOne(c: Code, v: int): (b: seq<Byte>)
    requires Fits(c, v)
    ensures |b| == Size(c)
  {
    match c
    case UnsignedByte => [v]
    case SignedByte => [v % 256]
    case UnsignedShort => [v / 256, v % 256]
  }

  function UnpackOne(c: Code, b: seq<Byte>): int
    requires |b| == Size(c)
  {
    match c
    case UnsignedByte => b[0]
    case SignedByte => if b[0] >= 128 then b[0] as int - 256 else b[0]
    case UnsignedShort => 256 * b[0] as int + b[1] as int
  }

  /** Values `i..` packed one after the other; `struct.error` at the first that
      does not fit. */
  function PackFrom(fmt: seq<Code>, values: seq<int>, i: nat): Result<seq<Byte>>
    requires |fmt| == |values| && i <= |fmt|
    decreases |fmt| - i
  {
    if i == |fmt| then Ok([])
    else if !Fits(fmt[i], values[i]) then Err(PackRange)
    else match PackFrom(fmt, values, i + 1)
      case Err(e) => Err(e)
      case Ok(rest) => Ok(PackOne(fmt[i], values[i]) + rest)
  }

  /** `struct.pack(fmt, *values)`. */
  function Pack(fmt: seq<Code>, values: seq<int>): Result<seq<Byte>>
  {
    if |fmt| != |values| then Err(PackArity) else PackFrom(fmt, values, 0)
  }

  function UnpackFrom(fmt: seq<Code>, bytes: seq<Byte>, i: nat): seq<int>
    requires i <= |fmt| && |bytes| == SizeFrom(fmt, i)
    decreases |fmt| - i
  {
    if i == |fmt| then []
    else
      var n := Size(fmt[i]);
      [UnpackOne(fmt[i], bytes[..n])] + UnpackFrom(fmt, bytes[n..], i + 1)
  }

  /** `struct.unpack(fmt, bytes)`, for input of the format's size. */
  function Unpack(fmt: seq<Code>, bytes: seq<Byte>): seq<int>
    requires |bytes| == FormatSize(fmt)
  {
    UnpackFrom(fmt, bytes, 0)
  }

  lemma UnpackPackOne(c: Code, v: int)
    requires Fits(c, v)
    ensures UnpackOne(c, PackOne(c, v)) == v
  {
  }

  lemma {:induction false} PackFromSpec(fmt: seq<Code>, values: seq<int>, i: nat)
    requires |fmt| == |values| && i <= |fmt|
    ensures PackFrom(fmt, values, i).Ok? <==> forall j :: i <= j < |fmt| ==> Fits(fmt[j], values[j])
    ensures PackFrom(fmt, values, i).Err? ==> PackFrom(fmt, values, i).error == PackRange
    ensures PackFrom(fmt, values, i).Ok? ==> |PackFrom(fmt, values, i).value| == SizeFrom(fmt, i)
    ensures PackFrom(fmt, values, i).Ok? ==> UnpackFrom(fmt, PackFrom(fmt, values, i).value, i) == values[i..]
    decreases |fmt| - i
  {
    if i < |fmt| {
      PackFromSpec(fmt, values, i + 1);
      if Fits(fmt[i], values[i]) && PackFrom(fmt, values, i + 1).Ok? {
        var head := PackOne(fmt[i], values[i]);
        var b := head + PackFrom(fmt, values, i + 1).value;
        assert b[..Size(fmt[i])] == head;
        assert b[Size(fmt[i])..] == PackFrom(fmt, values, i + 1).value;
        UnpackPackOne(fmt[i], values[i]);
        assert [values[i]] + values[i + 1..] == values[i..];
      }
    }
  }

  /** Packing succeeds exactly when there is one value per code and every value
      fits its code; the result then has the format's size and unpacks to the
      values. */
  lemma PackSpec(fmt: seq<Code>, values: seq<int>)
    ensures Pack(fmt, values).Ok? <==> AllFit(fmt, values)
    ensures Pack(fmt, values).Err? ==> Pack(fmt, values).error == (if |fmt| != |values| then PackArity else PackRange)
    ensures Pack(fmt, values).Ok? ==> |Pack(fmt, values).value| == FormatSize(fmt)
    ensures Pack(fmt, values).Ok? ==> Unpack(fmt, Pack(fmt, values).value) == values
  {
    if |fmt| == |values| {
      PackFromSpec(fmt, values, 0);
      assert values[0..] == values;
    }
  }

  /** The header format packs 15 values into 17 bytes, the glyph format 6 into 6. */
  lemma FormatSizes()
    ensures |HeaderFormat| == 15 && FormatSize(HeaderFormat) == 17
    ensures |GlyphFormat| == 6 && FormatSize(GlyphFormat) == 6
  {
    assert SizeFrom(HeaderFormat, 14) == 1;
    assert SizeFrom(HeaderFormat, 13) == 2;
    assert SizeFrom(HeaderFormat, 12) == 3;
    assert SizeFrom(HeaderFormat, 11) == 4;
    assert SizeFrom(HeaderFormat, 10) == 5;
    assert SizeFrom(HeaderFormat, 9) == 6;
    assert SizeFrom(HeaderFormat, 8) == 7;
    assert SizeFrom(HeaderFormat, 7) == 9;
    assert SizeFrom(HeaderFormat, 6) == 11;
    assert SizeFrom(HeaderFormat, 5) == 12;
    assert SizeFrom(HeaderFormat, 4) == 13;
    assert SizeFrom(HeaderFormat, 3) == 14;
    assert SizeFrom(HeaderFormat, 2) == 15;
    assert SizeFrom(HeaderFormat, 1) == 16;
    assert SizeFrom(HeaderFormat, 0) == 17;
    assert SizeFrom(GlyphFormat, 5) == 1;
    assert SizeFrom(GlyphFormat, 4) == 2;
    assert SizeFrom(GlyphFormat, 3) == 3;
    assert SizeFrom(GlyphFormat, 2) == 4;
    assert SizeFrom(GlyphFormat, 1) == 5;
    assert SizeFrom(GlyphFormat, 0) == 6;
  }
}
