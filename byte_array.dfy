/** The C text of the font blob: every byte as `0x` and two upper-case hex digits,
    a comma and a space, with a line break and two spaces of indent before every
    sixteenth byte. */
module ByteArray {
  import opened Common
  import opened Text

  /** `" " * n`; Python gives the empty string for a count below one. */
  function Spaces(n: int): (s: string)
    ensures |s| == (if n > 0 then n else 0)
    ensures forall k :: 0 <= k < |s| ==> s[k] == ' '
  {
    if n <= 0 then "" else seq(n, _ => ' ')
  }

  /** The item one byte becomes. */
  function ByteItem(b: Byte): string
  {
    "0x" + FormatHex(b, 2, true) + ", "
  }

  /** An item is six characters: `0x`, two upper-case digits that read back as
      the byte, then `, `. */
  lemma ByteItemShape(b: Byte)
    ensures |ByteItem(b)| == 6
    ensures ByteItem(b)[..2] == "0x" && ByteItem(b)[4..] == ", "
    ensures AllHex(ByteItem(b)[2..4]) && UpperHex(ByteItem(b)[2..4])
    ensures HexValue(ByteItem(b)[2..4]) == b
  {
    var digits := FormatHex(b, 2, true);
    FormatHexRoundTrip(b, 2, true);
    FormatHexUpper(b, 2);
    assert Pow16(2) == 256;
    assert ByteItem(b)[2..4] == digits;
  }

  /** The two digits of an item are `%02X` of the byte. */
  lemma ByteItemDigits(b: Byte)
    ensures |ByteItem(b)| == 6 && ByteItem(b)[2..4] == FormatHex(b, 2, true)
  {
    ByteItemShape(b);
    FormatHexRoundTrip(b, 2, true);
    assert Pow16(2) == 256;
  }

  /** The text of a byte string, built from the end: the text of all but the
      last byte, the line break when the last byte's position is a multiple of
      16, then the last byte's item. */
  function ByteArrayText(bs: seq<Byte>): string
  {
    if bs == [] then ""
    else
      var i := |bs| - 1;
      ByteArrayText(bs[..i]) + (if i % 16 == 0 then "\n  " else "") + ByteItem(bs[i])
  }

  /** The loop building `font_data_source`, joined at the end. */
  method FormatByteArray(fontData: seq<Byte>) returns (text: string)
    ensures text == ByteArrayText(fontData)
  {
    var source: seq<string> := [];
    for i := 0 to |fontData|
      invariant Concat(source) == ByteArrayText(fontData[..i])
    {
      assert fontData[..i + 1][..i] == fontData[..i];
      var before := Concat(source);
      if i % 16 == 0 {
        ConcatAppend(source, "\n  ");
        source := source + ["\n  "];
      }
      assert Concat(source) == before + (if i % 16 == 0 then "\n  " else "");
      var item := "0x" + FormatHex(fontData[i], 2, true);
      FormatHexRoundTrip(fontData[i], 2, true);
      assert Pow16(2) == 256;
      item := item + "," + Spaces(5 - |item|);
      assert Spaces(1) == " ";
      assert item == ByteItem(fontData[i]);
      ConcatAppend(source, item);
      source := source + [item];
    }
    assert fontData[..|fontData|] == fontData;
    text := Concat(source);
  }

  /** Six characters per byte and three per started group of sixteen. */
  lemma {:induction false} ByteArrayLength(bs: seq<Byte>)
    ensures |ByteArrayText(bs)| == 6 * |bs| + 3 * ((|bs| + 15) / 16)
  {
    if bs != [] {
      var i := |bs| - 1;
      ByteArrayLength(bs[..i]);
      ByteItemShape(bs[i]);
      if i % 16 == 0 {
        assert (i + 15) / 16 == i / 16 && (i + 16) / 16 == i / 16 + 1;
      } else {
        assert (i + 15) / 16 == i / 16 + 1 && (i + 16) / 16 == i / 16 + 1;
      }
    }
  }

  /** The text of a prefix of the bytes is a prefix of the text. */
  lemma {:induction false} ByteArrayPrefix(bs: seq<Byte>, k: nat)
    requires k <= |bs|
    ensures ByteArrayText(bs[..k]) <= ByteArrayText(bs)
    decreases |bs| - k
  {
    if k < |bs| {
      ByteArrayPrefix(bs, k + 1);
      assert bs[..k + 1][..k] == bs[..k];
    } else {
      assert bs[..k] == bs;
    }
  }

  /** What follows a prefix inside a longer string can be read off by offset. */
  lemma SliceAfterPrefix(t: string, head: string, x: string)
    requires head + x <= t
    ensures t[|head|..|head| + |x|] == x
  {
    assert t[..|head| + |x|] == head + x;
    assert (head + x)[|head|..] == x;
  }

  /** The characters before item `i`: six per earlier byte and three per group
      of sixteen started up to and including this one. */
  lemma ItemOffset(i: nat)
    ensures 6 * i + 3 * ((i + 15) / 16) + (if i % 16 == 0 then 3 else 0) == 6 * i + 3 * (i / 16 + 1)
  {
    var q := i / 16;
    assert i == 16 * q + i % 16;
    if i % 16 == 0 {
      assert (i + 15) / 16 == q;
    } else {
      assert (i + 15) / 16 == q + 1;
    }
  }

  /** Reading the text back: byte `i` is the item at offset
      `6 * i + 3 * (i / 16 + 1)`, and when `i` starts a group of sixteen the
      three characters before it are the line break and indent. With
      `ByteItemShape`, the digits read back as the byte. */
  lemma ByteArrayReadBack(bs: seq<Byte>, i: nat)
    requires i < |bs|
    ensures var t := ByteArrayText(bs); var off := 6 * i + 3 * (i / 16 + 1);
      off + 6 <= |t| &&
      t[off..off + 6] == ByteItem(bs[i]) &&
      t[off + 2..off + 4] == FormatHex(bs[i], 2, true) &&
      (i % 16 == 0 ==> t[off - 3..off] == "\n  ")
  {
    var t := ByteArrayText(bs);
    var head := ByteArrayText(bs[..i]);
    var sep: string := if i % 16 == 0 then "\n  " else "";
    var item := ByteItem(bs[i]);
    assert head + sep + item <= t by {
      assert bs[..i + 1][..i] == bs[..i];
      ByteArrayPrefix(bs, i + 1);
    }
    assert |head + sep| == 6 * i + 3 * (i / 16 + 1) by {
      ByteArrayLength(bs[..i]);
      ItemOffset(i);
    }
    ByteItemDigits(bs[i]);
    SliceAfterPrefix(t, head + sep, item);
    SliceOfSlice(t, |head + sep|, item);
    if i % 16 == 0 {
      SliceAfterPrefix(t, head, sep);
    }
  }

  lemma SliceOfSlice(t: string, off: nat, item: string)
    requires |item| == 6 && off + 6 <= |t| && t[off..off + 6] == item
    ensures t[off + 2..off + 4] == item[2..4]
  {
    assert t[off + 2] == item[2] && t[off + 3] == item[3];
  }
}
