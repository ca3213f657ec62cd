/**
 * The text the converter writes: the C-array rendering of each segment
 * (`text_feed`), the segment header and trailer lines, and the output file
 * names.
 */
module Emitter {
  import opened Wrappers
  import opened Hex
  import opened Crc24

  /** A row width of the C array: `alignText`, never zero. */
  type Positive = n: nat | n > 0 witness 1

  /** `n // align`: the number of full rows of `align` bytes in `n` bytes. */
  function Rows(n: nat, align: Positive): nat
    decreases n
  {
    if n < align then 0 else 1 + Rows(n - align, align)
  }

  /** `n % align`: the column of byte `n` in its row, or the bytes left after the full rows. */
  function Column(n: nat, align: Positive): (r: nat)
    ensures r < align
    decreases n
  {
    if n < align then n else Column(n - align, align)
  }

  /** The full rows and the column add back up to `n`. */
  lemma {:induction false} RowsColumnSum(n: nat, align: Positive)
    ensures Rows(n, align) * align + Column(n, align) == n
    decreases n
  {
    if n >= align {
      RowsColumnSum(n - align, align);
      assert Rows(n, align) * align == Rows(n - align, align) * align + align;
    }
  }

  /** Rows and columns are Python's floor quotient and remainder, `//` and `%`. */
  lemma RowsColumn(n: nat, align: Positive)
    ensures Rows(n, align) == n / align && Column(n, align) == n % align
  {
    RowsColumnSum(n, align);
    ModUnique(n, align, Rows(n, align), Column(n, align));
    DivUnique(n, align, Rows(n, align), Column(n, align));
  }

  lemma DivUnique(n: nat, d: Positive, q: int, r: int)
    requires 0 <= r < d && n == q * d + r
    ensures n / d == q
  {
    ModUnique(n, d, q, r);
    assert n == (n / d) * d + r;
    assert (n / d) * d == q * d;
    Distribute(n / d, q, d);
    if n / d != q {
      if n / d > q {
        MulAtLeast(n / d - q, d);
      } else {
        MulAtLeast(q - n / d, d);
        Distribute(q, n / d, d);
      }
    }
  }

  /** `"0x{:02X}, ".format(v)`: one byte of the array. */
  function ByteToken(b: byte): (t: string)
    ensures |t| == 6
  {
    FormatLength(b, 2);
    "0x" + Format(b, 2) + ", "
  }

  /** Reading a token back: `0x`, the byte's two hex digits, then `, `. */
  lemma TokenRoundTrip(b: byte)
    ensures var t := ByteToken(b); t[..2] == "0x" && t[4..] == ", " && Parse(t[2..4]) == Some(b)
  {
    FormatLength(b, 2);
    ParseFormat(b, 2);
    var t := ByteToken(b);
    assert t[2..4] == Format(b, 2);
  }

  /**
   * The text for the byte `b` at index `k` of its segment: a row opens with
   * two tabs when k is a multiple of the row width, and closes with a newline
   * after the byte whose successor index is a multiple of it.
   */
  function ByteText(k: nat, b: byte, align: Positive): string {
    (if Column(k, align) == 0 then "\t\t" else "") + ByteToken(b) + (if Column(k + 1, align) == 0 then "\n" else "")
  }

  /** The text `text_feed` writes for `d` when the segment already holds `k` bytes. */
  function TextRows(k: nat, d: seq<byte>, align: Positive): string
    decreases |d|
  {
    if d == [] then "" else ByteText(k, d[0], align) + TextRows(k + 1, d[1..], align)
  }

  /** The tokens of `d` without any row layout. */
  function Tokens(d: seq<byte>): (t: string)
    ensures |t| == 6 * |d|
  {
    if d == [] then "" else ByteToken(d[0]) + Tokens(d[1..])
  }

  /** `"Sig_0x{base:04X}_({off:04X}h)[] = {{\n"`: the line that opens a segment's array. */
  function SegmentHeader(base: nat, offset: nat): string {
    "Sig_0x" + Format(base, 4) + "_(" + Format(offset, 4) + "h)[] = {\n"
  }

  /** `"}};\t/* {} bytes CRC(24) = 0x{:06X}*/\n"`: the line that closes a segment's array. */
  function Trailer(size: nat, crc: Crc): string {
    "};\t/* " + Decimal(size) + " bytes CRC(24) = 0x" + Format(crc, 6) + "*/\n"
  }

  /** `"{filename}_Sig_0x{base:04X}_({off:04X}h).bin"`: the binary file of a segment. */
  function BinFileName(fileName: string, base: nat, offset: nat): (name: string)
    ensures |name| >= |fileName| + 4 && name[..|fileName|] == fileName && name[|name| - 4..] == ".bin"
  {
    fileName + "_Sig_0x" + Format(base, 4) + "_(" + Format(offset, 4) + "h).bin"
  }

  /** `"{filename}.h"`: the text file, one per conversion. */
  function TextFileName(fileName: string): (name: string)
    ensures |name| == |fileName| + 2 && name[..|fileName|] == fileName && name[|name| - 2..] == ".h"
  {
    fileName + ".h"
  }

  /**
   * Feeding `a` and then `b` writes the same text as feeding `a + b` at once:
   * the layout depends only on each byte's index in the segment.
   */
  lemma {:induction false} TextRowsAppend(k: nat, a: seq<byte>, b: seq<byte>, align: Positive)
    ensures TextRows(k, a + b, align) == TextRows(k, a, align) + TextRows(k + |a|, b, align)
    decreases |a|
  {
    if a == [] {
      assert a + b == b;
    } else {
      assert (a + b)[1..] == a[1..] + b;
      TextRowsAppend(k + 1, a[1..], b, align);
    }
  }

  /** A single byte is laid out on its own. */
  lemma TextRowsOne(k: nat, b: byte, align: Positive)
    ensures TextRows(k, [b], align) == ByteText(k, b, align)
  {
    assert [b][1..] == [];
  }

  /** The text of the first `i + 1` bytes of `d` is that of the first `i` and then byte `i`'s. */
  lemma TextRowsPrefix(k: nat, d: seq<byte>, i: nat, align: Positive)
    requires i < |d|
    ensures TextRows(k, d[..i + 1], align) == TextRows(k, d[..i], align) + ByteText(k + i, d[i], align)
  {
    assert d[..i + 1] == d[..i] + [d[i]];
    TextRowsAppend(k, d[..i], [d[i]], align);
    TextRowsOne(k + i, d[i], align);
  }

  /** The end of a row: bytes after the first of a row up to the last carry no tabs and one newline. */
  lemma {:induction false} RowTail(k: nat, d: seq<byte>, align: Positive)
    requires Column(k, align) != 0 && Column(k, align) + |d| == align
    ensures TextRows(k, d, align) == Tokens(d) + "\n"
    decreases |d|
  {
    NextIndex(k, align);
    if |d| == 1 {
      assert d[1..] == [];
    } else {
      RowTail(k + 1, d[1..], align);
    }
  }

  /** A full row: `align` bytes starting at a multiple of `align` are two tabs, their tokens, a newline. */
  lemma FullRow(k: nat, d: seq<byte>, align: Positive)
    requires Column(k, align) == 0 && |d| == align
    ensures TextRows(k, d, align) == "\t\t" + Tokens(d) + "\n"
  {
    NextIndex(k, align);
    if align == 1 {
      assert d[1..] == [];
    } else {
      RowTail(k + 1, d[1..], align);
    }
  }

  /** The column of the next byte: one more, or 0 after the last column of a row. */
  lemma {:induction false} NextIndex(k: nat, align: Positive)
    ensures Column(k + 1, align) == if Column(k, align) + 1 == align then 0 else Column(k, align) + 1
    decreases k
  {
    if k >= align {
      NextIndex(k - align, align);
    } else if k + 1 == align {
      assert Column(k + 1, align) == Column(0, align);
    }
  }

  lemma ModUnique(n: nat, d: Positive, q: int, r: int)
    requires 0 <= r < d && n == q * d + r
    ensures n % d == r
  {
    var q', r' := n / d, n % d;
    assert n == q' * d + r';
    Distribute(q, q', d);
    if q > q' {
      MulAtLeast(q - q', d);
    } else if q < q' {
      Distribute(q', q, d);
      MulAtLeast(q' - q, d);
    }
  }

  lemma Distribute(x: int, y: int, d: int)
    ensures x * d - y * d == (x - y) * d
  {
  }

  lemma MulAtLeast(x: int, d: nat)
    requires x >= 1
    ensures x * d >= d
  {
  }

  /** Token i of the unlaid-out text is the token of byte i. */
  lemma {:induction false} TokenAt(d: seq<byte>, i: nat)
    requires i < |d|
    ensures Tokens(d)[6 * i..6 * i + 6] == ByteToken(d[i])
    decreases i
  {
    if i > 0 {
      TokenAt(d[1..], i - 1);
      assert Tokens(d)[6 * i..6 * i + 6] == Tokens(d[1..])[6 * (i - 1)..6 * (i - 1) + 6];
    }
  }

  /**
   * Reading the header back, for any base and offset: after `Sig_0x` come the
   * base's hex digits, then `_(`, then the offset's, then `h)[] = {` and a
   * newline. Neither field is followed by a hex digit, so each reads back as
   * the number it renders.
   */
  lemma HeaderFields(base: nat, offset: nat)
    ensures var fb, fo, h := Format(base, 4), Format(offset, 4), SegmentHeader(base, offset);
      && |h| == 17 + |fb| + |fo| && Parse(fb) == Some(base) && Parse(fo) == Some(offset)
      && h[..6] == "Sig_0x" && h[6..6 + |fb|] == fb && h[6 + |fb|] == '_' && h[7 + |fb|] == '('
      && h[8 + |fb|..8 + |fb| + |fo|] == fo && h[8 + |fb| + |fo|..] == "h)[] = {\n"
  {
    ParseFormat(base, 4);
    ParseFormat(offset, 4);
    FiveFields("Sig_0x", Format(base, 4), "_(", Format(offset, 4), "h)[] = {\n");
  }

  /** For 16-bit bases and offsets the header has fixed columns: 25 characters, the fields at 6..10 and 12..16. */
  lemma HeaderColumns(base: nat, offset: nat)
    requires base < 0x1_0000 && offset < 0x1_0000
    ensures |SegmentHeader(base, offset)| == 25
    ensures Parse(SegmentHeader(base, offset)[6..10]) == Some(base)
    ensures Parse(SegmentHeader(base, offset)[12..16]) == Some(offset)
  {
    assert Pow16(4) == 0x1_0000 by { Pow16Values(); }
    FormatLength(base, 4);
    FormatLength(offset, 4);
    HeaderFields(base, offset);
  }

  /**
   * Reading the trailer back: the size is written in decimal at column 6,
   * between two spaces, and its digits denote it; the CRC is the six hex
   * digits between `0x` and the closing comment mark, and they read back as
   * the CRC.
   */
  lemma TrailerFields(size: nat, crc: Crc)
    ensures var t, d, f := Trailer(size, crc), Decimal(size), Format(crc, 6);
      && |t| == |d| + 34 && DecimalValue(d) == size && Parse(f) == Some(crc)
      && t[5] == ' ' && t[6..6 + |d|] == d && t[6 + |d|] == ' '
      && t[|t| - 10] == 'x' && t[|t| - 9..|t| - 3] == f && t[|t| - 3] == '*'
  {
    assert Pow16(6) == 0x100_0000 by { Pow16Values(); }
    FormatLength(crc, 6);
    ParseFormat(crc, 6);
    FiveFields("};\t/* ", Decimal(size), " bytes CRC(24) = 0x", Format(crc, 6), "*/\n");
  }

  /**
   * Reading a binary file name back: the hex file's name, `_Sig_0x`, the
   * base's digits, `_(`, the offset's digits, then `h).bin`.
   */
  lemma BinFileNameFields(fileName: string, base: nat, offset: nat)
    ensures var fb, fo, name := Format(base, 4), Format(offset, 4), BinFileName(fileName, base, offset);
      var i := |fileName| + 7;
      && |name| == i + |fb| + 2 + |fo| + 6 && Parse(fb) == Some(base) && Parse(fo) == Some(offset)
      && name[i - 1] == 'x' && name[i..i + |fb|] == fb && name[i + |fb|] == '_'
      && name[i + |fb| + 1] == '(' && name[i + |fb| + 2..i + |fb| + 2 + |fo|] == fo
      && name[i + |fb| + 2 + |fo|] == 'h'
  {
    ParseFormat(base, 4);
    ParseFormat(offset, 4);
    NameLayout(fileName, Format(base, 4), Format(offset, 4));
  }

  /** Where the pieces of a binary file name sit, whatever the two fields hold. */
  lemma NameLayout(fileName: string, fb: string, fo: string)
    ensures var name, i := fileName + "_Sig_0x" + fb + "_(" + fo + "h).bin", |fileName| + 7;
      && |name| == i + |fb| + 2 + |fo| + 6
      && name[i - 1] == 'x' && name[i..i + |fb|] == fb && name[i + |fb|] == '_'
      && name[i + |fb| + 1] == '(' && name[i + |fb| + 2..i + |fb| + 2 + |fo|] == fo
      && name[i + |fb| + 2 + |fo|] == 'h'
  {
    var p, name, i := fileName + "_Sig_0x", fileName + "_Sig_0x" + fb + "_(" + fo + "h).bin", |fileName| + 7;
    FiveFields(p, fb, "_(", fo, "h).bin");
    assert |p| == i && p[i - 1] == 'x' && name[..i] == p;
    assert name[i + |fb|..] == "_(" + fo + "h).bin";
    assert name[i + |fb| + 2 + |fo|..] == "h).bin";
  }

  /**
   * The binary files of one conversion have the same name exactly when they
   * have the same base and the same offset.
   */
  lemma BinFileNameDistinct(fileName: string, base: nat, offset: nat, base': nat, offset': nat)
    ensures BinFileName(fileName, base, offset) == BinFileName(fileName, base', offset') <==> base == base' && offset == offset'
  {
    var name, name' := BinFileName(fileName, base, offset), BinFileName(fileName, base', offset');
    if name == name' {
      NameFieldsEqual(fileName, Format(base, 4), Format(offset, 4), Format(base', 4), Format(offset', 4));
      ParseFormat(base, 4);
      ParseFormat(base', 4);
      ParseFormat(offset, 4);
      ParseFormat(offset', 4);
    }
  }

  /** Two names built from runs of hex digits are equal only when their fields are. */
  lemma NameFieldsEqual(fileName: string, fb: string, fo: string, fb': string, fo': string)
    requires AllHex(fb) && AllHex(fo) && AllHex(fb') && AllHex(fo')
    requires fileName + "_Sig_0x" + fb + "_(" + fo + "h).bin" == fileName + "_Sig_0x" + fb' + "_(" + fo' + "h).bin"
    ensures fb == fb' && fo == fo'
  {
    var name, i := fileName + "_Sig_0x" + fb + "_(" + fo + "h).bin", |fileName| + 7;
    FiveFields(fileName + "_Sig_0x", fb, "_(", fo, "h).bin");
    FiveFields(fileName + "_Sig_0x", fb', "_(", fo', "h).bin");
    HexRunEnd(fb, "_(" + fo + "h).bin", fb', "_(" + fo' + "h).bin", name[i..]);
    HexRunEnd(fo, "h).bin", fo', "h).bin", name[i + |fb| + 2..]);
  }

  /** Where the five pieces of a rendered line sit in it. */
  lemma FiveFields(p: string, x: string, m: string, y: string, q: string)
    ensures var s := p + x + m + y + q;
      && |s| == |p| + |x| + |m| + |y| + |q| && s[..|p|] == p
      && s[|p|..|p| + |x|] == x && s[|p| + |x|..] == m + y + q
      && s[|p| + |x|..|p| + |x| + |m|] == m && s[|p| + |x| + |m|..|p| + |x| + |m| + |y|] == y
      && s[|p| + |x| + |m|..] == y + q && s[|p| + |x| + |m| + |y|..] == q
  {
    var s := p + x + m + y + q;
    assert s == p + (x + (m + (y + q)));
  }

  /** A run of hex digits ends at the first character that is not one. */
  lemma HexRunEnd(a: string, r: string, b: string, q: string, s: string)
    requires AllHex(a) && AllHex(b) && r != [] && q != [] && !IsHexDigit(r[0]) && !IsHexDigit(q[0])
    requires s == a + r && s == b + q
    ensures a == b && r == q
  {
    assert a == s[..|a|] && b == s[..|b|];
  }

  lemma Pow16Values()
    ensures Pow16(2) == 0x100 && Pow16(4) == 0x1_0000 && Pow16(6) == 0x100_0000
  {
    assert Pow16(1) == 16;
    assert Pow16(3) == 0x1000;
    assert Pow16(5) == 0x10_0000;
  }
}
