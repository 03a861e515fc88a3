/**
 * The code-chart generator jupyterbook/eidprog/images/unicode/create_unicode_tex.py:
 * a LaTeX document with one table per block of 128 code points, each cell
 * giving a code point as U+XXXX, its UTF-8 bytes in hexadecimal and the
 * character itself (or the name of a control code).
 */
module UnicodeChart {
  import opened PyBits
  import opened Digits
  import Utf8TwoByte
  import Utf8ThreeByte

  // ---------------------------------------------------------------------
  // get_hex_string

  /** The result of `get_hex_string`: a hex text, or the integer 0 above U+FFFF. */
  datatype HexString = HexText(text: string) | NoEncoding

  /** What `"%s"` makes of the result: the text itself, or "0" for the integer 0. */
  function Shown(h: HexString): string
  {
    match h
    case HexText(t) => t
    case NoEncoding => "0"
  }

  /** The two-byte packing as `get_hex_string` writes it: `0xc080+((hexcode >> 6) << 8)+(hexcode & 0x3f)`. */
  function TwoByteValue(hexcode: nat): (v: nat)
  {
    0xc080 + Shl(Shr(hexcode, 6), 8) + And(hexcode, 0x3f)
  }

  /**
   * The three-byte packing as `get_hex_string` writes it:
   * `0xe08080+((hexcode >> 12) << 16)+((hexcode & 0xfc0) << 2)+(hexcode & 0x3f)`.
   */
  function ThreeByteValue(hexcode: nat): (v: nat)
  {
    0xe08080 + Shl(Shr(hexcode, 12), 16) + Shl(And(hexcode, 0xfc0), 2) + And(hexcode, 0x3f)
  }

  /**
   * `get_hex_string`: the UTF-8 bytes of a code point up to U+FFFF as two, four
   * or six upper-case hex digits; no text at all above U+FFFF.
   */
  function GetHexString(hexcode: nat): (r: HexString)
    ensures r.NoEncoding? <==> hexcode > 0xffff
  {
    if hexcode <= 0x7f then HexText(Format(hexcode, 16, 2))
    else if 0x80 <= hexcode <= 0x7ff then HexText(Format(TwoByteValue(hexcode), 16, 4))
    else if 0x800 <= hexcode <= 0xffff then HexText(Format(ThreeByteValue(hexcode), 16, 6))
    else NoEncoding
  }

  /** t consists of exactly `count` characters 0-9, A-F. */
  predicate HexDigits(t: string, count: nat)
  {
    |t| == count && forall i | 0 <= i < |t| :: IsDigitChar(t[i])
  }

  lemma Pow16Table()
    ensures Pow(16, 2) == 0x100 && Pow(16, 4) == 0x1_0000 && Pow(16, 6) == 0x100_0000
  {
    assert Pow(16, 2) == 0x100;
    assert Pow(16, 4) == 16 * (16 * Pow(16, 2));
    assert Pow(16, 6) == 16 * (16 * Pow(16, 4));
  }

  /** Formatting a value that fits in `width` hex digits gives exactly that many, reading back to it. */
  lemma FormatHex(v: nat, width: nat)
    requires 1 <= width && v < Pow(16, width)
    ensures HexDigits(Format(v, 16, width), width) && Parse(Format(v, 16, width), 16) == v
  {
    FormatShape(v, 16, width);
    FormatParses(v, 16, width);
  }

  /** Below U+0800 the unmasked `hexcode >> 6` is the five-bit field of the two-byte diagram. */
  lemma TwoByteValueAgrees(hexcode: nat)
    requires hexcode <= 0x7ff
    ensures TwoByteValue(hexcode) == Utf8TwoByte.Utf8Code(hexcode)
  {
    var high := Shr(hexcode, 6);
    ShrIsDiv(hexcode, 6);
    assert Pow2(5) == 32 && Pow2(6) == 64;
    DivBelow(hexcode, 64, 32);
    AndLowMask(high, 5);
    DivModUnique(high, 32, 0, high);
  }

  /**
   * Below U+10000 the unmasked `hexcode >> 12` is the four-bit field, and
   * `(hexcode & 0xfc0) << 2` is the middle six-bit field shifted into the
   * second byte, as in the three-byte diagram.
   */
  lemma ThreeByteValueAgrees(hexcode: nat)
    requires hexcode <= 0xffff
    ensures ThreeByteValue(hexcode) == Utf8ThreeByte.Utf8Code(hexcode)
  {
    var high := Shr(hexcode, 12);
    ShrIsDiv(hexcode, 12);
    assert Pow2(4) == 16;
    Pow2Add(4, 8);
    assert Pow2(12) == 0x1000;
    DivBelow(hexcode, 0x1000, 16);
    AndLowMask(high, 4);
    DivModUnique(high, 16, 0, high);
    assert Shl(0x3f, 6) == 0xfc0;
    AndShiftedMask(hexcode, 0x3f, 6);
    ShlShl(And(Shr(hexcode, 6), 0x3f), 6, 2);
  }

  /** Up to U+007F: the code point itself as two hex digits. */
  lemma HexStringOneByte(hexcode: nat)
    requires hexcode <= 0x7f
    ensures GetHexString(hexcode).HexText?
    ensures HexDigits(Shown(GetHexString(hexcode)), 2)
    ensures Parse(Shown(GetHexString(hexcode)), 16) == hexcode
  {
    Pow16Table();
    FormatHex(hexcode, 2);
  }

  /**
   * U+0080 to U+07FF: four hex digits whose value is the two-byte UTF-8 value
   * of the diagram, 110xxxxx 10xxxxxx, which decodes back to the code point.
   */
  lemma HexStringTwoBytes(hexcode: nat)
    requires 0x80 <= hexcode <= 0x7ff
    ensures GetHexString(hexcode).HexText?
    ensures HexDigits(Shown(GetHexString(hexcode)), 4)
    ensures Parse(Shown(GetHexString(hexcode)), 16) == Utf8TwoByte.Utf8Code(hexcode)
    ensures MsbBits(Parse(Shown(GetHexString(hexcode)), 16), 16)[..3] == [1, 1, 0]
    ensures MsbBits(Parse(Shown(GetHexString(hexcode)), 16), 16)[8..10] == [1, 0]
    ensures Utf8TwoByte.Decode(Parse(Shown(GetHexString(hexcode)), 16)) == hexcode
  {
    var v := TwoByteValue(hexcode);
    TwoByteValueAgrees(hexcode);
    Utf8TwoByte.Utf8CodeTwoBytes(hexcode);
    Pow16Table();
    FormatHex(v, 4);
    Utf8TwoByte.Utf8Markers(hexcode);
    Utf8TwoByte.DecodeUtf8Code(hexcode);
  }

  /**
   * U+0800 to U+FFFF: six hex digits whose value is the three-byte UTF-8 value
   * of the diagram, 1110xxxx 10xxxxxx 10xxxxxx, which decodes back to the code point.
   */
  lemma HexStringThreeBytes(hexcode: nat)
    requires 0x800 <= hexcode <= 0xffff
    ensures GetHexString(hexcode).HexText?
    ensures HexDigits(Shown(GetHexString(hexcode)), 6)
    ensures Parse(Shown(GetHexString(hexcode)), 16) == Utf8ThreeByte.Utf8Code(hexcode)
    ensures MsbBits(Parse(Shown(GetHexString(hexcode)), 16), 24)[..4] == [1, 1, 1, 0]
    ensures MsbBits(Parse(Shown(GetHexString(hexcode)), 16), 24)[8..10] == [1, 0]
    ensures MsbBits(Parse(Shown(GetHexString(hexcode)), 16), 24)[16..18] == [1, 0]
    ensures Utf8ThreeByte.Decode(Parse(Shown(GetHexString(hexcode)), 16)) == hexcode
  {
    var v := ThreeByteValue(hexcode);
    ThreeByteValueAgrees(hexcode);
    Utf8ThreeByte.Utf8CodeThreeBytes(hexcode);
    Pow16Table();
    FormatHex(v, 6);
    Utf8ThreeByte.Utf8Markers(hexcode);
    Utf8ThreeByte.DecodeUtf8Code(hexcode);
  }

  /** No two code points up to U+FFFF get the same hex text. */
  lemma HexStringInjective(a: nat, b: nat)
    requires a <= 0xffff && b <= 0xffff
    requires Shown(GetHexString(a)) == Shown(GetHexString(b))
    ensures a == b
  {
    var t := Shown(GetHexString(a));
    if a <= 0x7f {
      HexStringOneByte(a);
    } else if a <= 0x7ff {
      HexStringTwoBytes(a);
    } else {
      HexStringThreeBytes(a);
    }
    if b <= 0x7f {
      HexStringOneByte(b);
    } else if b <= 0x7ff {
      HexStringTwoBytes(b);
    } else {
      HexStringThreeBytes(b);
    }
  }

  // ---------------------------------------------------------------------
  // ccodes

  /** The names of the C0 control codes and of the space, U+0000 to U+0020. */
  const C0Names: map<nat, string> := C0Low + C0High

  const C0Low: map<nat, string> := map[
    0x00 := "NUL", 0x01 := "SOH", 0x02 := "STX", 0x03 := "ETX",
    0x04 := "EOT", 0x05 := "ENQ", 0x06 := "ACK", 0x07 := "BEL",
    0x08 := "BS", 0x09 := "HT", 0x0A := "LF", 0x0B := "VT",
    0x0C := "FF", 0x0D := "CR", 0x0E := "SO", 0x0F := "SI"]

  const C0High: map<nat, string> := map[
    0x10 := "DLE", 0x11 := "DC1", 0x12 := "DC2", 0x13 := "DC3",
    0x14 := "DC4", 0x15 := "NAK", 0x16 := "SYN", 0x17 := "ETB",
    0x18 := "CAN", 0x19 := "EM", 0x1A := "SUB", 0x1B := "ESC",
    0x1C := "FS", 0x1D := "GS", 0x1E := "RS", 0x1F := "US",
    0x20 := "SP"]

  /** The names of DEL, the C1 control codes, the no-break space and the soft hyphen. */
  const C1Names: map<nat, string> := C1Low + C1High

  const C1Low: map<nat, string> := map[
    0x7F := "DEL", 0x80 := "XXX", 0x81 := "XXX",
    0x82 := "BPH", 0x83 := "NBH", 0x84 := "IND", 0x85 := "NEL",
    0x86 := "SSA", 0x87 := "ESA", 0x88 := "HTS", 0x89 := "HTJ",
    0x8A := "VTS", 0x8B := "PLD", 0x8C := "PLU", 0x8D := "RI",
    0x8E := "SS2", 0x8F := "SS3"]

  const C1High: map<nat, string> := map[
    0x90 := "DCS", 0x91 := "PU1",
    0x92 := "PU2", 0x93 := "STS", 0x94 := "CCH", 0x95 := "MW",
    0x96 := "SPA", 0x97 := "EPA", 0x98 := "SOS", 0x99 := "XXX",
    0x9A := "SCI", 0x9B := "CSI", 0x9C := "ST", 0x9D := "OSC",
    0x9E := "PM", 0x9F := "APC", 0xA0 := "NBSP", 0xAD := "SHY"]

  /** `controlcodes`: the mnemonic names the chart prints instead of the character. */
  const ControlCodes: map<nat, string> := C0Names + C1Names

  /** The C0 controls and space, DEL, the C1 controls, no-break space and soft hyphen. */
  predicate IsNamedCode(hexcode: nat)
  {
    hexcode <= 0x20 || hexcode == 0x7f || 0x80 <= hexcode <= 0xa0 || hexcode == 0xad
  }

  lemma C0NamesDomain(hexcode: nat)
    ensures hexcode in C0Names <==> hexcode <= 0x20
    ensures hexcode in C0Names ==> 2 <= |C0Names[hexcode]| <= 3
  {
    C0LowDomain(hexcode);
    C0HighDomain(hexcode);
  }

  lemma C0LowDomain(hexcode: nat)
    ensures hexcode in C0Low <==> hexcode <= 0x0F
    ensures hexcode in C0Low ==> 2 <= |C0Low[hexcode]| <= 3
  {
    if 0x00 <= hexcode <= 0x0F {
      assert hexcode == 0x00 || hexcode == 0x01 || hexcode == 0x02 || hexcode == 0x03 || hexcode == 0x04 || hexcode == 0x05 ||
        hexcode == 0x06 || hexcode == 0x07 || hexcode == 0x08 || hexcode == 0x09 || hexcode == 0x0A || hexcode == 0x0B ||
        hexcode == 0x0C || hexcode == 0x0D || hexcode == 0x0E || hexcode == 0x0F;
    }
  }

  lemma C0HighDomain(hexcode: nat)
    ensures hexcode in C0High <==> 0x10 <= hexcode <= 0x20
    ensures hexcode in C0High ==> 2 <= |C0High[hexcode]| <= 3
  {
    if 0x10 <= hexcode <= 0x20 {
      assert hexcode == 0x10 || hexcode == 0x11 || hexcode == 0x12 || hexcode == 0x13 || hexcode == 0x14 || hexcode == 0x15 ||
        hexcode == 0x16 || hexcode == 0x17 || hexcode == 0x18 || hexcode == 0x19 || hexcode == 0x1A || hexcode == 0x1B ||
        hexcode == 0x1C || hexcode == 0x1D || hexcode == 0x1E || hexcode == 0x1F || hexcode == 0x20;
    }
  }

  lemma C1NamesDomain(hexcode: nat)
    ensures hexcode in C1Names <==> hexcode == 0x7f || 0x80 <= hexcode <= 0xa0 || hexcode == 0xad
    ensures hexcode in C1Names ==> 2 <= |C1Names[hexcode]| <= 4
  {
    C1LowDomain(hexcode);
    C1HighDomain(hexcode);
  }

  lemma C1LowDomain(hexcode: nat)
    ensures hexcode in C1Low <==> hexcode == 0x7F || 0x80 <= hexcode <= 0x8F
    ensures hexcode in C1Low ==> 2 <= |C1Low[hexcode]| <= 3
  {
    if 0x80 <= hexcode <= 0x8F {
      assert hexcode == 0x80 || hexcode == 0x81 || hexcode == 0x82 || hexcode == 0x83 || hexcode == 0x84 || hexcode == 0x85 ||
        hexcode == 0x86 || hexcode == 0x87 || hexcode == 0x88 || hexcode == 0x89 || hexcode == 0x8A || hexcode == 0x8B ||
        hexcode == 0x8C || hexcode == 0x8D || hexcode == 0x8E || hexcode == 0x8F;
    }
  }

  lemma C1HighDomain(hexcode: nat)
    ensures hexcode in C1High <==> 0x90 <= hexcode <= 0xA0 || hexcode == 0xAD
    ensures hexcode in C1High ==> 2 <= |C1High[hexcode]| <= 4
  {
    if 0x90 <= hexcode <= 0xA0 {
      assert hexcode == 0x90 || hexcode == 0x91 || hexcode == 0x92 || hexcode == 0x93 || hexcode == 0x94 || hexcode == 0x95 ||
        hexcode == 0x96 || hexcode == 0x97 || hexcode == 0x98 || hexcode == 0x99 || hexcode == 0x9A || hexcode == 0x9B ||
        hexcode == 0x9C || hexcode == 0x9D || hexcode == 0x9E || hexcode == 0x9F || hexcode == 0xA0;
    }
  }

  /** The table has a name for exactly the named codes, each of two to four characters. */
  lemma ControlCodesDomain(hexcode: nat)
    ensures hexcode in ControlCodes <==> IsNamedCode(hexcode)
    ensures hexcode in ControlCodes ==> 2 <= |ControlCodes[hexcode]| <= 4
  {
    C0NamesDomain(hexcode);
    C1NamesDomain(hexcode);
  }

  /** The third cell text `ccodes` writes for a code point. */
  function CcodeText(hexcode: nat, end: string): string
  {
    if hexcode in ControlCodes then "\\colorbox{cc}{" + ControlCodes[hexcode] + "} " + end
    else "\\symbol{" + Format(hexcode, 10, 0) + "} " + end
  }

  /**
   * A cell is a grey name box exactly for the named codes; every other code
   * point is typeset by its decimal number, which reads back to it.
   */
  lemma CcodeCell(hexcode: nat, end: string)
    ensures |CcodeText(hexcode, end)| >= 10
    ensures CcodeText(hexcode, end)[..10] == "\\colorbox{" <==> IsNamedCode(hexcode)
    ensures IsNamedCode(hexcode) ==>
      hexcode in ControlCodes && CcodeText(hexcode, end) == "\\colorbox{cc}{" + ControlCodes[hexcode] + "} " + end
    ensures !IsNamedCode(hexcode) ==>
      && CcodeText(hexcode, end) == "\\symbol{" + Format(hexcode, 10, 0) + "} " + end
      && Parse(Format(hexcode, 10, 0), 10) == hexcode
  {
    if IsNamedCode(hexcode) {
      NamedCell(hexcode, end);
    } else {
      PlainCell(hexcode, end);
    }
  }

  lemma NamedCell(hexcode: nat, end: string)
    requires IsNamedCode(hexcode)
    ensures hexcode in ControlCodes
    ensures CcodeText(hexcode, end) == "\\colorbox{cc}{" + ControlCodes[hexcode] + "} " + end
    ensures CcodeText(hexcode, end)[..10] == "\\colorbox{"
  {
    ControlCodesDomain(hexcode);
    BoxPrefix(ControlCodes[hexcode], end);
  }

  /** A name box starts with `\colorbox{`, whatever the name. */
  lemma BoxPrefix(name: string, end: string)
    ensures ("\\colorbox{cc}{" + name + "} " + end)[..10] == "\\colorbox{"
  {
    var t := "\\colorbox{cc}{" + name + "} " + end;
    assert t[..10] == "\\colorbox{";
  }

  lemma PlainCell(hexcode: nat, end: string)
    requires !IsNamedCode(hexcode)
    ensures CcodeText(hexcode, end) == "\\symbol{" + Format(hexcode, 10, 0) + "} " + end
    ensures |CcodeText(hexcode, end)| >= 10 && CcodeText(hexcode, end)[..10] != "\\colorbox{"
    ensures Parse(Format(hexcode, 10, 0), 10) == hexcode
  {
    ControlCodesDomain(hexcode);
    FormatLength(hexcode, 10, 0);
    FormatParses(hexcode, 10, 0);
    var t := CcodeText(hexcode, end);
    assert t[..10][1] == 's' && "\\colorbox{"[1] == 'c';
  }

  // ---------------------------------------------------------------------
  // The output file and make_table

  /** The open output file: everything written so far, one chunk per `write`. */
  class TexFile {
    var chunks: seq<string>

    constructor ()
      ensures chunks == []
    {
      chunks := [];
    }

    method Write(s: string)
      modifies this
      ensures chunks == old(chunks) + [s]
    {
      chunks := chunks + [s];
    }
  }

  /** `(hexbase << 7) + (msb << 4) + lsb`: the code point in column msb, row lsb of table hexbase. */
  function Code(hexbase: nat, msb: nat, lsb: nat): nat
  {
    Shl(hexbase, 7) + Shl(msb, 4) + lsb
  }

  /** The separator after column msb of the first two sub-rows. */
  function CellEnd(msb: nat): string
  {
    if msb == 7 then "\\\\\n" else " &\n"
  }

  /** The separator after column msb of the third sub-row. */
  function LastCellEnd(msb: nat): string
  {
    if msb == 7 then "\\\\\\hline\n" else " &\n"
  }

  function Repeat(s: string, n: nat): string
  {
    if n == 0 then [] else Repeat(s, n - 1) + s
  }

  /** The column format of the tabular: eight columns of 12 mm, centred. */
  const ColumnSpec: string := "|>{\\PreserveBackslash\\centering}p{12mm}"
  const ColumnCount: nat := 8

  function TableHeader(): string
  {
    "\\noindent\n\\begin{tabular}{" + Repeat(ColumnSpec, ColumnCount) + "|}\n\\hline\n"
  }

  /**
   * The fixed LaTeX texts around the cells: the header and footer of a
   * tabular, the two grey colours and the strut that open the three sub-rows
   * of a row, and the end of the document. The layout below is stated for any
   * texts; `Tex` holds the ones the script writes.
   */
  datatype Snippets = Snippets(header: string, footer: string, grey1: string, grey2: string, strut: string, ending: string)

  const Tex: Snippets := Snippets(
    TableHeader(), "\\end{tabular}\n\n",
    "\\rowcolor{grau1}\n", "\\rowcolor{grau2}\n", "\\vrule width 0pt height 5mm depth 2mm\n",
    "\\end{document}\n")

  /** The first-sub-row cell: `U+%04X` of the code point in small sans-serif. */
  function CodeCell(hexcode: nat, end: string): string
  {
    "{\\footnotesize\\sffamily U+" + Format(hexcode, 16, 4) + "} " + end
  }

  /** The second-sub-row cell: the `get_hex_string` text of the code point. */
  function HexCell(hexcode: nat, end: string): string
  {
    "{\\footnotesize\\sffamily " + Shown(GetHexString(hexcode)) + "} " + end
  }

  function CodeRow(hexbase: nat, lsb: nat): seq<string>
  {
    seq(8, msb requires 0 <= msb < 8 => CodeCell(Code(hexbase, msb, lsb), CellEnd(msb)))
  }

  function HexRow(hexbase: nat, lsb: nat): seq<string>
  {
    seq(8, msb requires 0 <= msb < 8 => HexCell(Code(hexbase, msb, lsb), CellEnd(msb)))
  }

  function CcodeRow(hexbase: nat, lsb: nat): seq<string>
  {
    seq(8, msb requires 0 <= msb < 8 => CcodeText(Code(hexbase, msb, lsb), LastCellEnd(msb)))
  }

  /** The 27 chunks of row lsb: three coloured or strutted sub-rows of eight cells. */
  function RowChunks(sn: Snippets, hexbase: nat, lsb: nat): (r: seq<string>)
    ensures |r| == 27
  {
    [sn.grey1] + CodeRow(hexbase, lsb) + [sn.grey2] + HexRow(hexbase, lsb) + [sn.strut] + CcodeRow(hexbase, lsb)
  }

  /** f(0) + f(1) + ... + f(n-1): the chunks of n consecutive loop passes. */
  function Join<T>(f: nat -> seq<T>, n: nat): seq<T>
  {
    if n == 0 then [] else Join(f, n - 1) + f(n - 1)
  }

  /** Passes of `width` chunks each give `width * n` chunks. */
  lemma {:induction false} JoinLength<T>(f: nat -> seq<T>, width: nat, n: nat)
    requires forall k :: |f(k)| == width
    ensures |Join(f, n)| == width * n
  {
    if n > 0 {
      JoinLength(f, width, n - 1);
    }
  }

  /** Chunk i of pass k comes right after the chunks of passes 0 to k-1. */
  lemma {:induction false} JoinIndex<T>(f: nat -> seq<T>, n: nat, k: nat, i: nat)
    requires k < n && i < |f(k)|
    ensures |Join(f, k)| + i < |Join(f, n)|
    ensures Join(f, n)[|Join(f, k)| + i] == f(k)[i]
  {
    if k < n - 1 {
      JoinIndex(f, n - 1, k, i);
    }
  }

  /** With passes of `width` chunks each, chunk i of pass k is chunk width * k + i. */
  lemma JoinUniformIndex<T>(f: nat -> seq<T>, width: nat, n: nat, k: nat, i: nat)
    requires forall j :: |f(j)| == width
    requires k < n && i < width
    ensures |Join(f, n)| == width * n && width * k + i < width * n
    ensures Join(f, n)[width * k + i] == f(k)[i]
  {
    JoinLength(f, width, k);
    JoinLength(f, width, n);
    JoinIndex(f, n, k, i);
  }

  /** Row lsb of table hexbase, as a function of lsb. */
  function RowsOf(sn: Snippets, hexbase: nat): nat -> seq<string>
  {
    (lsb: nat) => RowChunks(sn, hexbase, lsb)
  }

  /** Rows 0 to n-1, 27 chunks each. */
  function Rows(sn: Snippets, hexbase: nat, n: nat): (r: seq<string>)
    ensures |r| == 27 * n
  {
    JoinLength(RowsOf(sn, hexbase), 27, n);
    Join(RowsOf(sn, hexbase), n)
  }

  /** One more pass of the `lsb` loop appends row n. */
  lemma RowsStep(sn: Snippets, hexbase: nat, n: nat)
    ensures Rows(sn, hexbase, n + 1) == Rows(sn, hexbase, n) + RowChunks(sn, hexbase, n)
  {
    assert Join(RowsOf(sn, hexbase), n + 1) == Join(RowsOf(sn, hexbase), n) + RowsOf(sn, hexbase)(n);
  }

  /** Everything `make_table` writes for one block. */
  function TableChunks(sn: Snippets, hexbase: nat): (r: seq<string>)
    ensures |r| == 434
  {
    [sn.header] + Rows(sn, hexbase, 16) + [sn.footer]
  }

  lemma RowsIndex(sn: Snippets, hexbase: nat, n: nat, lsb: nat, i: nat)
    requires lsb < n && i < 27
    ensures 27 * lsb + i < |Rows(sn, hexbase, n)|
    ensures Rows(sn, hexbase, n)[27 * lsb + i] == RowChunks(sn, hexbase, lsb)[i]
  {
    JoinUniformIndex(RowsOf(sn, hexbase), 27, n, lsb, i);
  }

  /**
   * Cell (row lsb, column msb) of table hexbase is the code point
   * hexbase*128 + msb*16 + lsb, inside the table's block of 128, and the row
   * and column can be read back from it.
   */
  lemma GridCell(hexbase: nat, msb: nat, lsb: nat)
    requires msb < 8 && lsb < 16
    ensures Code(hexbase, msb, lsb) == 128 * hexbase + 16 * msb + lsb
    ensures 128 * hexbase <= Code(hexbase, msb, lsb) < 128 * hexbase + 128
    ensures (Code(hexbase, msb, lsb) - 128 * hexbase) / 16 == msb
    ensures (Code(hexbase, msb, lsb) - 128 * hexbase) % 16 == lsb
  {
    assert Pow2(4) == 16 && Pow2(7) == 128;
    ShlIsMul(hexbase, 7);
    ShlIsMul(msb, 4);
    DivModUnique(16 * msb + lsb, 16, msb, lsb);
  }

  /** Every code point of the block of table hexbase has a cell: the grid lists the block completely. */
  lemma GridCovers(hexbase: nat, hexcode: nat)
    requires 128 * hexbase <= hexcode < 128 * hexbase + 128
    ensures (hexcode - 128 * hexbase) / 16 < 8
    ensures Code(hexbase, (hexcode - 128 * hexbase) / 16, (hexcode - 128 * hexbase) % 16) == hexcode
  {
    var offset := hexcode - 128 * hexbase;
    DivModSplit(offset, 16);
    DivBelow(offset, 16, 8);
    GridCell(hexbase, offset / 16, offset % 16);
  }

  /**
   * What `make_table` writes for row lsb: the grey colour, the eight code
   * points as U+XXXX, the lighter grey, their UTF-8 hex texts, the strut, and
   * their characters or names. Columns 0-6 end with " &"; column 7 ends the
   * line, and in the third sub-row also draws the rule `\hline`.
   */
  lemma RowCells(sn: Snippets, hexbase: nat, msb: nat, lsb: nat)
    requires msb < 8
    ensures RowChunks(sn, hexbase, lsb)[0] == sn.grey1 && RowChunks(sn, hexbase, lsb)[9] == sn.grey2
    ensures RowChunks(sn, hexbase, lsb)[18] == sn.strut
    ensures RowChunks(sn, hexbase, lsb)[1 + msb] == CodeCell(Code(hexbase, msb, lsb), CellEnd(msb))
    ensures RowChunks(sn, hexbase, lsb)[10 + msb] == HexCell(Code(hexbase, msb, lsb), CellEnd(msb))
    ensures RowChunks(sn, hexbase, lsb)[19 + msb] == CcodeText(Code(hexbase, msb, lsb), LastCellEnd(msb))
    ensures CellEnd(msb) == " &\n" <==> msb < 7
    ensures LastCellEnd(msb) == " &\n" <==> msb < 7
    ensures LastCellEnd(msb) != CellEnd(msb) <==> msb == 7
  {
    SubRows(sn.grey1, CodeRow(hexbase, lsb), sn.grey2, HexRow(hexbase, lsb), sn.strut, CcodeRow(hexbase, lsb), msb);
  }

  /** Where the three openers and the cells of three eight-cell sub-rows sit in a row. */
  lemma SubRows(a: string, xs: seq<string>, b: string, ys: seq<string>, c: string, zs: seq<string>, k: nat)
    requires |xs| == |ys| == |zs| == 8 && k < 8
    ensures ([a] + xs + [b] + ys + [c] + zs)[0] == a && ([a] + xs + [b] + ys + [c] + zs)[9] == b
    ensures ([a] + xs + [b] + ys + [c] + zs)[18] == c
    ensures ([a] + xs + [b] + ys + [c] + zs)[1 + k] == xs[k]
    ensures ([a] + xs + [b] + ys + [c] + zs)[10 + k] == ys[k]
    ensures ([a] + xs + [b] + ys + [c] + zs)[19 + k] == zs[k]
  {
  }

  /** A table is its header, rows 0 to 15 of 27 chunks each, and its footer. */
  lemma TableIndex(sn: Snippets, hexbase: nat, lsb: nat, i: nat)
    requires lsb < 16 && i < 27
    ensures TableChunks(sn, hexbase)[0] == sn.header && TableChunks(sn, hexbase)[433] == sn.footer
    ensures TableChunks(sn, hexbase)[1 + 27 * lsb + i] == RowChunks(sn, hexbase, lsb)[i]
  {
    RowsIndex(sn, hexbase, 16, lsb, i);
  }

  /**
   * `make_table`: the header, then for each row lsb its three sub-rows, each
   * recomputing the code point of every column, then the footer.
   */
  method MakeTable(datei: TexFile, hexbase: nat)
    modifies datei
    ensures datei.chunks == old(datei.chunks) + TableChunks(Tex, hexbase)
  {
    var cell := ColumnSpec;
    datei.Write("\\noindent\n\\begin{tabular}{" + Repeat(cell, ColumnCount) + "|}\n\\hline\n");
    ghost var header := datei.chunks;
    assert header == old(datei.chunks) + [Tex.header];
    var lsb := 0;
    while lsb < 16
      invariant 0 <= lsb <= 16
      invariant datei.chunks == header + Rows(Tex, hexbase, lsb)
    {
      WriteRow(datei, hexbase, lsb);
      RowsStep(Tex, hexbase, lsb);
      Concat(header, Rows(Tex, hexbase, lsb), RowChunks(Tex, hexbase, lsb));
      lsb := lsb + 1;
    }
    datei.Write("\\end{tabular}\n\n");
    assert datei.chunks == old(datei.chunks) + [Tex.header] + Rows(Tex, hexbase, 16) + [Tex.footer];
    Enclose(old(datei.chunks), Tex.header, Rows(Tex, hexbase, 16), Tex.footer);
  }

  /** One pass of the `lsb` loop: the three sub-rows of row lsb. */
  method WriteRow(datei: TexFile, hexbase: nat, lsb: nat)
    modifies datei
    ensures datei.chunks == old(datei.chunks) + RowChunks(Tex, hexbase, lsb)
  {
    ghost var before := datei.chunks;
    datei.Write("\\rowcolor{grau1}\n");
    WriteCodeRow(datei, hexbase, lsb);
    ghost var row := [Tex.grey1] + CodeRow(hexbase, lsb);
    assert datei.chunks == before + row;
    datei.Write("\\rowcolor{grau2}\n");
    WriteHexRow(datei, hexbase, lsb);
    Regroup(before, row, Tex.grey2, HexRow(hexbase, lsb));
    row := row + [Tex.grey2] + HexRow(hexbase, lsb);
    datei.Write("\\vrule width 0pt height 5mm depth 2mm\n");
    WriteCcodeRow(datei, hexbase, lsb);
    Regroup(before, row, Tex.strut, CcodeRow(hexbase, lsb));
    row := row + [Tex.strut] + CcodeRow(hexbase, lsb);
    assert row == RowChunks(Tex, hexbase, lsb);
  }

  /** Appending cell k to the cells before it gives the cells up to k. */
  lemma NextCell(before: seq<string>, cells: seq<string>, k: nat, cell: string)
    requires k < |cells| && cell == cells[k]
    ensures before + cells[..k] + [cell] == before + cells[..k + 1]
  {
    assert cells[..k + 1] == cells[..k] + [cells[k]];
  }

  /** After the last cell, the cells written are the whole sub-row. */
  lemma AllCells(before: seq<string>, cells: seq<string>)
    ensures before + cells[..|cells|] == before + cells
  {
    assert cells[..|cells|] == cells;
  }

  lemma Concat(a: seq<string>, b: seq<string>, c: seq<string>)
    ensures a + b + c == a + (b + c)
  {
  }

  lemma Enclose(before: seq<string>, head: string, body: seq<string>, foot: string)
    ensures before + [head] + body + [foot] == before + ([head] + body + [foot])
  {
  }

  lemma Regroup(before: seq<string>, row: seq<string>, s: string, cells: seq<string>)
    ensures before + row + [s] + cells == before + (row + [s] + cells)
  {
  }

  /** The first sub-row of row lsb: `U+%04X` of each column's code point. */
  method WriteCodeRow(datei: TexFile, hexbase: nat, lsb: nat)
    modifies datei
    ensures datei.chunks == old(datei.chunks) + CodeRow(hexbase, lsb)
  {
    var msb := 0;
    while msb < 8
      invariant 0 <= msb <= 8
      invariant datei.chunks == old(datei.chunks) + CodeRow(hexbase, lsb)[..msb]
    {
      var hexcode := Shl(hexbase, 7);
      hexcode := hexcode + Shl(msb, 4);
      hexcode := hexcode + lsb;
      var end;
      if msb == 7 {
        end := "\\\\\n";
      } else {
        end := " &\n";
      }
      assert hexcode == Code(hexbase, msb, lsb) && end == CellEnd(msb);
      datei.Write(CodeCell(hexcode, end));
      NextCell(old(datei.chunks), CodeRow(hexbase, lsb), msb, CodeCell(hexcode, end));
      msb := msb + 1;
    }
    AllCells(old(datei.chunks), CodeRow(hexbase, lsb));
  }

  /** The second sub-row of row lsb: the UTF-8 hex text of each column's code point. */
  method WriteHexRow(datei: TexFile, hexbase: nat, lsb: nat)
    modifies datei
    ensures datei.chunks == old(datei.chunks) + HexRow(hexbase, lsb)
  {
    var msb := 0;
    while msb < 8
      invariant 0 <= msb <= 8
      invariant datei.chunks == old(datei.chunks) + HexRow(hexbase, lsb)[..msb]
    {
      var hexcode := Shl(hexbase, 7);
      hexcode := hexcode + Shl(msb, 4);
      hexcode := hexcode + lsb;
      var end;
      if msb == 7 {
        end := "\\\\\n";
      } else {
        end := " &\n";
      }
      assert hexcode == Code(hexbase, msb, lsb) && end == CellEnd(msb);
      datei.Write(HexCell(hexcode, end));
      NextCell(old(datei.chunks), HexRow(hexbase, lsb), msb, HexCell(hexcode, end));
      msb := msb + 1;
    }
    AllCells(old(datei.chunks), HexRow(hexbase, lsb));
  }

  /** The third sub-row of row lsb: `ccodes` of each column's code point, closed by `\\hline`. */
  method WriteCcodeRow(datei: TexFile, hexbase: nat, lsb: nat)
    modifies datei
    ensures datei.chunks == old(datei.chunks) + CcodeRow(hexbase, lsb)
  {
    var msb := 0;
    while msb < 8
      invariant 0 <= msb <= 8
      invariant datei.chunks == old(datei.chunks) + CcodeRow(hexbase, lsb)[..msb]
    {
      var hexcode := Shl(hexbase, 7);
      hexcode := hexcode + Shl(msb, 4);
      hexcode := hexcode + lsb;
      var end;
      if msb == 7 {
        end := "\\\\\\hline\n";
      } else {
        end := " &\n";
      }
      assert hexcode == Code(hexbase, msb, lsb) && end == LastCellEnd(msb);
      Ccodes(datei, hexcode, end);
      NextCell(old(datei.chunks), CcodeRow(hexbase, lsb), msb, CcodeText(hexcode, end));
      msb := msb + 1;
    }
    AllCells(old(datei.chunks), CcodeRow(hexbase, lsb));
  }

  /** `ccodes`: writes the third cell text of a code point. */
  method Ccodes(datei: TexFile, hexcode: nat, end: string)
    modifies datei
    ensures datei.chunks == old(datei.chunks) + [CcodeText(hexcode, end)]
  {
    if hexcode in ControlCodes {
      datei.Write("\\colorbox{cc}{" + ControlCodes[hexcode] + "} " + end);
    } else {
      datei.Write("\\symbol{" + Format(hexcode, 10, 0) + "} " + end);
    }
  }

  // ---------------------------------------------------------------------
  // The document

  /** The number of tables, `range(0x5a)`. */
  const TableCount: nat := 0x5a

  /** Table n, as a function of n. */
  function TablesOf(sn: Snippets): nat -> seq<string>
  {
    (n: nat) => TableChunks(sn, n)
  }

  /** Tables 0 to n-1, 434 chunks each. */
  function Tables(sn: Snippets, n: nat): (r: seq<string>)
    ensures |r| == 434 * n
  {
    JoinLength(TablesOf(sn), 434, n);
    Join(TablesOf(sn), n)
  }

  /** The whole file with `count` tables: the preamble, the tables and the end of the document. */
  function Chart(sn: Snippets, preamble: string, count: nat): (r: seq<string>)
    ensures |r| == 2 + 434 * count
  {
    [preamble] + Tables(sn, count) + [sn.ending]
  }

  /**
   * The script: open the file, write the preamble, one table per block of 128
   * code points below U+2D00 (`for n in range(0x5a)`), and the end of the document.
   */
  method WriteChart(preamble: string) returns (datei: TexFile)
    ensures fresh(datei) && datei.chunks == Chart(Tex, preamble, TableCount)
  {
    datei := new TexFile();
    datei.Write(preamble);
    WriteBody(datei, preamble, TableCount);
  }

  /** Everything after the preamble: `count` tables and the end of the document. */
  method WriteBody(datei: TexFile, preamble: string, count: nat)
    modifies datei
    requires datei.chunks == [preamble]
    ensures datei.chunks == Chart(Tex, preamble, count)
  {
    WriteTables(datei, count);
    datei.Write("\\end{document}\n");
  }

  /** The loop of the script: `make_table(datei, n)` for n from 0 to count - 1. */
  method WriteTables(datei: TexFile, count: nat)
    modifies datei
    ensures datei.chunks == old(datei.chunks) + Tables(Tex, count)
  {
    var n := 0;
    while n < count
      invariant 0 <= n <= count
      invariant datei.chunks == old(datei.chunks) + Tables(Tex, n)
    {
      MakeTable(datei, n);
      TablesStep(Tex, n);
      Concat(old(datei.chunks), Tables(Tex, n), TableChunks(Tex, n));
      n := n + 1;
    }
  }

  /** One more pass of the table loop appends table n. */
  lemma TablesStep(sn: Snippets, n: nat)
    ensures Tables(sn, n + 1) == Tables(sn, n) + TableChunks(sn, n)
  {
    assert Join(TablesOf(sn), n + 1) == Join(TablesOf(sn), n) + TablesOf(sn)(n);
  }

  lemma TablesIndex(sn: Snippets, n: nat, k: nat, i: nat)
    requires k < n && i < 434
    ensures Tables(sn, n)[434 * k + i] == TableChunks(sn, k)[i]
  {
    JoinUniformIndex(TablesOf(sn), 434, n, k, i);
  }

  /** Chunk i of table n sits at 1 + 434 * n + i in the document, after the preamble. */
  lemma ChartIndex(sn: Snippets, preamble: string, count: nat, n: nat, i: nat)
    requires n < count && i < 434
    ensures Chart(sn, preamble, count)[1 + 434 * n + i] == TableChunks(sn, n)[i]
  {
    var body := Tables(sn, count);
    TablesIndex(sn, count, n, i);
    assert ([preamble] + body + [sn.ending])[1 + 434 * n + i] == body[434 * n + i];
  }

  /**
   * Cell (row lsb, column msb) of table n of the document: its first two
   * sub-rows show the code point in four hex digits and its UTF-8 bytes,
   * never the "0" of a code point beyond U+FFFF. This holds whatever the
   * texts around the cells, so in particular for `Tex`.
   */
  lemma ChartCell(sn: Snippets, preamble: string, count: nat, n: nat, msb: nat, lsb: nat)
    requires n < count <= TableCount && msb < 8 && lsb < 16
    ensures Code(n, msb, lsb) < 128 * TableCount
    ensures Chart(sn, preamble, count)[1 + 434 * n + (1 + 27 * lsb + (1 + msb))] == CodeCell(Code(n, msb, lsb), CellEnd(msb))
    ensures Chart(sn, preamble, count)[1 + 434 * n + (1 + 27 * lsb + (10 + msb))] == HexCell(Code(n, msb, lsb), CellEnd(msb))
    ensures GetHexString(Code(n, msb, lsb)).HexText?
    ensures HexDigits(Format(Code(n, msb, lsb), 16, 4), 4)
    ensures Parse(Format(Code(n, msb, lsb), 16, 4), 16) == Code(n, msb, lsb)
  {
    ChartCodeCell(sn, preamble, count, n, msb, lsb);
    ChartHexCell(sn, preamble, count, n, msb, lsb);
    GridCell(n, msb, lsb);
    Pow16Table();
    FormatHex(Code(n, msb, lsb), 4);
  }

  /** Chunk i of row lsb of table n sits at 1 + 434 * n + 1 + 27 * lsb + i in the document. */
  lemma ChartRowChunk(sn: Snippets, preamble: string, count: nat, n: nat, lsb: nat, i: nat)
    requires n < count && lsb < 16 && i < 27
    ensures Chart(sn, preamble, count)[1 + 434 * n + (1 + 27 * lsb + i)] == RowChunks(sn, n, lsb)[i]
  {
    var j := 1 + 27 * lsb + i;
    assert j < 434;
    TableIndex(sn, n, lsb, i);
    ChartIndex(sn, preamble, count, n, j);
  }

  lemma ChartCodeCell(sn: Snippets, preamble: string, count: nat, n: nat, msb: nat, lsb: nat)
    requires n < count && msb < 8 && lsb < 16
    ensures Chart(sn, preamble, count)[1 + 434 * n + (1 + 27 * lsb + (1 + msb))] == CodeCell(Code(n, msb, lsb), CellEnd(msb))
  {
    ChartRowChunk(sn, preamble, count, n, lsb, 1 + msb);
    RowCells(sn, n, msb, lsb);
  }

  lemma ChartHexCell(sn: Snippets, preamble: string, count: nat, n: nat, msb: nat, lsb: nat)
    requires n < count && msb < 8 && lsb < 16
    ensures Chart(sn, preamble, count)[1 + 434 * n + (1 + 27 * lsb + (10 + msb))] == HexCell(Code(n, msb, lsb), CellEnd(msb))
  {
    ChartRowChunk(sn, preamble, count, n, lsb, 10 + msb);
    RowCells(sn, n, msb, lsb);
  }

  /**
   * Every code point below U+2D00 has a cell in the document: table
   * hexcode / 128, row hexcode % 16, column (hexcode % 128) / 16.
   */
  lemma ChartCovers(hexcode: nat)
    requires hexcode < 128 * TableCount
    ensures hexcode / 128 < TableCount && (hexcode % 128) / 16 < 8
    ensures Code(hexcode / 128, (hexcode % 128) / 16, hexcode % 16) == hexcode
  {
    var table, offset := hexcode / 128, hexcode % 128;
    DivModSplit(hexcode, 128);
    DivBelow(hexcode, 128, TableCount);
    GridCovers(table, hexcode);
    assert hexcode - 128 * table == offset;
    DivModSplit(offset, 16);
    DivModUnique(hexcode, 16, 8 * table + offset / 16, offset % 16);
  }
}
