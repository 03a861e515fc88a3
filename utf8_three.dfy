/**
 * The three-byte UTF-8 illustration (manuskript/images/utf8/utf8_3.py): a
 * code point drawn as 24 bits and six nibbles, its three-byte UTF-8 value
 * packed by a fixed formula and drawn the same way, with grey boxes over the
 * code point's unused high byte and over the UTF-8 marker bits.
 */
module Utf8ThreeByte {
  import opened PyBits
  import opened Digits
  import opened Layout
  import opened DigitLists

  /** The code point the diagram draws (U+221E). */
  const Example: nat := 0x00221E

  /** Cells per row. */
  const Width: nat := 24

  /**
   * `0xE08080 + (((codepoint >> 12) & 0x0f) << 16)
   *  + (((codepoint >> 6) & 0x3f) << 8) + (codepoint & 0x3f)`
   */
  function Utf8Code(codepoint: nat): (v: nat)
  {
    0xE08080 + Shl(And(Shr(codepoint, 12), 0x0f), 16) + Shl(And(Shr(codepoint, 6), 0x3f), 8)
      + And(codepoint, 0x3f)
  }

  /**
   * Undoing the packing: the lead byte's low nibble, then the two 6-bit
   * continuation payloads, `((v >> 16) & 0x0f) << 12 | ((v >> 8) & 0x3f) << 6 | (v & 0x3f)`.
   */
  function Decode(utf8code: nat): (codepoint: nat)
  {
    Or(Or(Shl(And(Shr(utf8code, 16), 0x0f), 12), Shl(And(Shr(utf8code, 8), 0x3f), 6)),
       And(utf8code, 0x3f))
  }

  /** The code-point row: grey [0,8), then [8,12), [12,18) and [18,24). */
  const CodePointBoxes: seq<Box> :=
    [Box(0, 8, true), Box(8, 4, false), Box(12, 6, false), Box(18, 6, false)]

  /** The UTF-8 row, in drawing order: grey [0,4), [8,10), [16,18), then [4,8), [10,16), [18,24). */
  const Utf8Boxes: seq<Box> :=
    [Box(0, 4, true), Box(8, 2, true), Box(16, 2, true),
     Box(4, 4, false), Box(10, 6, false), Box(18, 6, false)]

  /** The three packed fields written in arithmetic. */
  lemma Utf8CodeArith(codepoint: nat)
    ensures Utf8Code(codepoint)
         == 0xE08080 + 0x10000 * ((codepoint / 0x1000) % 16) + 256 * ((codepoint / 64) % 64) + codepoint % 64
  {
    Pow2Table();
    ShrIsDiv(codepoint, 12);
    AndLowMask(Shr(codepoint, 12), 4);
    ShlIsMul(And(Shr(codepoint, 12), 0x0f), 16);
    ShrIsDiv(codepoint, 6);
    AndLowMask(Shr(codepoint, 6), 6);
    ShlIsMul(And(Shr(codepoint, 6), 0x3f), 8);
    AndLowMask(codepoint, 6);
  }

  /** The lead byte 1110xxxx and the two continuation bytes 10xxxxxx, each a marker shifted over its payload. */
  function LeadByte(codepoint: nat): nat
  {
    Shl(0xE, 4) + And(Shr(codepoint, 12), 0x0f)
  }

  function MidByte(codepoint: nat): nat
  {
    Shl(2, 6) + And(Shr(codepoint, 6), 0x3f)
  }

  function LowByte(codepoint: nat): nat
  {
    Shl(2, 6) + And(codepoint, 0x3f)
  }

  /** The packed value is the three bytes side by side. */
  lemma Utf8CodeBytes(codepoint: nat)
    ensures Utf8Code(codepoint)
         == Shl(Shl(LeadByte(codepoint), 8) + MidByte(codepoint), 8) + LowByte(codepoint)
  {
    var top := And(Shr(codepoint, 12), 0x0f);
    var mid := And(Shr(codepoint, 6), 0x3f);
    ShlAdd(Shl(LeadByte(codepoint), 8), MidByte(codepoint), 8);
    ShlShl(LeadByte(codepoint), 8, 8);
    ShlAdd(Shl(0xE, 4), top, 16);
    ShlAdd(Shl(2, 6), mid, 8);
    assert Shl(0xE, 4) == 0xE0 && Shl(2, 6) == 0x80;
    Pow2Table();
    ShlIsMul(0xE0, 16);
    ShlIsMul(0x80, 8);
  }

  lemma LeadByteBit(codepoint: nat, t: nat)
    ensures Bit(LeadByte(codepoint), t) == if t >= 4 then Bit(0xE, t - 4) else Bit(codepoint, t + 12)
  {
    MarkedFieldBit(0xE, Shr(codepoint, 12), 4, t);
    BitOfShr(codepoint, 12, t);
  }

  lemma MidByteBit(codepoint: nat, t: nat)
    ensures Bit(MidByte(codepoint), t) == if t >= 6 then Bit(2, t - 6) else Bit(codepoint, t + 6)
  {
    MarkedFieldBit(2, Shr(codepoint, 6), 6, t);
    BitOfShr(codepoint, 6, t);
  }

  lemma LowByteBit(codepoint: nat, t: nat)
    ensures Bit(LowByte(codepoint), t) == if t >= 6 then Bit(2, t - 6) else Bit(codepoint, t)
  {
    MarkedFieldBit(2, codepoint, 6, t);
  }

  /**
   * Bit j of the packed value: the marker 1110 in bits 23..20, the code point's
   * bits 15..12 in bits 19..16, the marker 10 in bits 15..14, the code point's
   * bits 11..6 in bits 13..8, the marker 10 in bits 7..6 and the code point's
   * bits 5..0 in place.
   */
  lemma Utf8CodeBit(codepoint: nat, j: nat)
    requires j < 24
    ensures Bit(Utf8Code(codepoint), j)
         == if j >= 20 then Bit(0xE, j - 20)
            else if j >= 16 then Bit(codepoint, j - 4)
            else if j >= 14 then Bit(2, j - 14)
            else if j >= 8 then Bit(codepoint, j - 2)
            else if j >= 6 then Bit(2, j - 6)
            else Bit(codepoint, j)
  {
    var upper := Shl(LeadByte(codepoint), 8) + MidByte(codepoint);
    Utf8CodeBytes(codepoint);
    ContinuationBytesFit(codepoint);
    BitOfPacked(upper, LowByte(codepoint), 8, j);
    if j >= 8 {
      UpperBit(codepoint, j - 8);
    } else {
      LowByteBit(codepoint, j);
    }
  }

  /** Bit t of the lead byte followed by the middle byte. */
  lemma UpperBit(codepoint: nat, t: nat)
    requires t < 16
    ensures Bit(Shl(LeadByte(codepoint), 8) + MidByte(codepoint), t)
         == if t >= 12 then Bit(0xE, t - 12)
            else if t >= 8 then Bit(codepoint, t + 4)
            else if t >= 6 then Bit(2, t - 6)
            else Bit(codepoint, t + 6)
  {
    ContinuationBytesFit(codepoint);
    BitOfPacked(LeadByte(codepoint), MidByte(codepoint), 8, t);
    if t >= 8 {
      LeadByteBit(codepoint, t - 8);
    } else {
      MidByteBit(codepoint, t);
    }
  }

  /** Both continuation bytes fit in eight bits. */
  lemma ContinuationBytesFit(codepoint: nat)
    ensures MidByte(codepoint) < Pow2(8) && LowByte(codepoint) < Pow2(8)
  {
    AndLowMask(Shr(codepoint, 6), 6);
    AndLowMask(codepoint, 6);
    assert Pow2(6) == 64 && Pow2(8) == 256;
    assert Shl(2, 6) == 0x80;
  }

  /**
   * The packed value's 24 bits, most significant first, are 1110, the code
   * point's bits 15..12, 10, its bits 11..6, 10, its bits 5..0: the RFC 3629
   * section 3 layout 1110xxxx 10xxxxxx 10xxxxxx.
   */
  lemma Utf8Row(codepoint: nat)
    ensures MsbBits(Utf8Code(codepoint), Width)
         == [1, 1, 1, 0] + MsbBits(codepoint, Width)[8..12] + [1, 0] + MsbBits(codepoint, Width)[12..18]
            + [1, 0] + MsbBits(codepoint, Width)[18..24]
  {
    var row := MsbBits(Utf8Code(codepoint), Width);
    var cp := MsbBits(codepoint, Width);
    var want := [1, 1, 1, 0] + cp[8..12] + [1, 0] + cp[12..18] + [1, 0] + cp[18..24];
    forall i | 0 <= i < 24
      ensures row[i] == want[i]
    {
      Utf8RowCell(codepoint, i);
    }
  }

  /** Cell i of the UTF-8 row, most significant first. */
  lemma Utf8RowCell(codepoint: nat, i: nat)
    requires i < 24
    ensures var cp := MsbBits(codepoint, Width);
            MsbBits(Utf8Code(codepoint), Width)[i]
            == (if i < 4 then (if i == 3 then 0 else 1)
                else if i < 8 then cp[i + 4]
                else if i < 10 then (if i == 8 then 1 else 0)
                else if i < 16 then cp[i + 2]
                else if i < 18 then (if i == 16 then 1 else 0)
                else cp[i])
  {
    Utf8CodeBit(codepoint, 23 - i);
    assert Bit(0xE, 0) == 0 && Bit(0xE, 1) == 1 && Bit(0xE, 2) == 1 && Bit(0xE, 3) == 1;
    assert Bit(2, 0) == 0 && Bit(2, 1) == 1;
  }

  /** The marker bits: 1110 at the top of the lead byte, 10 at the top of both continuation bytes. */
  lemma Utf8Markers(codepoint: nat)
    ensures MsbBits(Utf8Code(codepoint), Width)[..4] == [1, 1, 1, 0]
    ensures MsbBits(Utf8Code(codepoint), Width)[8..10] == [1, 0]
    ensures MsbBits(Utf8Code(codepoint), Width)[16..18] == [1, 0]
  {
    Utf8Row(codepoint);
  }

  /** The packed value always fits in three bytes. */
  lemma Utf8CodeThreeBytes(codepoint: nat)
    ensures 0xE08080 <= Utf8Code(codepoint) < 0x100_0000
  {
    Utf8CodeArith(codepoint);
  }

  /** The three masks of the decoding formula pick out the three payloads again. */
  lemma DecodeFields(v: nat, a: nat, b: nat, c: nat)
    requires a < 16 && b < 64 && c < 64
    requires v == 0xE08080 + 0x10000 * a + 256 * b + c
    ensures And(Shr(v, 16), 0x0f) == a && And(Shr(v, 8), 0x3f) == b && And(v, 0x3f) == c
  {
    Pow2Table();
    ShrIsDiv(v, 16);
    DivModUnique(v, 0x10000, 0xE0 + a, 0x8080 + 256 * b + c);
    AndLowMask(Shr(v, 16), 4);
    DivModUnique(0xE0 + a, 16, 14, a);
    ShrIsDiv(v, 8);
    DivModUnique(v, 256, 0xE080 + 256 * a + b, 0x80 + c);
    AndLowMask(Shr(v, 8), 6);
    DivModUnique(0xE080 + 256 * a + b, 64, 898 + 4 * a, b);
    AndLowMask(v, 6);
    DivModUnique(v, 64, 229890 + 1024 * a + 4 * b, c);
  }

  /** `a << 12 | b << 6 | c` is a sum when b and c fit in six bits. */
  lemma Assemble(a: nat, b: nat, c: nat)
    requires b < 64 && c < 64
    ensures Or(Or(Shl(a, 12), Shl(b, 6)), c) == 0x1000 * a + 64 * b + c
  {
    AssembleHigh(a, b);
    OrDisjoint(64 * a + b, c, 6);
    ShlIsMul(64 * a + b, 6);
    assert Pow2(6) == 64;
  }

  /** `a << 12 | b << 6` is `(64 a + b) << 6` when b fits in six bits. */
  lemma AssembleHigh(a: nat, b: nat)
    requires b < 64
    ensures Or(Shl(a, 12), Shl(b, 6)) == Shl(64 * a + b, 6)
  {
    assert Pow2(6) == 64;
    ShlShl(a, 6, 6);
    OrShl(Shl(a, 6), b, 6);
    OrDisjoint(a, b, 6);
    ShlIsMul(a, 6);
  }

  /** Decoding the packed value gives back every code point up to U+FFFF. */
  lemma DecodeUtf8Code(codepoint: nat)
    requires codepoint <= 0xFFFF
    ensures Decode(Utf8Code(codepoint)) == codepoint
  {
    var q := codepoint / 64;
    var a, b, c := q / 64, q % 64, codepoint % 64;
    DivModSplit(codepoint, 64);
    DivModSplit(q, 64);
    assert codepoint == 0x1000 * a + 64 * b + c;
    DivModUnique(codepoint, 0x1000, a, 64 * b + c);
    DivModUnique(a, 16, 0, a);
    Utf8CodeArith(codepoint);
    DecodeFields(Utf8Code(codepoint), a, b, c);
    Assemble(a, b, c);
  }

  /** The code-point row is cut into whole boxes that cover each of the 24 cells once. */
  lemma CodePointRowPartitioned()
    ensures Partitions(CodePointBoxes, Width)
  {
    forall i | 0 <= i < Width
      ensures CoverCount(CodePointBoxes, i) == 1
    {
      var c := CodePointBoxes;
      assert c[1..][1..][1..][1..] == [];
      assert CoverCount(c[1..][1..][1..], i) == if Covers(c[3], i) then 1 else 0;
      assert CoverCount(c[1..][1..], i) == (if Covers(c[2], i) then 1 else 0) + CoverCount(c[1..][1..][1..], i);
    }
  }

  /** The UTF-8 row is cut into whole boxes that cover each of the 24 cells once. */
  lemma Utf8RowPartitioned()
    ensures Partitions(Utf8Boxes, Width)
  {
    forall i | 0 <= i < Width
      ensures CoverCount(Utf8Boxes, i) == 1
    {
      var u := Utf8Boxes;
      assert u[1..][1..][1..][1..][1..][1..] == [];
      assert CoverCount(u[1..][1..][1..][1..][1..], i) == if Covers(u[5], i) then 1 else 0;
      assert CoverCount(u[1..][1..][1..][1..], i)
          == (if Covers(u[4], i) then 1 else 0) + CoverCount(u[1..][1..][1..][1..][1..], i);
      assert CoverCount(u[1..][1..][1..], i)
          == (if Covers(u[3], i) then 1 else 0) + CoverCount(u[1..][1..][1..][1..], i);
      assert CoverCount(u[1..][1..], i)
          == (if Covers(u[2], i) then 1 else 0) + CoverCount(u[1..][1..][1..], i);
    }
  }

  /** The grey box of the code-point row covers the high byte, which is 0 up to U+FFFF. */
  lemma CodePointShadingIsZero(codepoint: nat, k: nat, i: nat)
    requires codepoint <= 0xFFFF
    requires k < |CodePointBoxes| && CodePointBoxes[k].shaded && Covers(CodePointBoxes[k], i)
    ensures MsbBits(codepoint, Width)[i] == 0
  {
    Pow2Table();
    HighBitZero(codepoint, 16, 23 - i);
  }

  /**
   * The grey boxes of the UTF-8 row hold exactly the marker bits (those of the
   * constant 0xE08080: 1110, 10, 10); the white boxes hold the code point's
   * low sixteen bits, where 0xE08080 has zeros.
   */
  lemma Utf8Shading(codepoint: nat, k: nat, i: nat)
    requires k < |Utf8Boxes| && Covers(Utf8Boxes[k], i)
    ensures Utf8Boxes[k].shaded ==> MsbBits(Utf8Code(codepoint), Width)[i] == MsbBits(0xE08080, Width)[i]
    ensures !Utf8Boxes[k].shaded ==> MsbBits(0xE08080, Width)[i] == 0
  {
    Utf8Row(codepoint);
    Utf8Row(0);
    assert Utf8Code(0) == 0xE08080;
    var zero := MsbBits(0, Width);
    forall j | 0 <= j < Width
      ensures zero[j] == 0
    {
      HighBitZero(0, 0, 23 - j);
    }
  }

  /**
   * The arrows of the diagram: the white boxes of the UTF-8 row repeat the
   * code point's white boxes, [8,12) into [4,8), [12,18) into [10,16) and
   * [18,24) in place.
   */
  lemma PayloadArrows(codepoint: nat, i: nat)
    requires 8 <= i < 24
    ensures var cp := MsbBits(codepoint, Width);
            var utf8 := MsbBits(Utf8Code(codepoint), Width);
            if i < 12 then utf8[i - 4] == cp[i]
            else if i < 18 then utf8[i - 2] == cp[i]
            else utf8[i] == cp[i]
  {
    Utf8Row(codepoint);
  }

  /** U+221E packs to 0xE2889E. */
  lemma ExamplePacks()
    ensures Utf8Code(Example) == 0xE2889E
  {
    PackedFields(Example, 2, 8, 0x1E);
  }

  /**
   * A code point 4096 h + 64 m + l with a four-bit h and six-bit m and l packs
   * to 0xE08080 + 0x10000 h + 256 m + l.
   */
  lemma PackedFields(codepoint: nat, h: nat, m: nat, l: nat)
    requires h < 16 && m < 64 && l < 64 && codepoint == 4096 * h + 64 * m + l
    ensures Utf8Code(codepoint) == 0xE08080 + 0x10000 * h + 256 * m + l
  {
    Utf8CodeArith(codepoint);
    DivModUnique(codepoint, 0x1000, h, 64 * m + l);
    DivModUnique(h, 16, 0, h);
    DivModUnique(codepoint, 64, 64 * h + m, l);
    DivModUnique(64 * h + m, 64, h, m);
  }

  /** The labels the script draws. */
  datatype Diagram = Diagram(
    codepointBits: seq<nat>,
    codepointNibbles: seq<nat>,
    utf8code: nat,
    utf8Bits: seq<nat>,
    utf8Nibbles: seq<nat>)

  /**
   * The script for a code point: bit list reversed to most
   * significant first, the six nibble labels, the packed value, its bit list
   * and its nibble labels. The UTF-8 rows always read back to the packed
   * value, the code-point rows whenever the code point fits in 24 bits.
   */
  method Draw(codepoint: nat) returns (d: Diagram)
    ensures d.codepointBits == MsbBits(codepoint, Width)
    ensures d.codepointNibbles == Nibbles(codepoint, Width / 4)
    ensures d.utf8code == Utf8Code(codepoint)
    ensures d.utf8Bits == MsbBits(d.utf8code, Width) && d.utf8Nibbles == Nibbles(d.utf8code, Width / 4)
    ensures codepoint < 0x100_0000 ==>
      FromDigits(d.codepointBits, 2) == codepoint && FromDigits(d.codepointNibbles, 16) == codepoint
    ensures FromDigits(d.utf8Bits, 2) == d.utf8code && FromDigits(d.utf8Nibbles, 16) == d.utf8code
  {
    Pow2Table();
    var codepointbinary := BitList(codepoint, Width);
    var cpLabels := NibbleLabels(codepoint, Width);
    var utf8code := 0xE08080 + Shl(And(Shr(codepoint, 12), 0x0f), 16)
      + Shl(And(Shr(codepoint, 6), 0x3f), 8) + And(codepoint, 0x3f);
    Utf8CodeThreeBytes(codepoint);
    var utf8codebinary := BitList(utf8code, Width);
    var utf8Labels := NibbleLabels(utf8code, Width);
    d := Diagram(codepointbinary, cpLabels, utf8code, utf8codebinary, utf8Labels);
  }
}
