/**
 * The two-byte UTF-8 illustration (manuskript/images/utf8/utf8_2.py): a
 * 16-bit code point drawn as bits and nibbles, its two-byte UTF-8 value
 * packed by a fixed formula and drawn the same way, with grey boxes over the
 * code point's unused high bits and over the UTF-8 marker bits.
 */
module Utf8TwoByte {
  import opened PyBits
  import opened Digits
  import opened Layout
  import opened DigitLists

  /** The code point the diagram draws (U+00E9). */
  const Example: nat := 0x00E9

  /** Cells per row. */
  const Width: nat := 16

  /** `0xC080 + (((codepoint >> 6) & 0x1f) << 8) + (codepoint & 0x3f)` */
  function Utf8Code(codepoint: nat): (v: nat)
  {
    0xC080 + Shl(And(Shr(codepoint, 6), 0x1f), 8) + And(codepoint, 0x3f)
  }

  /** Undoing the packing: `((utf8code >> 8) & 0x1F) << 6 | (utf8code & 0x3F)`. */
  function Decode(utf8code: nat): (codepoint: nat)
  {
    Or(Shl(And(Shr(utf8code, 8), 0x1f), 6), And(utf8code, 0x3f))
  }

  /** The code-point row: grey [0,5), then [5,10) and [10,16). */
  const CodePointBoxes: seq<Box> := [Box(0, 5, true), Box(5, 5, false), Box(10, 6, false)]

  /** The UTF-8 row, in drawing order: grey [0,3) and [8,10), then [3,8) and [10,16). */
  const Utf8Boxes: seq<Box> := [Box(0, 3, true), Box(8, 2, true), Box(3, 5, false), Box(10, 6, false)]

  /** The two packed fields written in arithmetic. */
  lemma Utf8CodeArith(codepoint: nat)
    ensures Utf8Code(codepoint) == 0xC080 + 256 * ((codepoint / 64) % 32) + codepoint % 64
  {
    HighField(codepoint);
    LowField(codepoint);
    ShlIsMul(And(Shr(codepoint, 6), 0x1f), 8);
    assert Pow2(8) == 256;
  }

  /** `(codepoint >> 6) & 0x1f` is bits 10..6 of the code point. */
  lemma HighField(codepoint: nat)
    ensures And(Shr(codepoint, 6), 0x1f) == (codepoint / 64) % 32
  {
    ShrIsDiv(codepoint, 6);
    AndLowMask(Shr(codepoint, 6), 5);
    assert Pow2(6) == 64 && Pow2(5) == 32;
  }

  /** `codepoint & 0x3f` is bits 5..0 of the code point. */
  lemma LowField(codepoint: nat)
    ensures And(codepoint, 0x3f) == codepoint % 64
  {
    AndLowMask(codepoint, 6);
    assert Pow2(6) == 64;
  }

  /** The lead byte 110xxxxx and the continuation byte 10xxxxxx, each a marker shifted over its payload. */
  function LeadByte(codepoint: nat): nat
  {
    Shl(6, 5) + And(Shr(codepoint, 6), 0x1f)
  }

  function ContByte(codepoint: nat): nat
  {
    Shl(2, 6) + And(codepoint, 0x3f)
  }

  /** The packed value is the two bytes side by side, and the continuation byte fits in eight bits. */
  lemma Utf8CodeBytes(codepoint: nat)
    ensures Utf8Code(codepoint) == Shl(LeadByte(codepoint), 8) + ContByte(codepoint)
    ensures ContByte(codepoint) < Pow2(8)
  {
    ShlAdd(Shl(6, 5), And(Shr(codepoint, 6), 0x1f), 8);
    assert Shl(6, 5) == 0xC0 && Shl(2, 6) == 0x80 && Shl(0xC0, 8) == 0xC000;
    LowField(codepoint);
    assert Pow2(8) == 256;
  }

  lemma LeadByteBit(codepoint: nat, t: nat)
    ensures Bit(LeadByte(codepoint), t) == if t >= 5 then Bit(6, t - 5) else Bit(codepoint, t + 6)
  {
    MarkedFieldBit(6, Shr(codepoint, 6), 5, t);
    BitOfShr(codepoint, 6, t);
  }

  lemma ContByteBit(codepoint: nat, t: nat)
    ensures Bit(ContByte(codepoint), t) == if t >= 6 then Bit(2, t - 6) else Bit(codepoint, t)
  {
    MarkedFieldBit(2, codepoint, 6, t);
  }

  /**
   * Bit j of the packed value: the marker 110 in bits 15..13, the code point's
   * bits 10..6 in bits 12..8, the marker 10 in bits 7..6, the code point's
   * bits 5..0 in place.
   */
  lemma Utf8CodeBit(codepoint: nat, j: nat)
    requires j < 16
    ensures Bit(Utf8Code(codepoint), j)
         == if j >= 13 then Bit(6, j - 13)
            else if j >= 8 then Bit(codepoint, j - 2)
            else if j >= 6 then Bit(2, j - 6)
            else Bit(codepoint, j)
  {
    Utf8CodeBytes(codepoint);
    BitOfPacked(LeadByte(codepoint), ContByte(codepoint), 8, j);
    if j >= 8 {
      LeadByteBit(codepoint, j - 8);
    } else {
      ContByteBit(codepoint, j);
    }
  }

  /**
   * The packed value's 16 bits, most significant first, are the marker 110,
   * the code point's bits 10..6, the marker 10 and the code point's bits 5..0:
   * the RFC 3629 section 3 layout 110xxxxx 10xxxxxx.
   */
  lemma Utf8Row(codepoint: nat)
    ensures MsbBits(Utf8Code(codepoint), Width)
         == [1, 1, 0] + MsbBits(codepoint, Width)[5..10] + [1, 0] + MsbBits(codepoint, Width)[10..16]
  {
    var row := MsbBits(Utf8Code(codepoint), Width);
    var cp := MsbBits(codepoint, Width);
    var want := [1, 1, 0] + cp[5..10] + [1, 0] + cp[10..16];
    assert Bit(6, 0) == 0 && Bit(6, 1) == 1 && Bit(6, 2) == 1;
    assert Bit(2, 0) == 0 && Bit(2, 1) == 1;
    forall i | 0 <= i < 16
      ensures row[i] == want[i]
    {
      Utf8CodeBit(codepoint, 15 - i);
    }
  }

  /** The marker bits: 110 at the top of the high byte, 10 at the top of the low byte. */
  lemma Utf8Markers(codepoint: nat)
    ensures MsbBits(Utf8Code(codepoint), Width)[..3] == [1, 1, 0]
    ensures MsbBits(Utf8Code(codepoint), Width)[8..10] == [1, 0]
  {
    Utf8Row(codepoint);
  }

  /** The packed value always fits in two bytes. */
  lemma Utf8CodeTwoBytes(codepoint: nat)
    ensures 0xC080 <= Utf8Code(codepoint) < 0x10000
  {
    Utf8CodeArith(codepoint);
  }

  /** The decoder's two masks pick the five-bit and the six-bit field back out. */
  lemma DecodeFields(v: nat, h: nat, l: nat)
    requires h < 32 && l < 64 && v == 0xC080 + 256 * h + l
    ensures And(Shr(v, 8), 0x1f) == h && And(v, 0x3f) == l
  {
    ShrIsDiv(v, 8);
    DivModUnique(v, 256, 0xC0 + h, 0x80 + l);
    AndLowMask(Shr(v, 8), 5);
    DivModUnique(0xC0 + h, 32, 6, h);
    AndLowMask(v, 6);
    DivModUnique(v, 64, 770 + 4 * h, l);
  }

  /** Decoding the packed value gives back every code point of up to 11 bits. */
  lemma DecodeUtf8Code(codepoint: nat)
    requires codepoint <= 0x7FF
    ensures Decode(Utf8Code(codepoint)) == codepoint
  {
    var v := Utf8Code(codepoint);
    var h, l := codepoint / 64, codepoint % 64;
    DivModSplit(codepoint, 64);
    DivBelow(codepoint, 64, 32);
    Utf8CodeArith(codepoint);
    DivModUnique(h, 32, 0, h);
    DecodeFields(v, h, l);
    OrDisjoint(h, l, 6);
    ShlIsMul(h, 6);
    assert Pow2(6) == 64;
  }

  /** The code-point row is cut into whole boxes that cover each of the 16 cells once. */
  lemma CodePointRowPartitioned()
    ensures Partitions(CodePointBoxes, Width)
  {
    forall i | 0 <= i < Width
      ensures CoverCount(CodePointBoxes, i) == 1
    {
      var c := CodePointBoxes;
      assert c[1..][1..][1..] == [];
      assert CoverCount(c[1..][1..], i) == if Covers(c[2], i) then 1 else 0;
    }
  }

  /** The UTF-8 row is cut into whole boxes that cover each of the 16 cells once. */
  lemma Utf8RowPartitioned()
    ensures Partitions(Utf8Boxes, Width)
  {
    forall i | 0 <= i < Width
      ensures CoverCount(Utf8Boxes, i) == 1
    {
      var u := Utf8Boxes;
      assert u[1..][1..][1..][1..] == [];
      assert CoverCount(u[1..][1..][1..], i) == if Covers(u[3], i) then 1 else 0;
      assert CoverCount(u[1..][1..], i) == (if Covers(u[2], i) then 1 else 0) + CoverCount(u[1..][1..][1..], i);
    }
  }

  /** The grey box of the code-point row only covers bits that are 0 below U+0800. */
  lemma CodePointShadingIsZero(codepoint: nat, k: nat, i: nat)
    requires codepoint <= 0x7FF
    requires k < |CodePointBoxes| && CodePointBoxes[k].shaded && Covers(CodePointBoxes[k], i)
    ensures MsbBits(codepoint, Width)[i] == 0
  {
    HighBitZero(codepoint, 11, 15 - i);
  }

  /**
   * The grey boxes of the UTF-8 row hold exactly the marker bits (those of the
   * constant 0xC080, 110 and 10); the white boxes hold the code point's low
   * eleven bits, where 0xC080 has zeros.
   */
  lemma Utf8Shading(codepoint: nat, k: nat, i: nat)
    requires k < |Utf8Boxes| && Covers(Utf8Boxes[k], i)
    ensures Utf8Boxes[k].shaded ==> MsbBits(Utf8Code(codepoint), Width)[i] == MsbBits(0xC080, Width)[i]
    ensures !Utf8Boxes[k].shaded ==> MsbBits(0xC080, Width)[i] == 0
  {
    Utf8Row(codepoint);
    Utf8Row(0);
    assert Utf8Code(0) == 0xC080;
    var zero := MsbBits(0, Width);
    forall j | 0 <= j < Width
      ensures zero[j] == 0
    {
      HighBitZero(0, 0, 15 - j);
    }
  }

  /**
   * The arrows of the diagram: the white boxes of the UTF-8 row repeat the
   * code point's two white boxes, [5,10) into [3,8) and [10,16) in place.
   */
  lemma PayloadArrows(codepoint: nat, i: nat)
    requires i < 11
    ensures var cp := MsbBits(codepoint, Width);
            var utf8 := MsbBits(Utf8Code(codepoint), Width);
            if i < 5 then utf8[3 + i] == cp[5 + i] else utf8[5 + i] == cp[5 + i]
  {
    Utf8Row(codepoint);
  }

  /** U+00E9 packs to 0xC3A9. */
  lemma ExamplePacks()
    ensures Utf8Code(Example) == 0xC3A9
  {
    PackedFields(Example, 3, 0x29);
  }

  /** A code point 64 h + l with a five-bit h and a six-bit l packs to 0xC080 + 256 h + l. */
  lemma PackedFields(codepoint: nat, h: nat, l: nat)
    requires h < 32 && l < 64 && codepoint == 64 * h + l
    ensures Utf8Code(codepoint) == 0xC080 + 256 * h + l
  {
    Utf8CodeArith(codepoint);
    DivModUnique(codepoint, 64, h, l);
    DivModUnique(h, 32, 0, h);
  }

  /** The labels the script draws. */
  datatype Diagram = Diagram(
    codepointBits: seq<nat>,
    codepointNibbles: seq<nat>,
    utf8code: nat,
    utf8Bits: seq<nat>,
    utf8Nibbles: seq<nat>)

  /**
   * The script for a code point: bit list reversed to most significant
   * first, the four nibble labels, the packed value, its bit list and its
   * nibble labels. The UTF-8 rows always read back to the packed value, the
   * code-point rows whenever the code point fits in 16 bits.
   */
  method Draw(codepoint: nat) returns (d: Diagram)
    ensures d.codepointBits == MsbBits(codepoint, Width)
    ensures d.codepointNibbles == Nibbles(codepoint, Width / 4)
    ensures d.utf8code == Utf8Code(codepoint)
    ensures d.utf8Bits == MsbBits(d.utf8code, Width) && d.utf8Nibbles == Nibbles(d.utf8code, Width / 4)
    ensures codepoint < 0x10000 ==>
      FromDigits(d.codepointBits, 2) == codepoint && FromDigits(d.codepointNibbles, 16) == codepoint
    ensures FromDigits(d.utf8Bits, 2) == d.utf8code && FromDigits(d.utf8Nibbles, 16) == d.utf8code
  {
    var codepointbinary := BitList(codepoint, Width);
    var cpLabels := NibbleLabels(codepoint, Width);
    var utf8code := 0xC080 + Shl(And(Shr(codepoint, 6), 0x1f), 8) + And(codepoint, 0x3f);
    Utf8CodeTwoBytes(codepoint);
    Pow2Table();
    var utf8codebinary := BitList(utf8code, Width);
    var utf8Labels := NibbleLabels(utf8code, Width);
    d := Diagram(codepointbinary, cpLabels, utf8code, utf8codebinary, utf8Labels);
  }
}
