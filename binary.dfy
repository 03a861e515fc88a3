/**
 * The 32-bit figure of jupyterbook/eidprog/images/integers/binary.py: a number
 * drawn as 32 bit cells, eight hexadecimal nibble labels and the decimal value
 * of the bit pattern read as a signed two's-complement integer; the figure
 * shows a number and, below it, its negation `(number ^ 0xffffffff)+1`.
 */
module BinaryFigure {
  import opened PyBits
  import opened Digits

  /** The number of the upper row. */
  const Number: nat := 0x6cd8932f

  /** Invert all 32 bits and add one: `(number ^ 0xffffffff)+1`. */
  function Negate(number: nat): (r: nat)
  {
    Xor(number, 0xffffffff) + 1
  }

  /**
   * The decimal label: when `number >> 31` is non-zero the figure prints a minus
   * sign and `(number ^ 0xffffffff)+1`, otherwise number itself.
   */
  function SignedLabel(number: nat): (shown: int)
  {
    if Shr(number, 31) != 0 then -(Negate(number) as int) else number
  }

  /**
   * On 32-bit patterns, negation is subtraction from 2^32: it stays below 2^32
   * and undoes itself for every non-zero pattern, while 0 is sent to 2^32,
   * which no longer fits in 32 bits.
   */
  lemma NegateIsComplement(n: nat)
    requires n < Pow2(32)
    ensures Negate(n) == Pow2(32) - n
    ensures 0 < n ==> Negate(n) < Pow2(32) && Negate(Negate(n)) == n
    ensures n == 0 ==> Negate(n) == Pow2(32)
  {
    Pow2Table();
    XorAllOnes(n, 32);
    if 0 < n {
      XorAllOnes(Pow2(32) - n, 32);
    }
  }

  /**
   * The label is the two's-complement value of the pattern: the number itself
   * when bit 31 is clear, the number minus 2^32 when it is set, and in either
   * case within [-2^31, 2^31).
   */
  lemma SignedLabelIsTwosComplement(number: nat)
    requires number < Pow2(32)
    ensures SignedLabel(number) == if number < Pow2(31) then number else number - Pow2(32)
    ensures -(Pow2(31) as int) <= SignedLabel(number) < Pow2(31)
  {
    Pow2Table();
    ShrIsDiv(number, 31);
    if number < Pow2(31) {
      DivModUnique(number, Pow2(31), 0, number);
    } else {
      DivModUnique(number, Pow2(31), 1, number - Pow2(31));
      NegateIsComplement(number);
    }
  }

  /**
   * Negating a pattern negates its label, for every pattern but 0 and
   * 0x80000000, whose labels (0 and -2^31) are their own negations' labels.
   */
  lemma NegateFlipsLabel(n: nat)
    requires 0 < n < Pow2(32) && n != Pow2(31)
    ensures SignedLabel(Negate(n)) == -SignedLabel(n)
  {
    NegateIsComplement(n);
    SignedLabelIsTwosComplement(n);
    SignedLabelIsTwosComplement(Negate(n));
  }

  /** The figure's two rows: 0x6CD8932F labelled 1826132783 and 0x93276CD1 labelled -1826132783. */
  lemma FigureLabels()
    ensures Negate(Number) == 0x93276CD1
    ensures SignedLabel(Number) == 1826132783
    ensures SignedLabel(Negate(Number)) == -1826132783
  {
    Pow2Table();
    NegateIsComplement(Number);
    SignedLabelIsTwosComplement(Number);
    NegateFlipsLabel(Number);
  }

  /** The labels one call of the drawing routine puts on the canvas. */
  datatype Row = Row(digits: seq<nat>, nibbles: seq<nat>, decimal: int)

  /**
   * `makebinaries`: the 32 bit labels `(number >> 31-n) & 1`, then per byte n
   * the high nibble `(number >> (3-n)*8+4) & 15` and the low nibble
   * `(number >> (3-n)*8) & 15`, and the signed label. For a 32-bit number the
   * bits are 0 or 1 and read back to it, and so do the eight nibbles in base 16.
   */
  method MakeBinaries(number: nat) returns (row: Row)
    ensures row.digits == MsbBits(number, 32)
    ensures row.nibbles == Nibbles(number, 8)
    ensures row.decimal == SignedLabel(number)
    ensures number < Pow2(32) ==>
      && (forall n | 0 <= n < 32 :: row.digits[n] <= 1)
      && FromDigits(row.digits, 2) == number
      && (forall n | 0 <= n < 8 :: row.nibbles[n] < 16)
      && FromDigits(row.nibbles, 16) == number
  {
    var digits := [];
    var n := 0;
    while n < 32
      invariant 0 <= n <= 32
      invariant digits == MsbBits(number, 32)[..n]
    {
      BitLabel(number, n);
      digits := digits + [And(Shr(number, 31 - n), 1)];
      n := n + 1;
    }
    var decimal: int;
    if Shr(number, 31) != 0 {
      decimal := -(Xor(number, 0xffffffff) + 1);
    } else {
      decimal := number;
    }
    var nibbles := [];
    n := 0;
    while n < 4
      invariant 0 <= n <= 4
      invariant nibbles == Nibbles(number, 8)[..2 * n]
    {
      NibblePair(number, n);
      nibbles := nibbles + [And(Shr(number, (3 - n) * 8 + 4), 15)];
      nibbles := nibbles + [And(Shr(number, (3 - n) * 8), 15)];
      n := n + 1;
    }
    row := Row(digits, nibbles, decimal);
    assert digits == MsbBits(number, 32) && nibbles == Nibbles(number, 8);
    if number < Pow2(32) {
      MsbBitsReadBack(number, 32);
      assert 4 * 8 == 32;
      NibblesReadBack(number, 8);
    }
  }

  /** The label of bit cell n is bit 31 - n of the number, and the prefix grows by it. */
  lemma BitLabel(number: nat, n: nat)
    requires n < 32
    ensures MsbBits(number, 32)[..n] + [And(Shr(number, 31 - n), 1)] == MsbBits(number, 32)[..n + 1]
  {
    AndLowMask(Shr(number, 31 - n), 1);
    assert Pow2(1) == 2;
    var row := MsbBits(number, 32);
    assert row[n] == Bit(number, 31 - n);
    PrefixGrows(row, n);
  }

  /** The two labels of byte n are nibbles 2n and 2n + 1, and the prefix grows by them. */
  lemma NibblePair(number: nat, n: nat)
    requires n < 4
    ensures Nibbles(number, 8)[..2 * n] + [And(Shr(number, (3 - n) * 8 + 4), 15)] + [And(Shr(number, (3 - n) * 8), 15)]
      == Nibbles(number, 8)[..2 * n + 2]
  {
    var row := Nibbles(number, 8);
    var high, low := (3 - n) * 8 + 4, (3 - n) * 8;
    assert (8 - 2 * n - 1) * 4 == high && (8 - (2 * n + 1) - 1) * 4 == low;
    assert row[2 * n] == And(Shr(number, high), 15);
    assert row[2 * n + 1] == And(Shr(number, low), 15);
    PrefixGrows(row, 2 * n);
    PrefixGrows(row, 2 * n + 1);
  }

  /** The script: the number on the upper row, its negation on the lower one. */
  method Figure() returns (upper: Row, lower: Row)
    ensures FromDigits(upper.digits, 2) == Number && upper.decimal == 1826132783
    ensures FromDigits(lower.digits, 2) == 0x93276CD1 && lower.decimal == -1826132783
  {
    Pow2Table();
    FigureLabels();
    upper := MakeBinaries(Number);
    lower := MakeBinaries(Xor(Number, 0xffffffff) + 1);
  }
}
