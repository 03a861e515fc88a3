/**
 * The digit views the diagrams draw: a row of bits or of hexadecimal nibbles,
 * most significant first, and the text Python's `%0wX` and `%i` produce for a
 * non-negative integer. Each view comes with its way back to the number.
 */
module Digits {
  import opened PyBits

  // ---------------------------------------------------------------------
  // Rows of digits

  /** The number a row of digits in `base` denotes, most significant first. */
  function FromDigits(row: seq<nat>, base: nat): (v: nat)
  {
    if row == [] then 0 else base * FromDigits(row[..|row| - 1], base) + row[|row| - 1]
  }

  /** The `width` low bits of x, most significant first. */
  function MsbBits(x: nat, width: nat): (row: seq<nat>)
  {
    seq(width, i requires 0 <= i < width => Bit(x, width - 1 - i))
  }

  /**
   * The `count` low nibbles of x, most significant first; nibble i is
   * `x >> (count - i - 1)*4 & 0x0f`, the diagrams' label formula.
   */
  function Nibbles(x: nat, count: nat): (row: seq<nat>)
  {
    seq<nat>(count, i requires 0 <= i < count => And(Shr(x, (count - i - 1) * 4), 0x0f))
  }

  /** A prefix one longer is the prefix followed by the next element. */
  lemma PrefixGrows<T>(s: seq<T>, k: nat)
    requires k < |s|
    ensures s[..k + 1] == s[..k] + [s[k]]
  {
  }

  lemma BitHalves(x: nat, j: nat)
    requires j > 0
    ensures Bit(x, j) == Bit(x / 2, j - 1)
  {
  }

  lemma {:induction false} ShrShr(x: nat, a: nat, b: nat)
    ensures Shr(Shr(x, a), b) == Shr(x, a + b)
  {
    if a > 0 {
      ShrShr(x / 2, a - 1, b);
    }
  }

  lemma Pow2Monotone(a: nat, b: nat)
    requires a <= b
    ensures Pow2(a) <= Pow2(b)
  {
    Pow2Add(a, b - a);
  }

  /** Every bit at or above the width of x is zero. */
  lemma HighBitZero(x: nat, width: nat, j: nat)
    requires x < Pow2(width) && width <= j
    ensures Bit(x, j) == 0
  {
    Pow2Monotone(width, j);
    ShrIsDiv(x, j);
    DivModUnique(x, Pow2(j), 0, x);
  }

  /** The bit row has `width` entries, each 0 or 1, and reads back to x when x fits. */
  lemma {:induction false} MsbBitsReadBack(x: nat, width: nat)
    requires x < Pow2(width)
    ensures |MsbBits(x, width)| == width
    ensures forall i | 0 <= i < width :: MsbBits(x, width)[i] <= 1
    ensures FromDigits(MsbBits(x, width), 2) == x
  {
    var row := MsbBits(x, width);
    if width > 0 {
      var rest := MsbBits(x / 2, width - 1);
      assert row[..width - 1] == rest by {
        forall i | 0 <= i < width - 1
          ensures row[i] == rest[i]
        {
          BitHalves(x, width - 1 - i);
        }
      }
      MsbBitsReadBack(x / 2, width - 1);
      assert row[width - 1] == Bit(x, 0) == x % 2;
    }
  }

  /** Each nibble is below 16 and the nibble row reads back to x in base 16. */
  lemma {:induction false} NibblesReadBack(x: nat, count: nat)
    requires x < Pow2(4 * count)
    ensures |Nibbles(x, count)| == count
    ensures forall i | 0 <= i < count :: Nibbles(x, count)[i] < 16
    ensures FromDigits(Nibbles(x, count), 16) == x
  {
    NibbleValues(x, count);
    if count > 0 {
      var row, high := Nibbles(x, count), Shr(x, 4);
      ShrIsDiv(x, 4);
      Pow2Add(4, 4 * (count - 1));
      assert Pow2(4) == 16;
      DivBelow(x, 16, Pow2(4 * (count - 1)));
      NibblesFront(x, count);
      NibblesReadBack(high, count - 1);
      DivModSplit(x, 16);
      assert FromDigits(row, 16) == 16 * FromDigits(row[..count - 1], 16) + row[count - 1];
    }
  }

  /** Nibble i is the remainder by 16 of x shifted right by `(count - i - 1)*4`. */
  lemma NibbleValues(x: nat, count: nat)
    ensures forall i | 0 <= i < count :: Nibbles(x, count)[i] == Shr(x, (count - i - 1) * 4) % 16
  {
    forall i | 0 <= i < count
      ensures Nibbles(x, count)[i] == Shr(x, (count - i - 1) * 4) % 16
    {
      AndLowMask(Shr(x, (count - i - 1) * 4), 4);
    }
  }

  /** The row of `count` nibbles is the row of `count - 1` nibbles of `x >> 4`, then `x % 16`. */
  lemma NibblesFront(x: nat, count: nat)
    requires count > 0
    ensures Nibbles(x, count)[..count - 1] == Nibbles(Shr(x, 4), count - 1)
    ensures Nibbles(x, count)[count - 1] == x % 16
  {
    var row, rest := Nibbles(x, count), Nibbles(Shr(x, 4), count - 1);
    forall i | 0 <= i < count - 1
      ensures row[i] == rest[i]
    {
      ShrShr(x, 4, (count - 1 - i - 1) * 4);
    }
    AndLowMask(x, 4);
    assert Pow2(4) == 16;
    assert row[count - 1] == And(Shr(x, 0), 15);
  }

  /** Doubling moves every bit up by one place. */
  lemma BitOfDouble(y: nat, c: nat, j: nat)
    requires c <= 1 && j > 0
    ensures Bit(2 * y + c, j) == Bit(y, j - 1)
  {
    BitHalves(2 * y + c, j);
  }

  /**
   * Bit j of `(a << k) + b`, for b below `2**k`, comes from b below k and
   * from a at and above k: fields packed side by side keep their bits.
   */
  lemma {:induction false} BitOfPacked(a: nat, b: nat, k: nat, j: nat)
    requires b < Pow2(k)
    ensures Bit(Shl(a, k) + b, j) == if j >= k then Bit(a, j - k) else Bit(b, j)
  {
    if k > 0 {
      var x := Shl(a, k) + b;
      assert x == 2 * (Shl(a, k - 1) + b / 2) + b % 2;
      if j == 0 {
        assert Bit(x, 0) == x % 2 == b % 2 == Bit(b, 0);
      } else {
        BitOfPacked(a, b / 2, k - 1, j - 1);
        BitOfDouble(Shl(a, k - 1) + b / 2, b % 2, j);
        if j < k {
          BitHalves(b, j);
        }
      }
    }
  }

  /** Bit j of `x >> m` is bit j + m of x. */
  lemma BitOfShr(x: nat, m: nat, j: nat)
    ensures Bit(Shr(x, m), j) == Bit(x, j + m)
  {
    ShrShr(x, m, j);
  }

  /** Below m, masking with m one-bits keeps the bits of x. */
  lemma {:induction false} BitOfLowMask(x: nat, m: nat, j: nat)
    requires j < m
    ensures Bit(And(x, Pow2(m) - 1), j) == Bit(x, j)
  {
    if j == 0 {
      BitOfLowMaskZero(x, m);
    } else {
      BitOfLowMask(x / 2, m - 1, j - 1);
      BitOfLowMaskStep(x, m, j);
    }
  }

  /** Masking with m one-bits keeps the lowest bit and masks the rest with m - 1 one-bits. */
  lemma MaskHalves(x: nat, m: nat)
    requires m > 0
    ensures And(x, Pow2(m) - 1) == 2 * And(x / 2, Pow2(m - 1) - 1) + x % 2
  {
    var p := Pow2(m - 1);
    AndOddMask(x, p);
    assert Pow2(m) == 2 * p;
  }

  lemma BitOfLowMaskZero(x: nat, m: nat)
    requires m > 0
    ensures Bit(And(x, Pow2(m) - 1), 0) == Bit(x, 0)
  {
    MaskHalves(x, m);
    var low := And(x / 2, Pow2(m - 1) - 1);
    assert Bit(2 * low + x % 2, 0) == x % 2;
  }

  /** Bit j of the mask is bit j - 1 of the mask of x / 2 with one bit fewer. */
  lemma BitOfLowMaskStep(x: nat, m: nat, j: nat)
    requires 0 < j < m
    requires Bit(And(x / 2, Pow2(m - 1) - 1), j - 1) == Bit(x / 2, j - 1)
    ensures Bit(And(x, Pow2(m) - 1), j) == Bit(x, j)
  {
    MaskHalves(x, m);
    BitOfDouble(And(x / 2, Pow2(m - 1) - 1), x % 2, j);
    BitHalves(x, j);
  }

  /**
   * A byte made of a marker shifted over a w-bit payload masked from y: its
   * low w bits are y's, the bits above are the marker's.
   */
  lemma MarkedFieldBit(marker: nat, y: nat, w: nat, t: nat)
    ensures Bit(Shl(marker, w) + And(y, Pow2(w) - 1), t)
         == if t >= w then Bit(marker, t - w) else Bit(y, t)
  {
    AndLowMask(y, w);
    BitOfPacked(marker, And(y, Pow2(w) - 1), w, t);
    if t < w {
      BitOfLowMask(y, w, t);
    }
  }

  // ---------------------------------------------------------------------
  // Text: Python's `%0wX` (base 16) and `%i` (base 10, width 0)

  predicate IsDigitChar(c: char)
  {
    '0' <= c <= '9' || 'A' <= c <= 'F'
  }

  function DigitChar(d: nat): (c: char)
    requires d < 16
  {
    if d < 10 then ('0' as int + d) as char else ('A' as int + d - 10) as char
  }

  function DigitValue(c: char): nat
  {
    if '0' <= c <= '9' then c as int - '0' as int
    else if 'A' <= c <= 'F' then c as int - 'A' as int + 10
    else 0
  }

  /** `base ** n` for the digit formats; in base 2 it is `PyBits.Pow2` (see `Pow2IsPow`). */
  function Pow(base: nat, n: nat): (r: nat)
  {
    if n == 0 then 1 else base * Pow(base, n - 1)
  }

  /** The bit operators' power of two and the formats' power agree. */
  lemma {:induction false} Pow2IsPow(k: nat)
    ensures Pow2(k) == Pow(2, k)
  {
    if k > 0 {
      Pow2IsPow(k - 1);
    }
  }

  /** A digit's character is a digit character worth the digit. */
  lemma DigitCharValue(d: nat)
    requires d < 16
    ensures IsDigitChar(DigitChar(d)) && DigitValue(DigitChar(d)) == d
  {
  }

  lemma DivShrinks(v: nat, base: nat)
    requires base >= 2
    ensures v < base ==> v / base == 0
    ensures v >= base ==> 1 <= v / base < v
  {
    if v < base {
      DivModUnique(v, base, 0, v);
    } else {
      DivModUnique(v, base, v / base, v % base);
    }
  }

  /**
   * `"%0*X" % (width, v)` for base 16, `"%i" % v` for base 10 and width 0:
   * the digits of v in `base`, padded with leading zeros to `width` characters;
   * never empty and never shorter than `width`.
   */
  function Format(v: nat, base: nat, width: nat): (s: string)
    requires 2 <= base <= 16
    ensures |s| >= width && |s| >= 1
    decreases v, width
  {
    DivShrinks(v, base);
    if v < base && width <= 1 then [DigitChar(v)]
    else Format(v / base, base, if width > 0 then width - 1 else 0) + [DigitChar(v % base)]
  }

  /** The number a string of digits in `base` denotes. */
  function Parse(s: string, base: nat): (v: nat)
  {
    if s == [] then 0 else base * Parse(s[..|s| - 1], base) + DigitValue(s[|s| - 1])
  }

  lemma MulMonotone(a: nat, b: nat, d: nat)
    requires a <= b
    ensures a * d <= b * d
  {
    assert b * d == a * d + (b - a) * d;
  }

  lemma DivBelow(v: nat, base: nat, bound: nat)
    requires base >= 1 && v < base * bound
    ensures v / base < bound
  {
    DivModUnique(v, base, v / base, v % base);
    if v / base >= bound {
      MulMonotone(bound, v / base, base);
      assert false;
    }
  }

  /** Formatting is undone by parsing. */
  lemma {:induction false} FormatParses(v: nat, base: nat, width: nat)
    requires 2 <= base <= 16
    ensures Parse(Format(v, base, width), base) == v
    decreases v, width
  {
    var s := Format(v, base, width);
    DivShrinks(v, base);
    if !(v < base && width <= 1) {
      var w' := if width > 0 then width - 1 else 0;
      var front := Format(v / base, base, w');
      assert s == front + [DigitChar(v % base)];
      assert s[..|s| - 1] == front;
      FormatParses(v / base, base, w');
      DivModSplit(v, base);
      assert Parse(s, base) == base * (v / base) + v % base;
    }
  }

  /**
   * The text, never shorter than `width` by the contract of `Format`, is
   * exactly `width` characters long when v fits in that many digits.
   */
  lemma {:induction false} FormatLength(v: nat, base: nat, width: nat)
    requires 2 <= base <= 16
    ensures 1 <= width && v < Pow(base, width) ==> |Format(v, base, width)| == width
    decreases v, width
  {
    if 1 <= width && v < Pow(base, width) {
      if width == 1 {
        assert v < base;
        assert Format(v, base, width) == [DigitChar(v)];
      } else {
        DivShrinks(v, base);
        assert Format(v, base, width) == Format(v / base, base, width - 1) + [DigitChar(v % base)];
        FitsFewerDigits(v, base, width);
        FormatLength(v / base, base, width - 1);
      }
    }
  }

  /** A value that fits in `width` digits loses one digit when divided by the base. */
  lemma FitsFewerDigits(v: nat, base: nat, width: nat)
    requires 2 <= base && 1 <= width && v < Pow(base, width)
    ensures v / base < Pow(base, width - 1)
  {
    DivBelow(v, base, Pow(base, width - 1));
  }

  /** Every character of the text is a digit character worth less than `base`. */
  lemma {:induction false} FormatDigits(v: nat, base: nat, width: nat)
    requires 2 <= base <= 16
    ensures forall i | 0 <= i < |Format(v, base, width)| ::
      IsDigitChar(Format(v, base, width)[i]) && DigitValue(Format(v, base, width)[i]) < base
    decreases v, width
  {
    var s := Format(v, base, width);
    DivShrinks(v, base);
    if v < base && width <= 1 {
      DigitCharValue(v);
    } else {
      var w' := if width > 0 then width - 1 else 0;
      var front := Format(v / base, base, w');
      assert s == front + [DigitChar(v % base)];
      FormatDigits(v / base, base, w');
      DigitCharValue(v % base);
      forall i | 0 <= i < |s|
        ensures IsDigitChar(s[i]) && DigitValue(s[i]) < base
      {
        if i < |front| {
          assert s[i] == front[i];
        } else {
          assert s[i] == DigitChar(v % base);
        }
      }
    }
  }

  /** The length facts and the digit facts together. */
  lemma FormatShape(v: nat, base: nat, width: nat)
    requires 2 <= base <= 16
    ensures |Format(v, base, width)| >= width && |Format(v, base, width)| >= 1
    ensures 1 <= width && v < Pow(base, width) ==> |Format(v, base, width)| == width
    ensures forall i | 0 <= i < |Format(v, base, width)| ::
      IsDigitChar(Format(v, base, width)[i]) && DigitValue(Format(v, base, width)[i]) < base
  {
    FormatLength(v, base, width);
    FormatDigits(v, base, width);
  }
}

/**
 * The list-building steps the UTF-8 diagrams share: a bit list built by a
 * comprehension from the least significant bit up and then reversed in place,
 * and the loop that produces one hexadecimal label per nibble.
 */
module DigitLists {
  import opened PyBits
  import opened Digits

  /** `list.reverse()`: swaps the ends towards the middle. */
  method Reverse(a: array<nat>)
    modifies a
    ensures forall k | 0 <= k < a.Length :: a[k] == old(a[a.Length - 1 - k])
  {
    var lo, hi := 0, a.Length - 1;
    while lo < hi
      invariant 0 <= lo && hi == a.Length - 1 - lo && lo <= a.Length / 2
      invariant forall k | 0 <= k < lo || hi < k < a.Length :: a[k] == old(a[a.Length - 1 - k])
      invariant forall k | lo <= k <= hi :: a[k] == old(a[k])
    {
      a[lo], a[hi] := a[hi], a[lo];
      lo, hi := lo + 1, hi - 1;
    }
  }

  /**
   * `[(value & 2**n)/2**n for n in range(bits)]` followed by `.reverse()`:
   * the bits of value, each 0 or 1, most significant first, reading back to
   * value when it fits in `bits` bits.
   */
  method BitList(value: nat, bits: nat) returns (row: seq<nat>)
    ensures row == MsbBits(value, bits)
    ensures forall i | 0 <= i < |row| :: row[i] <= 1
    ensures value < Pow2(bits) ==> FromDigits(row, 2) == value
  {
    var a := new nat[bits];
    var n := 0;
    while n < bits
      invariant 0 <= n <= bits
      invariant forall k | 0 <= k < n :: a[k] == Bit(value, k)
    {
      BitQuotient(value, n);
      a[n] := And(value, Pow2(n)) / Pow2(n);
      n := n + 1;
    }
    Reverse(a);
    row := a[..];
    if value < Pow2(bits) {
      MsbBitsReadBack(value, bits);
    }
  }

  /**
   * `for n in range(bits//4)`: label n is `value >> (bits//4-n-1)*4 & 0x0f`.
   * Each label is one hexadecimal digit and together they read back to value.
   */
  method NibbleLabels(value: nat, bits: nat) returns (labels: seq<nat>)
    ensures labels == Nibbles(value, bits / 4)
    ensures forall i | 0 <= i < |labels| :: labels[i] < 16
    ensures value < Pow2(bits) && bits % 4 == 0 ==> FromDigits(labels, 16) == value
  {
    labels := [];
    var n := 0;
    while n < bits / 4
      invariant 0 <= n <= bits / 4
      invariant labels == Nibbles(value, bits / 4)[..n]
    {
      labels := labels + [And(Shr(value, (bits / 4 - n - 1) * 4), 0x0f)];
      n := n + 1;
    }
    forall i | 0 <= i < |labels|
      ensures labels[i] < 16
    {
      AndLowMask(Shr(value, (bits / 4 - i - 1) * 4), 4);
    }
    if value < Pow2(bits) && bits % 4 == 0 {
      assert 4 * (bits / 4) == bits;
      NibblesReadBack(value, bits / 4);
    }
  }
}
