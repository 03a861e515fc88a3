/**
 * Python's integer bit operators `>>`, `<<`, `&`, `|`, `^` and `2**k`, on the
 * non-negative integers the diagram scripts apply them to. Each operator is
 * defined the way it acts on the binary expansion (one halving or one bit at a
 * time); the lemmas connect those definitions with division, remainder and
 * multiplication by powers of two, so that the scripts' formulas can be read as
 * ordinary arithmetic.
 */
module PyBits {

  /** `2**k` */
  function Pow2(k: nat): (r: nat)
    ensures r >= 1
  {
    if k == 0 then 1 else 2 * Pow2(k - 1)
  }

  /** `x >> k`: k halvings, each rounding down. */
  function Shr(x: nat, k: nat): (r: nat)
  {
    if k == 0 then x else Shr(x / 2, k - 1)
  }

  /** `x << k`: k doublings. */
  function Shl(x: nat, k: nat): (r: nat)
  {
    if k == 0 then x else 2 * Shl(x, k - 1)
  }

  /** `a & b`, bit by bit from the least significant end. */
  function And(a: nat, b: nat): (r: nat)
    decreases a
  {
    if a == 0 || b == 0 then 0
    else 2 * And(a / 2, b / 2) + (if a % 2 == 1 && b % 2 == 1 then 1 else 0)
  }

  /** `a | b` */
  function Or(a: nat, b: nat): (r: nat)
    decreases a
  {
    if a == 0 then b
    else if b == 0 then a
    else 2 * Or(a / 2, b / 2) + (if a % 2 == 1 || b % 2 == 1 then 1 else 0)
  }

  /** `a ^ b` */
  function Xor(a: nat, b: nat): (r: nat)
    decreases a
  {
    if a == 0 then b
    else if b == 0 then a
    else 2 * Xor(a / 2, b / 2) + (if a % 2 != b % 2 then 1 else 0)
  }

  /** Bit k of x, counted from the least significant bit: `(x >> k) & 1`. */
  function Bit(x: nat, k: nat): (b: nat)
    ensures b == 0 || b == 1
  {
    Shr(x, k) % 2
  }

  // ---------------------------------------------------------------------
  // Division and remainder facts used by the bridges below

  lemma DivModUnique(x: int, d: int, q: int, r: int)
    requires d > 0 && 0 <= r < d && x == q * d + r
    ensures x / d == q && x % d == r
  {
    var q', r' := x / d, x % d;
    assert (q' - q) * d == r - r' by {
      assert x == q' * d + r';
    }
    if q' > q {
      MulAtLeast(q' - q, d);
    } else if q' < q {
      MulAtLeast(q - q', d);
    }
  }

  lemma DivModSplit(x: nat, d: nat)
    requires d > 0
    ensures x == (x / d) * d + x % d && x % d < d
  {
  }

  lemma MulAtLeast(a: int, d: int)
    requires a >= 1 && d > 0
    ensures a * d >= d
  {
    assert a * d == (a - 1) * d + d;
  }

  /** Dividing by 2m is halving and then dividing by m. */
  lemma DivModDouble(x: nat, m: nat)
    requires m > 0
    ensures x / (2 * m) == (x / 2) / m
    ensures x % (2 * m) == 2 * ((x / 2) % m) + x % 2
  {
    var q, r := (x / 2) / m, (x / 2) % m;
    assert x / 2 == q * m + r;
    assert x == q * (2 * m) + (2 * r + x % 2);
    DivModUnique(x, 2 * m, q, 2 * r + x % 2);
  }

  // ---------------------------------------------------------------------
  // Bridges from the operators to arithmetic

  lemma {:induction false} Pow2Add(a: nat, b: nat)
    ensures Pow2(a + b) == Pow2(a) * Pow2(b)
  {
    if a > 0 {
      Pow2Add(a - 1, b);
    }
  }

  /** The powers of two the scripts' widths need. */
  lemma Pow2Table()
    ensures Pow2(4) == 0x10 && Pow2(8) == 0x100 && Pow2(16) == 0x10000
    ensures Pow2(24) == 0x100_0000 && Pow2(31) == 0x8000_0000 && Pow2(32) == 0x1_0000_0000
  {
    assert Pow2(4) == 0x10;
    Pow2Add(4, 4);
    Pow2Add(8, 8);
    Pow2Add(16, 8);
    Pow2Add(16, 16);
    Pow2Add(24, 7);
    assert Pow2(7) == 0x80;
  }

  /** `x >> k` is floor division by `2**k`. */
  lemma {:induction false} ShrIsDiv(x: nat, k: nat)
    ensures Shr(x, k) == x / Pow2(k)
  {
    if k > 0 {
      ShrIsDiv(x / 2, k - 1);
      DivModDouble(x, Pow2(k - 1));
    }
  }

  /** `x << k` is multiplication by `2**k`. */
  lemma {:induction false} ShlIsMul(x: nat, k: nat)
    ensures Shl(x, k) == x * Pow2(k)
  {
    if k > 0 {
      ShlIsMul(x, k - 1);
    }
  }

  /** Masking with k one-bits keeps the remainder modulo `2**k`. */
  lemma {:induction false} AndLowMask(x: nat, k: nat)
    ensures And(x, Pow2(k) - 1) == x % Pow2(k)
  {
    if k == 0 {
      DivModUnique(x, 1, x, 0);
    } else if x == 0 {
      DivModUnique(0, Pow2(k), 0, 0);
    } else {
      AndLowMask(x / 2, k - 1);
      AndLowMaskStep(x, k);
    }
  }

  lemma AndLowMaskStep(x: nat, k: nat)
    requires k > 0 && And(x / 2, Pow2(k - 1) - 1) == (x / 2) % Pow2(k - 1)
    ensures And(x, Pow2(k) - 1) == x % Pow2(k)
  {
    var p := Pow2(k - 1);
    AndOddMask(x, p);
    assert Pow2(k) == 2 * p;
  }

  /**
   * Masking with 2p - 1 keeps the lowest bit and masks the rest with p - 1;
   * so when masking with p - 1 is the remainder by p, masking with 2p - 1 is
   * the remainder by 2p.
   */
  lemma AndOddMask(x: nat, p: nat)
    requires p >= 1
    ensures And(x, 2 * p - 1) == 2 * And(x / 2, p - 1) + x % 2
    ensures And(x / 2, p - 1) == (x / 2) % p ==> And(x, 2 * p - 1) == x % (2 * p)
  {
    DivModDouble(x, p);
    var m := 2 * p - 1;
    DivModUnique(m, 2, p - 1, 1);
    if x == 0 {
      assert And(x / 2, p - 1) == 0;
    }
  }

  /** Masking with a single power of two isolates that bit in place. */
  lemma {:induction false} AndPow2(x: nat, k: nat)
    ensures And(x, Pow2(k)) == if Bit(x, k) == 1 then Pow2(k) else 0
  {
    if k == 0 {
      assert And(x, 1) == x % 2;
    } else if x == 0 {
      ShrZero(k);
    } else {
      var p := Pow2(k - 1);
      assert Pow2(k) == 2 * p && (2 * p) / 2 == p && (2 * p) % 2 == 0;
      assert And(x, 2 * p) == 2 * And(x / 2, p);
      AndPow2(x / 2, k - 1);
      assert Bit(x, k) == Bit(x / 2, k - 1);
    }
  }

  lemma {:induction false} ShrZero(k: nat)
    ensures Shr(0, k) == 0
  {
    if k > 0 {
      ShrZero(k - 1);
    }
  }

  /** `(x & 2**k) / 2**k` is bit k of x, exactly 0 or 1. */
  lemma BitQuotient(x: nat, k: nat)
    ensures And(x, Pow2(k)) / Pow2(k) == Bit(x, k)
  {
    var p, b := Pow2(k), Bit(x, k);
    AndPow2(x, k);
    if b == 0 {
      assert And(x, p) == 0;
      DivModUnique(0, p, 0, 0);
    } else {
      assert And(x, p) == p;
      DivModUnique(p, p, 1, 0);
    }
  }

  /** Flipping all k low bits of a k-bit number subtracts it from `2**k - 1`. */
  lemma {:induction false} XorAllOnes(x: nat, k: nat)
    requires x < Pow2(k)
    ensures Xor(x, Pow2(k) - 1) == Pow2(k) - 1 - x
  {
    if k > 0 && x > 0 {
      XorAllOnes(x / 2, k - 1);
      assert (Pow2(k) - 1) / 2 == Pow2(k - 1) - 1;
    }
  }

  /** `(a << k) | b` is a sum when b fits in the k freed bits. */
  lemma {:induction false} OrDisjoint(a: nat, b: nat, k: nat)
    requires b < Pow2(k)
    ensures Or(Shl(a, k), b) == Shl(a, k) + b
  {
    if k > 0 && Shl(a, k) > 0 && b > 0 {
      OrDisjoint(a, b / 2, k - 1);
    }
  }

  /** Shifting by a and then by b shifts by a + b. */
  lemma {:induction false} ShlShl(x: nat, a: nat, b: nat)
    ensures Shl(Shl(x, a), b) == Shl(x, a + b)
  {
    if b > 0 {
      ShlShl(x, a, b - 1);
    }
  }

  /** `(a + b) << k` is `(a << k) + (b << k)`. */
  lemma {:induction false} ShlAdd(a: nat, b: nat, k: nat)
    ensures Shl(a + b, k) == Shl(a, k) + Shl(b, k)
  {
    if k > 0 {
      ShlAdd(a, b, k - 1);
    }
  }

  /** `(a << k) | (b << k)` is `(a | b) << k`. */
  lemma {:induction false} OrShl(a: nat, b: nat, k: nat)
    ensures Or(Shl(a, k), Shl(b, k)) == Shl(Or(a, b), k)
  {
    if k > 0 {
      OrShl(a, b, k - 1);
      OrDouble(Shl(a, k - 1), Shl(b, k - 1));
    }
  }

  /** `(2x) | (2y)` is `2 (x | y)`: both have a zero lowest bit. */
  lemma OrDouble(x: nat, y: nat)
    ensures Or(2 * x, 2 * y) == 2 * Or(x, y)
  {
    if x > 0 && y > 0 {
      assert (2 * x) / 2 == x && (2 * y) / 2 == y;
    }
  }

  /** A mask shifted left by j selects the same bits as shifting x right first. */
  lemma {:induction false} AndShiftedMask(x: nat, m: nat, j: nat)
    ensures And(x, Shl(m, j)) == Shl(And(Shr(x, j), m), j)
  {
    if j > 0 {
      ShlIsMul(m, j);
      ShlIsMul(And(Shr(x, j), m), j);
      if x == 0 {
        ShrZero(j);
      } else if m > 0 {
        AndShiftedMask(x / 2, m, j - 1);
        ShlIsMul(m, j - 1);
        ShlIsMul(And(Shr(x, j), m), j - 1);
      }
    }
  }
}
