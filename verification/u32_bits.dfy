/** Rust's `u32` operations used by the version macros, written over `nat`
    so that every bit a Rust operator discards is discarded explicitly:
    the `as u32` cast, `<<` and `>>` by an amount below 32, and the
    bitwise `|` and `&`. The bitwise operators are defined digit by digit
    in base two, and each operator is tied to its bit-level meaning by a
    lemma. The macros use only the cast, `<<` and `|`; `>>` and `&` are
    the operators of the field extraction the read-back lemmas check the
    macros against, and `ShrBit` and `AndBit` state their bit meaning. */
module U32Bits {

  /** 2^32: one more than the largest `u32`. */
  const LIMIT: nat := 0x1_0000_0000

  /** Two to the power k. */
  function Pow2(k: nat): (r: nat)
    ensures r >= 1
  {
    if k == 0 then 1 else 2 * Pow2(k - 1)
  }

  /** Bit i of x, counting from the least significant bit 0. */
  predicate Bit(x: nat, i: nat)
  {
    if i == 0 then x % 2 == 1 else Bit(x / 2, i - 1)
  }

  /** `x as u32` for an integer x of any width and signedness: the low
      32 bits of x in two's complement, that is, x modulo 2^32. */
  function AsU32(x: int): (r: nat)
    ensures r < LIMIT
    ensures (x - r) % LIMIT == 0
  {
    x % LIMIT
  }

  /** `x << k` on `u32` with 0 <= k < 32: bits moved past bit 31 are lost. */
  function Shl(x: nat, k: nat): (r: nat)
    requires x < LIMIT && k < 32
    ensures r < LIMIT
  {
    (x * Pow2(k)) % LIMIT
  }

  /** `x >> k` on `u32` with 0 <= k < 32, a logical shift: k halvings. */
  function Shr(x: nat, k: nat): nat
    requires k < 32
  {
    if k == 0 then x else Shr(x / 2, k - 1)
  }

  /** Bitwise or, `a | b`. */
  function Or(a: nat, b: nat): nat
    decreases a + b
  {
    if a == 0 then b
    else if b == 0 then a
    else 2 * Or(a / 2, b / 2) + (if a % 2 == 1 || b % 2 == 1 then 1 else 0)
  }

  /** Bitwise and, `a & b`. */
  function And(a: nat, b: nat): nat
    decreases a + b
  {
    if a == 0 || b == 0 then 0
    else 2 * And(a / 2, b / 2) + (if a % 2 == 1 && b % 2 == 1 then 1 else 0)
  }

  // ---------------------------------------------------------------------
  // Arithmetic facts about powers of two and division.

  /** The powers of two the version layout uses. */
  lemma Pow2Constants()
    ensures Pow2(7) == 0x80 && Pow2(10) == 0x400 && Pow2(12) == 0x1000
    ensures Pow2(22) == 0x40_0000 && Pow2(29) == 0x2000_0000 && Pow2(32) == LIMIT
  {}

  lemma MulAtLeast(n: int, d: int)
    requires n >= 1 && d > 0
    ensures n * d >= d
  {}

  lemma MulMonotone(a: nat, b: nat, d: nat)
    requires a <= b
    ensures a * d <= b * d
  {}

  /** Division with remainder is unique. */
  lemma DivModUnique(x: int, d: int, q: int, r: int)
    requires d > 0 && 0 <= r < d && x == q * d + r
    ensures x / d == q && x % d == r
  {
    var q', r' := x / d, x % d;
    assert x == q' * d + r';
    if q' < q {
      assert (q - q') * d >= d by { MulAtLeast(q - q', d); }
    } else if q' > q {
      assert (q' - q) * d >= d by { MulAtLeast(q' - q, d); }
    }
  }

  /** Dividing by 2 * p is halving and then dividing by p. */
  lemma HalveThenDivide(x: nat, p: nat)
    requires p > 0
    ensures x / (2 * p) == (x / 2) / p
    ensures x % (2 * p) == 2 * ((x / 2) % p) + x % 2
  {
    var h, b := x / 2, x % 2;
    var q, t := h / p, h % p;
    assert x == q * (2 * p) + (2 * t + b);
    DivModUnique(x, 2 * p, q, 2 * t + b);
  }

  /** x split into its quotient by d, itself split by e, and the remainders. */
  lemma DivModSplit(x: nat, d: nat, e: nat)
    requires d > 0 && e > 0
    ensures x == ((x / d) / e * e + (x / d) % e) * d + x % d
  {}

  /** Dividing by d and then by e is dividing by d * e. */
  lemma DivDiv(x: nat, d: nat, e: nat)
    requires d > 0 && e > 0
    ensures x / (d * e) == (x / d) / e
  {
    var q, r := x / d, x % d;
    var q2, r2 := q / e, q % e;
    assert x == q2 * (d * e) + (r2 * d + r);
    assert r2 * d + r < d * e by {
      assert r2 * d <= (e - 1) * d by { MulMonotone(r2, e - 1, d); }
    }
    DivModUnique(x, d * e, q2, r2 * d + r);
  }

  /** A left shift that carries nothing past bit 31 is a multiplication. */
  lemma ShlNoOverflow(x: nat, k: nat)
    requires x < LIMIT && k < 32 && x * Pow2(k) < LIMIT
    ensures Shl(x, k) == x * Pow2(k)
  {
    DivModUnique(x * Pow2(k), LIMIT, 0, x * Pow2(k));
  }

  /** The cast leaves a value that is already a `u32` unchanged. */
  lemma AsU32OfU32(x: int)
    requires 0 <= x < LIMIT
    ensures AsU32(x) == x
  {
    DivModUnique(x, LIMIT, 0, x);
  }

  // ---------------------------------------------------------------------
  // Single bits.

  /** The low bit of 2 * y + c, c a single bit, is c; bit i > 0 is bit
      i - 1 of y. */
  lemma BitOfDouble(y: nat, c: nat, i: nat)
    requires c < 2
    ensures Bit(2 * y + c, i) <==> if i == 0 then c == 1 else Bit(y, i - 1)
  {
    DivModUnique(2 * y + c, 2, y, c);
  }

  /** A number below 2^n has no bit at or above n. */
  lemma {:induction false} BitAboveBound(z: nat, n: nat, i: nat)
    requires z < Pow2(n) && n <= i
    ensures !Bit(z, i)
    decreases i
  {
    if i > 0 {
      if n == 0 {
        BitAboveBound(z / 2, 0, i - 1);
      } else {
        BitAboveBound(z / 2, n - 1, i - 1);
      }
    }
  }

  /** Bit i of x * 2^k is bit i - k of x, and clear below k. */
  lemma {:induction false} BitOfMultiple(x: nat, k: nat, i: nat)
    ensures Bit(x * Pow2(k), i) <==> k <= i && Bit(x, i - k)
    decreases k
  {
    if k > 0 {
      var y := x * Pow2(k - 1);
      assert x * Pow2(k) == 2 * y + 0;
      BitOfDouble(y, 0, i);
      if i > 0 {
        BitOfMultiple(x, k - 1, i - 1);
      }
    }
  }

  /** Reducing modulo 2^n keeps the bits below n and clears the rest. */
  lemma {:induction false} BitOfMod(y: nat, n: nat, i: nat)
    ensures Bit(y % Pow2(n), i) <==> i < n && Bit(y, i)
    decreases i
  {
    if i >= n {
      BitAboveBound(y % Pow2(n), n, i);
    } else {
      var p := Pow2(n - 1);
      assert Pow2(n) == 2 * p;
      HalveThenDivide(y, p);
      var w := (y / 2) % p;
      BitOfDouble(w, y % 2, i);
      BitOfDouble(y / 2, y % 2, i);
      assert y == 2 * (y / 2) + y % 2;
      if i > 0 {
        BitOfMod(y / 2, n - 1, i - 1);
      }
    }
  }

  /** Shifting right by k is dividing by 2^k. */
  lemma {:induction false} ShrIsDivision(x: nat, k: nat)
    requires k < 32
    ensures Shr(x, k) == x / Pow2(k)
    decreases k
  {
    if k > 0 {
      HalveThenDivide(x, Pow2(k - 1));
      ShrIsDivision(x / 2, k - 1);
    }
  }

  lemma {:induction false} ZeroHasNoBits(i: nat)
    ensures !Bit(0, i)
    decreases i
  {
    if i > 0 {
      ZeroHasNoBits(i - 1);
    }
  }

  // ---------------------------------------------------------------------
  // The operators against their bit-level meaning.

  /** Reducing modulo 2^32 keeps exactly bits 0-31. */
  lemma BitOfU32(y: nat, i: nat)
    ensures Bit(y % LIMIT, i) <==> i < 32 && Bit(y, i)
  {
    Pow2Constants();
    BitOfMod(y, 32, i);
  }

  /** Bit i of x << k is bit i - k of x for k <= i < 32 and clear
      elsewhere: the shift brings in zeros and keeps nothing above bit 31. */
  lemma ShlBit(x: nat, k: nat, i: nat)
    requires x < LIMIT && k < 32
    ensures Bit(Shl(x, k), i) <==> k <= i < 32 && Bit(x, i - k)
  {
    BitOfU32(x * Pow2(k), i);
    BitOfMultiple(x, k, i);
  }

  /** Bit i of x >> k is bit i + k of x. */
  lemma {:induction false} ShrBit(x: nat, k: nat, i: nat)
    requires k < 32
    ensures Bit(Shr(x, k), i) <==> Bit(x, i + k)
    decreases k
  {
    if k > 0 {
      ShrBit(x / 2, k - 1, i);
    }
  }

  /** Bit i of a | b is set exactly when bit i of a or of b is. */
  lemma {:induction false} OrBit(a: nat, b: nat, i: nat)
    ensures Bit(Or(a, b), i) <==> Bit(a, i) || Bit(b, i)
    decreases i
  {
    if a == 0 {
      ZeroHasNoBits(i);
    } else if b == 0 {
      ZeroHasNoBits(i);
    } else {
      var c := if a % 2 == 1 || b % 2 == 1 then 1 else 0;
      BitOfDouble(Or(a / 2, b / 2), c, i);
      if i > 0 {
        OrBit(a / 2, b / 2, i - 1);
      }
    }
  }

  /** Bit i of a & b is set exactly when bit i of both a and b is. */
  lemma {:induction false} AndBit(a: nat, b: nat, i: nat)
    ensures Bit(And(a, b), i) <==> Bit(a, i) && Bit(b, i)
    decreases i
  {
    if a == 0 {
      ZeroHasNoBits(i);
    } else if b == 0 {
      ZeroHasNoBits(i);
    } else {
      var c := if a % 2 == 1 && b % 2 == 1 then 1 else 0;
      BitOfDouble(And(a / 2, b / 2), c, i);
      if i > 0 {
        AndBit(a / 2, b / 2, i - 1);
      }
    }
  }

  /** Neither operand sets a bit at or above n, so neither does a | b. */
  lemma {:induction false} OrBound(a: nat, b: nat, n: nat)
    requires a < Pow2(n) && b < Pow2(n)
    ensures Or(a, b) < Pow2(n)
    decreases n
  {
    if a != 0 && b != 0 {
      OrBound(a / 2, b / 2, n - 1);
    }
  }

  /** a & b is never larger than b. */
  lemma {:induction false} AndAtMost(a: nat, b: nat)
    ensures And(a, b) <= b
    decreases a + b
  {
    if a != 0 && b != 0 {
      AndAtMost(a / 2, b / 2);
    }
  }

  /** When a has no bit below k set and b has no bit at or above k set,
      a | b is the sum a + b. */
  lemma {:induction false} OrDisjoint(a: nat, b: nat, k: nat)
    requires a % Pow2(k) == 0 && b < Pow2(k)
    ensures Or(a, b) == a + b
    decreases k
  {
    if a != 0 && b != 0 {
      var p := Pow2(k - 1);
      assert Pow2(k) == 2 * p;
      HalveThenDivide(a, p);
      OrDisjoint(a / 2, b / 2, k - 1);
    }
  }

  /** hi * 2^k | lo, with lo below 2^k, is hi * 2^k + lo. */
  lemma OrShifted(hi: nat, lo: nat, k: nat)
    requires lo < Pow2(k)
    ensures Or(hi * Pow2(k), lo) == hi * Pow2(k) + lo
  {
    DivModUnique(hi * Pow2(k), Pow2(k), hi, 0);
    OrDisjoint(hi * Pow2(k), lo, k);
  }

  /** Masking with 2^n - 1 keeps the low n bits: x & (2^n - 1) == x % 2^n. */
  lemma {:induction false} AndLowMask(x: nat, n: nat)
    ensures And(x, Pow2(n) - 1) == x % Pow2(n)
    decreases n
  {
    if n == 0 {
      DivModUnique(x, 1, x, 0);
    } else if x == 0 {
      DivModUnique(0, Pow2(n), 0, 0);
    } else {
      var p := Pow2(n - 1);
      assert Pow2(n) == 2 * p;
      AndOddMask(x, p);
      AndLowMask(x / 2, n - 1);
      HalveThenDivide(x, p);
    }
  }

  /** One step of masking with an odd mask 2p - 1: keep the low bit of x
      and mask x / 2 with p - 1. */
  lemma AndOddMask(x: nat, p: nat)
    requires x != 0 && p >= 1
    ensures And(x, 2 * p - 1) == 2 * And(x / 2, p - 1) + x % 2
  {
    DivModUnique(2 * p - 1, 2, p - 1, 1);
  }
}
