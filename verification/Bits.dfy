/**
  howManyBits of bits.c and the counting loop that checks it in tests.c. A C int is an integer in
  the 32-bit range; `>>` on it shifts arithmetically, that is, divides rounding down.
 */
module Bits {
  import opened Division

  const INT_MIN := -0x8000_0000
  const INT_MAX := 0x7fff_ffff

  predicate IsInt(x: int) { INT_MIN <= x <= INT_MAX }

  /** A result one step outside the range of int, wrapped around as two's complement hardware does. */
  function Wrap(x: int): int {
    if x > INT_MAX then x - 0x1_0000_0000 else if x < INT_MIN then x + 0x1_0000_0000 else x
  }

  function Pow2(k: nat): (p: int)
    ensures p > 0
  {
    if k == 0 then 1 else 2 * Pow2(k - 1)
  }

  function Shr(x: int, k: nat): int { x / Pow2(k) }

  function Not(x: int): int { -x - 1 }

  /** Bitwise and of two's complement numbers whose bits from `w` on repeat the sign. */
  function AndBits(x: int, y: int, w: nat): int
    decreases w
  {
    if w == 0 then (if x < 0 && y < 0 then -1 else 0)
    else 2 * AndBits(x / 2, y / 2, w - 1) + (x % 2) * (y % 2)
  }

  function And(x: int, y: int): int { AndBits(x, y, 32) }

  function Or(x: int, y: int): int { Not(And(Not(x), Not(y))) }

  /** `!!x`, which is 0 or 1. */
  function Truth(x: int): int { if x != 0 then 1 else 0 }

  /** `x` is a two's complement number of `n` bits. */
  predicate Fits(x: int, n: nat) {
    n > 0 && -Pow2(n - 1) <= x < Pow2(n - 1)
  }

  /** Number of binary digits of a natural number. */
  function BitLength(v: nat): nat {
    if v == 0 then 0 else 1 + BitLength(v / 2)
  }

  /** The number whose digits decide: a negative number is complemented. */
  function Magnitude(x: int): nat { if x < 0 then -x - 1 else x }

  lemma {:induction false} BitLengthBound(v: nat, k: nat)
    ensures v < Pow2(k) <==> BitLength(v) <= k
  {
    if v > 0 && k > 0 {
      BitLengthBound(v / 2, k - 1);
    }
  }

  lemma {:induction false} BitLengthShift(v: nat, k: nat)
    requires v >= Pow2(k)
    ensures BitLength(v) == k + BitLength(v / Pow2(k))
  {
    if k > 0 {
      BitLengthShift(v / 2, k - 1);
      DivTwice(v, Pow2(k - 1));
    }
  }

  lemma {:induction false} AndZero(y: int, w: nat)
    ensures AndBits(0, y, w) == 0
    decreases w
  {
    if w > 0 {
      AndZero(y / 2, w - 1);
    }
  }

  lemma {:induction false} AndOnes(y: int, w: nat)
    requires -Pow2(w) <= y < Pow2(w)
    ensures AndBits(-1, y, w) == y
    decreases w
  {
    if w > 0 {
      AndOnes(y / 2, w - 1);
      assert -1 / 2 == -1 && -1 % 2 == 1;
    }
  }

  lemma {:induction false} AndCommutes(x: int, y: int, w: nat)
    ensures AndBits(x, y, w) == AndBits(y, x, w)
    decreases w
  {
    if w > 0 {
      AndCommutes(x / 2, y / 2, w - 1);
    }
  }

  /** The answer as the binary length of the magnitude is the least width that fits. */
  lemma LeastWidth(x: int, n: nat)
    ensures Fits(x, n) <==> n >= BitLength(Magnitude(x)) + 1
  {
    if n > 0 {
      BitLengthBound(Magnitude(x), n - 1);
    }
  }

  /** Inverts a negative number without a branch. */
  lemma FoldSign(x: int)
    requires IsInt(x)
    ensures var sign := Shr(x, 31); Or(And(sign, Not(x)), And(Not(sign), x)) == Magnitude(x)
  {
    var sign := Shr(x, 31);
    PowersOfTwo();
    assert sign == if x < 0 then -1 else 0;
    AndZero(x, 32);
    AndZero(Not(x), 32);
    AndOnes(x, 32);
    AndOnes(Not(x), 32);
    var m := Magnitude(x);
    AndOnes(Not(m), 32);
    AndCommutes(Not(m), -1, 32);
  }

  lemma PowersOfTwo()
    ensures Pow2(1) == 0x2 && Pow2(2) == 0x4 && Pow2(4) == 0x10 && Pow2(8) == 0x100
    ensures Pow2(16) == 0x1_0000 && Pow2(31) == 0x8000_0000 && Pow2(32) == 0x1_0000_0000
  {
    assert Pow2(16) == 0x1_0000;
    assert Pow2(24) == 0x100_0000;
  }

  /** One stage of the binary search: shifts by `k` if that loses no leading digit. */
  lemma Stage(v: nat, k: nat, p: nat)
    requires p == Pow2(k)
    ensures var b := Truth(Shr(v, k)) * k;
            Shr(v, b) >= 0 && BitLength(v) == b + BitLength(Shr(v, b)) && (v < p * p ==> Shr(v, b) < p)
  {
    if v >= p {
      BitLengthShift(v, k);
      DivPositive(v, p);
      if v < p * p {
        DivBelow(v, p);
      }
    } else {
      DivModUnique(v, p, 0, v);
      assert Shr(v, 0) == v;
    }
  }

  lemma SmallBitLength(v: nat)
    requires v < 2
    ensures BitLength(v) == v
  {}

  /** The widths that the puzzle's own documentation gives. */
  lemma DocumentedWidths()
    ensures Fits(12, 5) && !Fits(12, 4) && Fits(298, 10) && !Fits(298, 9) && Fits(-5, 4) && !Fits(-5, 3)
    ensures Fits(0, 1) && !Fits(0, 0) && Fits(-1, 1) && !Fits(-1, 0)
    ensures Fits(INT_MIN, 32) && !Fits(INT_MIN, 31) && Fits(INT_MAX, 32) && !Fits(INT_MAX, 31)
  {
    PowersOfTwo();
    assert Pow2(0) == 1 && Pow2(3) == 8 && Pow2(9) == 512;
    assert Pow2(30) == 0x4000_0000;
  }

  /** The branch-free puzzle finds the least width of two's complement that holds its argument. */
  method HowManyBits(arg: int) returns (r: nat)
    requires IsInt(arg)
    ensures 1 <= r <= 32 && Fits(arg, r)
    ensures forall n :: 0 <= n < r ==> !Fits(arg, n)
  {
    hide BitLength, Pow2, Shr, Or, And, Not;
    var x := arg;
    var sign := Shr(x, 31);
    FoldSign(arg);
    x := Or(And(sign, Not(x)), And(Not(sign), x));
    PowersOfTwo();

    Stage(x, 16, 0x1_0000);
    var bit16 := Truth(Shr(x, 16)) * 16;
    x := Shr(x, bit16);
    Stage(x, 8, 0x100);
    var bit8 := Truth(Shr(x, 8)) * 8;
    x := Shr(x, bit8);
    Stage(x, 4, 0x10);
    var bit4 := Truth(Shr(x, 4)) * 4;
    x := Shr(x, bit4);
    Stage(x, 2, 0x4);
    var bit2 := Truth(Shr(x, 2)) * 2;
    x := Shr(x, bit2);
    Stage(x, 1, 0x2);
    var bit1 := Truth(Shr(x, 1));
    x := Shr(x, bit1);
    var bit0 := x;

    SmallBitLength(x);
    assert Fits(arg, 32);
    LeastWidth(arg, 32);
    r := bit16 + bit8 + bit4 + bit2 + bit1 + bit0 + 1;
    forall n | 0 <= n <= r ensures Fits(arg, n) <==> n == r {
      LeastWidth(arg, n);
    }
  }

  /** The reference: counts the shifts that empty the magnitude. Negating INT_MIN wraps around. */
  method TestHowManyBits(x: int) returns (r: nat)
    requires IsInt(x)
    ensures Fits(x, r)
    ensures forall n :: 0 <= n < r ==> !Fits(x, n)
  {
    var a := if x < 0 then Wrap(Wrap(-x) - 1) else x;
    var cnt := 0;
    while a != 0
      invariant a >= 0 && cnt >= 0 && cnt + BitLength(a) == BitLength(Magnitude(x))
      decreases a
    {
      a := a / 2;
      cnt := cnt + 1;
    }
    r := cnt + 1;
    forall n | 0 <= n <= r ensures Fits(x, n) <==> n == r {
      LeastWidth(x, n);
    }
  }

  /** Both answers are the one least width, so the puzzle agrees with its reference. */
  lemma LeastWidthIsUnique(x: int, r: nat, s: nat)
    requires Fits(x, r) && forall n :: 0 <= n < r ==> !Fits(x, n)
    requires Fits(x, s) && forall n :: 0 <= n < s ==> !Fits(x, n)
    ensures r == s && r == BitLength(Magnitude(x)) + 1
  {
    LeastWidth(x, r);
    LeastWidth(x, s);
    LeastWidth(x, BitLength(Magnitude(x)) + 1);
  }
}
