/**
 Bitwise arithmetic on non-negative integers: powers of two, the `>>` and
 `& 1` bit test, and `|`, which the nonce and the vote packing use.
 */
module Bits {

  function Pow2(n: nat): (r: nat)
    ensures r >= 1
  {
    if n == 0 then 1 else 2 * Pow2(n - 1)
  }

  /** `(x >> i) & 1` on a two's-complement integer: an arithmetic shift then the low bit. */
  function Bit(x: int, i: nat): (r: nat)
    ensures r < 2
    decreases i
  {
    if i == 0 then x % 2 else Bit(x / 2, i - 1)
  }

  /** `x | y`: bit by bit, a bit is set when it is set in either operand. */
  function Or(x: nat, y: nat): (r: nat)
    decreases x + y
  {
    if x == 0 then y
    else if y == 0 then x
    else (if x % 2 == 1 || y % 2 == 1 then 1 else 0) + 2 * Or(x / 2, y / 2)
  }

  /** `|` has its bits where either operand has them. */
  lemma {:induction false} OrBits(x: nat, y: nat, i: nat)
    ensures Bit(Or(x, y), i) == (if Bit(x, i) == 1 || Bit(y, i) == 1 then 1 else 0)
    decreases i
  {
    if x == 0 {
      ZeroBit(i);
    } else if y == 0 {
      ZeroBit(i);
    } else {
      var low := if x % 2 == 1 || y % 2 == 1 then 1 else 0;
      var o := Or(x / 2, y / 2);
      assert Or(x, y) == low + 2 * o;
      HalveOnce(low, o);
      if i > 0 {
        var j: nat := i - 1;
        OrBits(x / 2, y / 2, j);
        BitStep(Or(x, y), i, j);
        BitStep(x, i, j);
        BitStep(y, i, j);
      }
    }
  }

  lemma HalveOnce(low: int, o: int)
    requires 0 <= low < 2
    ensures (low + 2 * o) % 2 == low && (low + 2 * o) / 2 == o
  {
  }

  /** Bit `i` of `x` is bit `i - 1` of `x / 2`. */
  lemma BitStep(x: int, i: nat, j: nat)
    requires i == j + 1
    ensures Bit(x, i) == Bit(x / 2, j)
  {
  }

  lemma {:induction false} ZeroBit(i: nat)
    ensures Bit(0, i) == 0
  {
    if i > 0 {
      ZeroBit(i - 1);
    }
  }

  lemma {:induction false} OrCommutes(x: nat, y: nat)
    ensures Or(x, y) == Or(y, x)
    decreases x + y
  {
    if x != 0 && y != 0 {
      OrCommutes(x / 2, y / 2);
    }
  }

  /** Or-ing into `x · 2^m` a value below `2^m` adds it: the two have no bit in common. */
  lemma {:induction false} OrDisjoint(x: nat, y: nat, m: nat)
    requires y < Pow2(m)
    ensures Or(x * Pow2(m), y) == x * Pow2(m) + y
    decreases m
  {
    var high := x * Pow2(m);
    if m == 0 {
      assert y == 0;
    } else if high != 0 && y != 0 {
      assert high == 2 * (x * Pow2(m - 1));
      OrDisjoint(x, y / 2, m - 1);
      assert Or(high, y) == y % 2 + 2 * (x * Pow2(m - 1) + y / 2);
    }
  }
}
