/**
 Base-26 digit strings, least-significant digit first: the number system
 under both the identity letters and the private-key odometer.
 */
module Base26 {
  import opened Bytes

  function Pow26(n: nat): (r: nat)
    ensures r >= 1
  {
    if n == 0 then 1 else 26 * Pow26(n - 1)
  }

  lemma {:induction false} Pow26Monotone(m: nat, n: nat)
    requires m <= n
    ensures Pow26(m) <= Pow26(n)
    decreases n
  {
    if m < n {
      Pow26Monotone(m, n - 1);
    }
  }

  /** 26^14 exceeds 2^64 and 26^4 exceeds 2^18, so 14 and 4 letters hold a 64-bit group and the 18-bit checksum. */
  lemma Pow26Bounds()
    ensures Pow26(4) == 456976 && 0x40000 < Pow26(4)
    ensures Pow26(7) == 8031810176 && 0x8000_0000 < Pow26(7)
    ensures Pow26(14) == 64509974703297150976 && TWO_64 < Pow26(14)
  {
    assert Pow26(4) == 456976;
    assert Pow26(7) == 8031810176;
    assert Pow26(10) == 141167095653376;
    assert Pow26(14) == 64509974703297150976;
  }

  /** The `count` lowest base-26 digits of `n`, least significant first. */
  function ToDigits(n: nat, count: nat): (r: seq<nat>)
    ensures |r| == count
    ensures forall i :: 0 <= i < count ==> r[i] < 26
  {
    if count == 0 then [] else [n % 26] + ToDigits(n / 26, count - 1)
  }

  /** The value of a digit string, least significant first (digits are not range-checked). */
  function FromDigits(ds: seq<int>): int
  {
    if |ds| == 0 then 0 else ds[0] + 26 * FromDigits(ds[1..])
  }

  /** Digits then value: the round trip holds whenever `count` digits can hold `n`. */
  lemma {:induction false} FromDigitsToDigits(n: nat, count: nat)
    requires n < Pow26(count)
    ensures FromDigits(ToDigits(n, count)) == n
  {
    if count > 0 {
      FromDigitsToDigits(n / 26, count - 1);
      assert ToDigits(n, count)[1..] == ToDigits(n / 26, count - 1);
    }
  }
}
