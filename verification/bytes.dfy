/**
 Fixed-width integers and their little-endian byte encodings.

 Every multi-byte integer on the wire is little-endian. `ToLE(n, w)` is the
 `w`-byte two's-complement encoding of ANY integer `n`, truncated to `w`
 bytes: Dafny's `/` and `%` by a positive divisor are floor division and a
 non-negative remainder, which is exactly an arithmetic right shift followed
 by a `(byte)` cast. So `ToLE` models `BitConverter.GetBytes` for every width
 and the hand-written `(byte)(x >> 8 * k)` sequences alike.
 */
module Bytes {

  type uint8 = x: int | 0 <= x < 0x100
  type uint16 = x: int | 0 <= x < 0x1_0000
  type uint32 = x: int | 0 <= x < 0x1_0000_0000
  type uint64 = x: int | 0 <= x < 0x1_0000_0000_0000_0000
  type int16 = x: int | -0x8000 <= x < 0x8000
  type int32 = x: int | -0x8000_0000 <= x < 0x8000_0000
  type int64 = x: int | -0x8000_0000_0000_0000 <= x < 0x8000_0000_0000_0000

  type Bytes = seq<uint8>

  const TWO_16: nat := 0x1_0000
  const TWO_24: nat := 0x100_0000
  const TWO_32: nat := 0x1_0000_0000
  const TWO_64: nat := 0x1_0000_0000_0000_0000

  /** `n` zero bytes, the content of a freshly allocated `new byte[n]`. */
  function Zeros(n: nat): (r: Bytes)
    ensures |r| == n
    ensures forall i :: 0 <= i < n ==> r[i] == 0
  {
    seq(n, _ => 0)
  }

  function Pow256(w: nat): (r: nat)
    ensures r >= 1
  {
    if w == 0 then 1 else 256 * Pow256(w - 1)
  }

  lemma Pow256Values()
    ensures Pow256(1) == 0x100
    ensures Pow256(2) == TWO_16
    ensures Pow256(3) == TWO_24
    ensures Pow256(4) == TWO_32
    ensures Pow256(8) == TWO_64
  {
    assert Pow256(1) == 0x100;
    assert Pow256(2) == TWO_16;
    assert Pow256(3) == TWO_24;
    assert Pow256(4) == TWO_32;
    assert Pow256(5) == 0x100_0000_0000;
    assert Pow256(6) == 0x1_0000_0000_0000;
    assert Pow256(7) == 0x100_0000_0000_0000;
  }

  /** The `width` low-order bytes of the two's-complement form of `n`, least significant first. */
  function ToLE(n: int, width: nat): (r: Bytes)
    ensures |r| == width
    decreases width
  {
    if width == 0 then [] else [n % 256] + ToLE(n / 256, width - 1)
  }

  /** Half of 256^w: the bound of the signed `w`-byte range. */
  function HalfRange(w: nat): int
  {
    Pow256(w) / 2
  }

  /** The unsigned value of a little-endian byte sequence. */
  function FromLE(s: Bytes): (r: nat)
    ensures r < Pow256(|s|)
  {
    if |s| == 0 then 0 else s[0] + 256 * FromLE(s[1..])
  }

  /** The signed (two's-complement) value of a non-empty little-endian byte sequence. */
  function FromLESigned(s: Bytes): (r: int)
    requires |s| > 0
    ensures -HalfRange(|s|) <= r < HalfRange(|s|)
  {
    HalfOfPow256(|s|);
    var u := FromLE(s);
    if u >= Pow256(|s|) / 2 then u - Pow256(|s|) else u
  }

  /** 256^w is even for a positive width, so half of it is exact. */
  lemma HalfOfPow256(w: nat)
    requires w > 0
    ensures Pow256(w) == 2 * HalfRange(w)
  {
    assert Pow256(w) == 2 * (128 * Pow256(w - 1));
  }

  /** Encoding a value that fits in `width` bytes, then decoding it, gives it back. */
  lemma {:induction false} FromLEToLE(n: int, width: nat)
    requires 0 <= n < Pow256(width)
    ensures FromLE(ToLE(n, width)) == n
  {
    if width > 0 {
      FromLEToLE(n / 256, width - 1);
      assert ToLE(n, width)[1..] == ToLE(n / 256, width - 1);
    }
  }

  /** Decoding a byte sequence, then re-encoding it at its own width, gives it back. */
  lemma {:induction false} ToLEFromLE(s: Bytes)
    ensures ToLE(FromLE(s), |s|) == s
  {
    if |s| > 0 {
      ToLEFromLE(s[1..]);
      var n := FromLE(s);
      assert n % 256 == s[0];
      assert n / 256 == FromLE(s[1..]);
    }
  }

  /** The encoding only depends on the value modulo 256^width. */
  lemma {:induction false} ToLEShift(n: int, width: nat)
    ensures ToLE(n + Pow256(width), width) == ToLE(n, width)
    decreases width
  {
    if width > 0 {
      var p := Pow256(width - 1);
      assert (n + 256 * p) % 256 == n % 256;
      assert (n + 256 * p) / 256 == n / 256 + p;
      ToLEShift(n / 256, width - 1);
    }
  }

  /** A top byte over a `w`-byte value encodes as the value's bytes followed by that byte. */
  lemma {:induction false} ToLEHigh(hi: int, lo: int, w: nat)
    requires 0 <= lo < Pow256(w)
    ensures ToLE(hi * Pow256(w) + lo, w + 1) == ToLE(lo, w) + [hi % 256]
    decreases w
  {
    if w == 0 {
      assert lo == 0;
    } else {
      var v: nat := w - 1;
      var p := Pow256(v);
      var q := hi * p + lo / 256;
      assert hi * Pow256(w) + lo == 256 * q + lo % 256 by {
        assert Pow256(w) == 256 * p;
        assert hi * (256 * p) == 256 * (hi * p);
      }
      DivMod256(q, lo % 256);
      ToLEHigh(hi, lo / 256, v);
      ToLEStep(lo, w, v);
      ToLEStep(256 * q + lo % 256, w + 1, w);
    }
  }

  /** One byte off the bottom: `q · 256 + r` has remainder `r` and quotient `q`. */
  lemma DivMod256(q: int, r: int)
    requires 0 <= r < 256
    ensures (256 * q + r) % 256 == r && (256 * q + r) / 256 == q
  {
  }

  /** The first byte of an encoding, then the encoding of the rest. */
  lemma ToLEStep(n: int, width: nat, rest: nat)
    requires width == rest + 1
    ensures ToLE(n, width) == [n % 256] + ToLE(n / 256, rest)
  {
  }

  /** A byte over a `w`-byte value encodes as the value's bytes followed by that byte. */
  lemma ToLEByteAbove(high: int, low: int, w: nat, p: int, wide: nat)
    requires p == Pow256(w) && wide == w + 1
    requires 0 <= high < 256 && 0 <= low < p
    ensures ToLE(high * p + low, wide) == ToLE(low, w) + [high]
  {
    ToLEHigh(high, low, w);
    SmallMod(high);
  }

  lemma SmallMod(x: int)
    requires 0 <= x < 256
    ensures x % 256 == x
  {
  }

  /** A value already below the modulus is its own remainder. */
  lemma BelowModulus(x: int, m: int)
    requires 0 <= x < m
    ensures x % m == x
  {
  }

  /** Signed round trip: encoding a value in the signed range, then decoding it as signed, gives it back. */
  lemma FromLESignedToLE(v: int, width: nat)
    requires width > 0
    requires -HalfRange(width) <= v < HalfRange(width)
    ensures FromLESigned(ToLE(v, width)) == v
  {
    var p := Pow256(width);
    if v >= 0 {
      FromLEToLE(v, width);
    } else {
      ToLEShift(v, width);
      FromLEToLE(v + p, width);
    }
  }

  /** Signed round trip the other way: any byte sequence is the encoding of its signed value. */
  lemma ToLEFromLESigned(s: Bytes)
    requires |s| > 0
    ensures ToLE(FromLESigned(s), |s|) == s
  {
    var u := FromLE(s);
    var v := FromLESigned(s);
    ToLEFromLE(s);
    SignedValue(s, u, Pow256(|s|));
    if v != u {
      ToLEWrapped(v, u, |s|);
    }
  }

  lemma ToLEWrapped(n: int, m: int, width: nat)
    requires m == n + Pow256(width)
    ensures ToLE(m, width) == ToLE(n, width)
  {
    ToLEShift(n, width);
  }

  /** The signed value names the unsigned one, less 256^w in the upper half. */
  lemma SignedValue(s: Bytes, u: nat, p: nat)
    requires |s| > 0 && u == FromLE(s) && p == Pow256(|s|)
    ensures FromLESigned(s) == u || FromLESigned(s) + p == u
  {
  }

  /** Three little-endian bytes whose top byte is zero hold a value below 2^16. */
  lemma FromLEShort(s: Bytes)
    requires |s| == 3 && s[2] == 0
    ensures FromLE(s) < TWO_16
  {
    assert FromLE(s[2..]) == 0 by {
      assert s[2..][1..] == [];
    }
    assert s[1..][1..] == s[2..];
    assert FromLE(s[1..]) == s[1];
  }

  lemma UnsignedSlot(a: int, b: int, width: nat)
    requires 0 <= a < Pow256(width) && 0 <= b < Pow256(width)
    requires ToLE(a, width) == ToLE(b, width)
    ensures a == b
  {
    FromLEToLE(a, width);
    FromLEToLE(b, width);
  }

  /** Two values of the signed range of `width` bytes with equal encodings are equal. */
  lemma SignedSlot(a: int, b: int, width: nat)
    requires width > 0
    requires -HalfRange(width) <= a < HalfRange(width) && -HalfRange(width) <= b < HalfRange(width)
    requires ToLE(a, width) == ToLE(b, width)
    ensures a == b
  {
    FromLESignedToLE(a, width);
    FromLESignedToLE(b, width);
  }

  /** Reduction of an integer into the signed 64-bit range, as unchecked C# `long` arithmetic does. */
  function WrapInt64(x: int): (r: int64)
    ensures (r - x) % TWO_64 == 0
  {
    var m := x % TWO_64;
    if m >= TWO_64 / 2 then m - TWO_64 else m
  }

  /** Reduction of an integer into the signed 32-bit range, as unchecked C# `int` arithmetic does. */
  function WrapInt32(x: int): (r: int32)
    ensures (r - x) % TWO_32 == 0
  {
    var m := x % TWO_32;
    if m >= TWO_32 / 2 then m - TWO_32 else m
  }
}
