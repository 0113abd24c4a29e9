/**
 Seed -> private key -> public key derivation, and the identity -> public
 key decoder (KeyHelper; QubicHelper carries identical copies of
 `SeedToBytes`, `PrivateKey`, `CreatePublicKey` and `GetIdentityBytes`).
 */
module KeyHelper {
  import opened Bytes
  import opened Base26
  import opened Crypto
  import opened DataView

  const SEED_ALPHABET: string := "abcdefghijklmnopqrstuvwxyz"
  const PRIVATE_KEY_LENGTH: nat := 32
  const PUBLIC_KEY_LENGTH: nat := 32
  const CHECKSUM_LENGTH: nat := 3

  /** `s.IndexOf(c)`: the first position of `c` in `s`, or -1. */
  function IndexOf(s: string, c: char): (r: int)
    ensures -1 <= r < |s|
    ensures r >= 0 ==> s[r] == c && c !in s[..r]
    ensures r == -1 ==> c !in s
  {
    if |s| == 0 then -1
    else if s[0] == c then 0
    else
      var k := IndexOf(s[1..], c);
      assert s[1..][..k + 1] == s[1..k + 2] by { }
      if k == -1 then -1 else k + 1
  }

  /** Each seed letter becomes its alphabet index, cast to a byte (so "not found", -1, becomes 255). */
  function SeedToBytes(seed: string): (r: Bytes)
    ensures |r| == |seed|
  {
    seq(|seed|, i requires 0 <= i < |seed| => IndexOf(SEED_ALPHABET, seed[i]) % 256)
  }

  /** 'a'..'z' map to 0..25; every other character maps to 255, there is no validation. */
  lemma SeedToBytesLetters(seed: string)
    ensures forall i :: 0 <= i < |seed| && 'a' <= seed[i] <= 'z' ==> SeedToBytes(seed)[i] == seed[i] as int - 'a' as int
    ensures forall i :: 0 <= i < |seed| && !('a' <= seed[i] <= 'z') ==> SeedToBytes(seed)[i] == 255
  {
    AlphabetLetters();
    forall i | 0 <= i < |seed|
      ensures SeedToBytes(seed)[i] == if 'a' <= seed[i] <= 'z' then seed[i] as int - 'a' as int else 255
    {
      SeedLetter(SEED_ALPHABET, seed[i]);
    }
  }

  lemma AlphabetLetters()
    ensures |SEED_ALPHABET| == 26
    ensures forall k | 0 <= k < 26 :: SEED_ALPHABET[k] as int == 'a' as int + k
  {
  }

  /** A seed character's alphabet index, as a byte. */
  lemma SeedLetter(alphabet: string, c: char)
    requires |alphabet| == 26 && forall k | 0 <= k < 26 :: alphabet[k] as int == 'a' as int + k
    ensures IndexOf(alphabet, c) % 256 == if 'a' <= c <= 'z' then c as int - 'a' as int else 255
  {
    if 'a' <= c <= 'z' {
      var m := c as int - 'a' as int;
      assert forall k | 0 <= k < m :: alphabet[..m][k] != c;
      IndexOfAt(alphabet, c, m);
    } else {
      assert forall k | 0 <= k < 26 :: alphabet[k] != c;
      IndexOfAbsent(alphabet, c);
    }
  }

  /** The first occurrence is where `IndexOf` stops. */
  lemma IndexOfAt(s: string, c: char, m: nat)
    requires m < |s| && s[m] == c && c !in s[..m]
    ensures IndexOf(s, c) == m
  {
  }

  lemma IndexOfAbsent(s: string, c: char)
    requires forall k | 0 <= k < |s| :: s[k] != c
    ensures IndexOf(s, c) == -1
  {
  }

  /**
   One turn of the preimage odometer: increment byte 0 (a byte, so 255
   wraps to 0); a byte that then exceeds 26 (the alphabet length, not 25)
   is reset to 1 and the increment carries into the next byte.
   */
  function OdometerStep(p: Bytes): (r: Bytes)
    ensures |r| == |p|
  {
    if |p| == 0 then []
    else
      var b := if p[0] == 255 then 0 else p[0] + 1;
      if b > |SEED_ALPHABET| then [1] + OdometerStep(p[1..]) else [b] + p[1..]
  }

  /** The preimage after `index` odometer turns; a non-positive index makes no turn. */
  function Preimage(seedBytes: Bytes, index: int): (r: Bytes)
    ensures |r| == |seedBytes|
    decreases index
  {
    if index <= 0 then seedBytes else OdometerStep(Preimage(seedBytes, index - 1))
  }

  /** The private key for `seed` at `index`: the 32-byte hash of the preimage. */
  function PrivateKey(c: Crypto, seed: string, index: int): (r: Bytes)
    ensures |r| == PRIVATE_KEY_LENGTH
    ensures index <= 0 ==> r == c.hash(SeedToBytes(seed), 32)
  {
    c.hash(Preimage(SeedToBytes(seed), index), PRIVATE_KEY_LENGTH)
  }

  /** The 35-byte checksummed public key: the derived 32-byte key, then a 3-byte hash of it. */
  function CreatePublicKey(c: Crypto, privateKey: Bytes): (r: Bytes)
    ensures |r| == PUBLIC_KEY_LENGTH + CHECKSUM_LENGTH
    ensures r[..PUBLIC_KEY_LENGTH] == c.derivePublicKey(privateKey)
    ensures r[PUBLIC_KEY_LENGTH..] == c.hash(c.derivePublicKey(privateKey), CHECKSUM_LENGTH)
  {
    var pk := c.derivePublicKey(privateKey);
    pk + c.hash(pk, CHECKSUM_LENGTH)
  }

  // ---------------------------------------------------------------------
  // Odometer properties

  /** Bytes that are all at most 26 stay so after a turn. */
  lemma {:induction false} OdometerStepBounded(p: Bytes)
    requires forall i :: 0 <= i < |p| ==> p[i] <= 26
    ensures forall i :: 0 <= i < |p| ==> OdometerStep(p)[i] <= 26
  {
    if |p| > 0 && (p[0] + 1) % 256 > 26 {
      OdometerStepBounded(p[1..]);
      assert OdometerStep(p) == [1] + OdometerStep(p[1..]);
    }
  }

  /** A turn always changes the first byte, so consecutive indices never share a preimage. */
  lemma OdometerStepChangesFirstByte(p: Bytes)
    requires |p| > 0
    ensures OdometerStep(p)[0] != p[0]
  {
  }

  /** The all-26 string: the only one whose turn wraps around to all ones. */
  function AllMax(n: nat): (r: seq<int>)
    ensures |r| == n
  {
    seq(n, _ => 26)
  }

  /**
   Read as base-26 digits (least significant first), a string of bytes at
   most 26 that is not all 26 gains exactly 1 per turn: the odometer is a
   counter in bijective base 26 (digits 1..26), started from seed digits 0..25.
   */
  lemma {:induction false} OdometerStepCounts(p: Bytes)
    requires forall i :: 0 <= i < |p| ==> p[i] <= 26
    requires p != AllMax(|p|)
    ensures FromDigits(OdometerStep(p)) == FromDigits(p) + 1
  {
    assert |p| > 0;
    if p[0] + 1 > 26 {
      assert p[0] == 26;
      OdometerStepCounts(p[1..]);
      assert OdometerStep(p) == [1] + OdometerStep(p[1..]);
      assert OdometerStep(p)[1..] == OdometerStep(p[1..]);
    } else {
      assert OdometerStep(p)[1..] == p[1..];
    }
  }

  /** Without reaching the all-26 string, `n` turns add `n` to the digit value. */
  lemma {:induction false} PreimageCounts(p: Bytes, n: nat)
    requires forall i :: 0 <= i < |p| ==> p[i] <= 26
    requires FromDigits(p) + n <= FromDigits(AllMax(|p|))
    ensures forall i :: 0 <= i < |p| ==> Preimage(p, n)[i] <= 26
    ensures FromDigits(Preimage(p, n)) == FromDigits(p) + n
  {
    if n > 0 {
      PreimageCounts(p, n - 1);
      var q := Preimage(p, n - 1);
      assert q != AllMax(|p|);
      OdometerStepBounded(q);
      OdometerStepCounts(q);
    }
  }

  /** Digits at most 25 leave room of at least 26^(n-1) below the all-26 value. */
  lemma {:induction false} SeedDigitsHeadroom(p: Bytes)
    requires |p| > 0
    requires forall i :: 0 <= i < |p| ==> p[i] <= 25
    ensures FromDigits(p) + Pow26(|p| - 1) <= FromDigits(AllMax(|p|))
  {
    if |p| > 1 {
      SeedDigitsHeadroom(p[1..]);
      assert AllMax(|p|)[1..] == AllMax(|p| - 1);
    } else {
      assert FromDigits(p[1..]) == 0;
      assert FromDigits(AllMax(|p|)) == 26 + 26 * FromDigits(AllMax(|p|)[1..]);
      assert AllMax(|p|)[1..] == [];
    }
  }

  /**
   For a lower-case seed of at least 8 letters, every two distinct
   non-negative 32-bit indices give distinct preimages (26^7 > 2^31, so the
   odometer cannot wrap within the index range). The private keys are hashes
   of these preimages.
   */
  lemma PreimagesDistinct(seed: string, i: int, j: int)
    requires |seed| >= 8
    requires forall k :: 0 <= k < |seed| ==> 'a' <= seed[k] <= 'z'
    requires 0 <= i < j < 0x8000_0000
    ensures Preimage(SeedToBytes(seed), i) != Preimage(SeedToBytes(seed), j)
  {
    var p := SeedToBytes(seed);
    SeedToBytesLetters(seed);
    SeedDigitsHeadroom(p);
    Pow26Bounds();
    Pow26Monotone(7, |p| - 1);
    PreimageCounts(p, i);
    PreimageCounts(p, j);
  }

  /**
   From turn 1 on, the one-byte odometer started at a letter digit cycles
   through 1 .. 26 (never 0 again).
   */
  lemma {:induction false} OneLetterPreimage(d: uint8, k: nat)
    requires d <= 25 && k >= 1
    ensures Preimage([d], k) == [(d + k - 1) % 26 + 1]
  {
    var j: nat := k - 1;
    if j == 0 {
      OneLetterStep([d], k, j, d);
      assert d + k - 1 == d;
    } else {
      OneLetterPreimage(d, j);
      var v := (d + j - 1) % 26 + 1;
      OneLetterStep([d], k, j, v);
      ModNext(d + j - 1, d + k - 1);
    }
  }

  /** A one-byte preimage holding 0 .. 26 at turn `j` holds the next value of 1 .. 26 at turn `j + 1`. */
  lemma OneLetterStep(p: Bytes, k: int, j: int, v: int)
    requires k == j + 1 && k >= 1 && 0 <= v <= 26
    requires Preimage(p, j) == [v]
    ensures Preimage(p, k) == [v % 26 + 1]
  {
    PreimageStep(p, k, j);
    OneByteStep(v);
  }

  /** Turn `k` of the odometer is one step after turn `k - 1`. */
  lemma PreimageStep(p: Bytes, k: int, j: int)
    requires k == j + 1 && k >= 1
    ensures Preimage(p, k) == OdometerStep(Preimage(p, j))
  {
  }

  /** On a one-byte preimage holding 0 .. 26 the odometer steps to the next value of 1 .. 26. */
  lemma OneByteStep(v: int)
    requires 0 <= v <= 26
    ensures OdometerStep([v]) == [v % 26 + 1]
  {
    assert [v][1..] == [];
  }

  lemma ModNext(x: nat, y: nat)
    requires y == x + 1
    ensures (x % 26 + 1) % 26 + 1 == y % 26 + 1
  {
  }

  /**
   A one-letter seed shows the wrap: from index 1 on, index k and index
   k + 26 give the same preimage, hence the same private key.
   */
  lemma ShortSeedCollision(c: Crypto, seed: string, k: nat)
    requires |seed| == 1 && 'a' <= seed[0] <= 'z' && k >= 1
    ensures Preimage(SeedToBytes(seed), k) == Preimage(SeedToBytes(seed), k + 26)
    ensures PrivateKey(c, seed, k) == PrivateKey(c, seed, k + 26)
  {
    SeedToBytesLetters(seed);
    var d := SeedToBytes(seed)[0];
    assert SeedToBytes(seed) == [d];
    OneLetterCycle(d, k);
  }

  lemma OneLetterCycle(d: uint8, k: nat)
    requires d <= 25 && k >= 1
    ensures Preimage([d], k) == Preimage([d], k + 26)
  {
    OneLetterPreimage(d, k);
    OneLetterPreimage(d, k + 26);
    ModCycle(d + k - 1, d + (k + 26) - 1);
  }

  lemma ModCycle(x: int, y: int)
    requires y == x + 26
    ensures [y % 26 + 1] == [x % 26 + 1]
  {
  }

  // ---------------------------------------------------------------------
  // Identity -> public key bytes

  /** `(ulong)(letter - 'A')`: the digit a letter contributes, wrapped to 64 bits. */
  function LetterDigit(c: char): uint64
  {
    (c as int - 'A' as int) % TWO_64
  }

  /** The signed letter offsets `letter - 'A'`, before any 64-bit wrap. */
  function LetterOffsets(letters: string): (r: seq<int>)
    ensures |r| == |letters|
  {
    seq(|letters|, i requires 0 <= i < |letters| => letters[i] as int - 'A' as int)
  }

  /**
   The decoder's accumulator after folding letters `hi-1` down to `lo` of `s`
   (`acc = acc * 26 + digit`), in wrapping 64-bit arithmetic.
   */
  function FoldRange(s: string, lo: nat, hi: nat): (r: uint64)
    requires lo <= hi <= |s|
    decreases hi - lo
  {
    if lo == hi then 0 else (FoldRange(s, lo + 1, hi) * 26 + LetterDigit(s[lo])) % TWO_64
  }

  lemma ModMulAdd(a: int, d: int)
    ensures ((a % TWO_64) * 26 + d % TWO_64) % TWO_64 == (a * 26 + d) % TWO_64
  {
    var k := 26 * (a / TWO_64) + d / TWO_64;
    assert a * 26 + d == (a % TWO_64) * 26 + d % TWO_64 + k * TWO_64;
  }

  /** A group decodes to the sum of (letter - 'A') * 26^j, reduced modulo 2^64. */
  lemma {:induction false} FoldRangeValue(s: string, lo: nat, hi: nat)
    requires lo <= hi <= |s|
    ensures FoldRange(s, lo, hi) == FromDigits(LetterOffsets(s[lo..hi])) % TWO_64
    decreases hi - lo
  {
    if lo < hi {
      FoldRangeValue(s, lo + 1, hi);
      assert LetterOffsets(s[lo..hi])[1..] == LetterOffsets(s[lo + 1..hi]);
      ModMulAdd(FromDigits(LetterOffsets(s[lo + 1..hi])), s[lo] as int - 'A' as int);
    }
  }

  /** The four groups of an identity (letters 14i .. 14i+13), each decoded to a 64-bit value. */
  function GroupValues(identity: string): (r: seq<uint64>)
    requires |identity| >= 56
    ensures |r| == 4
  {
    seq(4, i requires 0 <= i < 4 => FoldRange(identity, 14 * i, 14 * i + 14))
  }

  lemma GroupValue(identity: string, i: nat)
    requires |identity| >= 56 && i < 4
    ensures GroupValues(identity)[i] == FoldRange(identity, 14 * i, 14 * i + 14)
  {
  }

  /** Four 64-bit values stored one after the other as 8-byte little-endian slots. */
  function Slots(g: seq<uint64>): (r: Bytes)
    requires |g| == 4
    ensures |r| == 32
  {
    ToLE(g[0], 8) + ToLE(g[1], 8) + ToLE(g[2], 8) + ToLE(g[3], 8)
  }

  /** The public key bytes an identity decodes to: its four group values in their slots. */
  function IdentityBytes(identity: string): (r: Bytes)
    requires |identity| >= 56
    ensures |r| == 32
  {
    Slots(GroupValues(identity))
  }

  lemma IdentityBytesGroup(identity: string, i: nat)
    requires |identity| >= 56 && i < 4
    ensures IdentityBytes(identity)[8 * i..8 * i + 8] == ToLE(GroupValues(identity)[i], 8)
  {
    ConcatSlice(GroupValues(identity), i);
  }

  /** Slice `i` of four concatenated 8-byte encodings is encoding `i`. */
  lemma ConcatSlice(g: seq<uint64>, i: nat)
    requires |g| == 4 && i < 4
    ensures Slots(g)[8 * i..8 * i + 8] == ToLE(g[i], 8)
  {
    var a, b, c, d := ToLE(g[0], 8), ToLE(g[1], 8), ToLE(g[2], 8), ToLE(g[3], 8);
    assert Slots(g) == a + b + c + d;
    Quarter(a, b, c, d, i);
    assert [a, b, c, d][i] == ToLE(g[i], 8) by {
      if i == 0 {} else if i == 1 {} else if i == 2 {} else {}
    }
  }

  lemma Quarter(a: Bytes, b: Bytes, c: Bytes, d: Bytes, i: nat)
    requires |a| == |b| == |c| == |d| == 8 && i < 4
    ensures (a + b + c + d)[8 * i..8 * i + 8] == [a, b, c, d][i]
  {
    var r := a + b + c + d;
    if i == 0 {
      assert r[0..8] == a;
    } else if i == 1 {
      assert r[8..16] == b;
    } else if i == 2 {
      assert r[16..24] == c;
    } else {
      assert r[24..32] == d;
    }
  }

  /** Slot `i` of the decoded bytes holds the base-26 value of group `i`, reduced modulo 2^64. */
  lemma IdentityBytesSlot(identity: string, i: nat)
    requires |identity| >= 56 && i < 4
    ensures IdentityBytes(identity)[8 * i..8 * i + 8] == ToLE(FromDigits(LetterOffsets(identity[14 * i..14 * i + 14])) % TWO_64, 8)
  {
    GroupValue(identity, i);
    FoldRangeValue(identity, 14 * i, 14 * i + 14);
    IdentityBytesGroup(identity, i);
  }

  /** Group `i` of the decoded bytes is the base-26 value of its 14 letters, reduced modulo 2^64. */
  lemma IdentityBytesValue(identity: string, i: nat)
    requires |identity| >= 56 && i < 4
    ensures FromLE(IdentityBytes(identity)[8 * i..8 * i + 8]) == FromDigits(LetterOffsets(identity[14 * i..14 * i + 14])) % TWO_64
  {
    var v := GroupValues(identity)[i];
    GroupValue(identity, i);
    FoldRangeValue(identity, 14 * i, 14 * i + 14);
    IdentityBytesGroup(identity, i);
    Pow256Values();
    FromLEToLE(v, 8);
  }

  /**
   The inner loop of `GetIdentityBytes` for the group starting at letter
   `first`: for j = 13 down to 0 the group value becomes `value * 26 + (letter - 'A')`,
   wrapping at 2^64.
   */
  method DecodeGroup(identity: string, first: nat) returns (value: uint64)
    requires first + 14 <= |identity|
    ensures value == FoldRange(identity, first, first + 14)
    ensures value == FromDigits(LetterOffsets(identity[first..first + 14])) % TWO_64
  {
    value := 0;
    var j := 14;
    while j > 0
      invariant 0 <= j <= 14
      invariant value == FoldRange(identity, first + j, first + 14)
    {
      j := j - 1;
      value := (value * 26 + LetterDigit(identity[first + j])) % TWO_64;
    }
    FoldRangeValue(identity, first, first + 14);
  }

  /** `GetIdentityBytes`: the four 14-letter groups decoded into their 8-byte slots, in order. */
  method GetIdentityBytes(identity: string) returns (publicKeyBytes: Bytes)
    requires |identity| >= 56
    ensures publicKeyBytes == IdentityBytes(identity)
  {
    publicKeyBytes := Zeros(32);
    for i := 0 to 4
      invariant |publicKeyBytes| == 32
      invariant publicKeyBytes[..8 * i] == IdentityBytes(identity)[..8 * i]
    {
      SlotOfGroup(identity, i);
      publicKeyBytes := StoreGroup(identity, publicKeyBytes, i, IdentityBytes(identity));
    }
    assert publicKeyBytes == publicKeyBytes[..32];
  }

  /** One round of `GetIdentityBytes`' loop: group `i` decoded and stored in slot `i`. */
  method StoreGroup(identity: string, s: Bytes, i: nat, ghost target: Bytes) returns (t: Bytes)
    requires |identity| >= 56 && i < 4 && |s| == 32 && |target| == 32
    requires s[..8 * i] == target[..8 * i]
    requires target[8 * i..8 * i + 8] == ToLE(FoldRange(identity, 14 * i, 14 * i + 14), 8)
    ensures |t| == 32
    ensures t[..8 * i + 8] == target[..8 * i + 8]
  {
    var value := DecodeGroup(identity, 14 * i);
    StoreSlot(s, target, 8 * i, value);
    t := SetBigUint64(s, 8 * i, value);
  }

  /** Slot `i` of an identity's bytes encodes group `i`'s value. */
  lemma SlotOfGroup(identity: string, i: nat)
    requires |identity| >= 56 && i < 4
    ensures IdentityBytes(identity)[8 * i..8 * i + 8] == ToLE(FoldRange(identity, 14 * i, 14 * i + 14), 8)
  {
    GroupValue(identity, i);
    IdentityBytesGroup(identity, i);
  }

  /** Storing a slot's value extends a matching prefix by that slot. */
  lemma StoreSlot(s: Bytes, t: Bytes, base: nat, value: uint64)
    requires base + 8 <= |s| && base + 8 <= |t|
    requires s[..base] == t[..base]
    requires t[base..base + 8] == ToLE(value, 8)
    ensures SetBigUint64(s, base, value)[..base + 8] == t[..base + 8]
  {
    var next := SetBigUint64(s, base, value);
    assert next[..base] == s[..base];
    AppendGroup(next, t, base);
  }

  lemma AppendGroup(s: Bytes, t: Bytes, base: nat)
    requires base + 8 <= |s| && base + 8 <= |t|
    requires s[..base] == t[..base]
    requires s[base..base + 8] == t[base..base + 8]
    ensures s[..base + 8] == t[..base + 8]
  {
    assert s[..base + 8] == s[..base] + s[base..base + 8];
    assert t[..base + 8] == t[..base] + t[base..base + 8];
  }
}
