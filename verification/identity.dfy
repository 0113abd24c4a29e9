/**
 The 60-letter identity of a public key (QubicHelper.GetIdentity) and its
 verification (QubicHelper.VerifyIdentity).

 Letters 14i .. 14i+13 are the 14 base-26 digits of public key bytes
 8i .. 8i+7 read as a little-endian 64-bit value, least significant digit
 first; letters 56 .. 59 are the 4 digits of an 18-bit checksum taken from
 the first three bytes of the key's 32-byte hash.
 */
module Identity {
  import opened Bytes
  import opened Base26
  import opened Crypto
  import opened KeyHelper

  const IDENTITY_LENGTH: nat := 60
  const DIGEST_LENGTH: nat := 32
  const CHECKSUM_MASK: nat := 0x3FFFF

  /** Digit `d` as a letter of the chosen case. */
  function Letter(d: nat, lowerCase: bool): (r: char)
    requires d < 26
    ensures 'A' <= r <= 'Z' || 'a' <= r <= 'z'
    ensures lowerCase <==> 'a' <= r <= 'z'
  {
    ((if lowerCase then 'a' else 'A') as int + d) as char
  }

  /** The letters of a digit string. */
  function Letters(ds: seq<nat>, lowerCase: bool): (r: string)
    requires forall i :: 0 <= i < |ds| ==> ds[i] < 26
    ensures |r| == |ds|
  {
    seq(|ds|, i requires 0 <= i < |ds| => Letter(ds[i], lowerCase))
  }

  /**
   The checksum: the first three hash bytes as a little-endian 24-bit
   value, masked to 18 bits. The source combines them as
   `(b2 << 16) | (b1 << 8) | b0`; the shifted bytes do not overlap, so
   that is the sum written here.
   */
  function Checksum(c: Crypto, publicKey: Bytes): (r: nat)
    ensures r <= CHECKSUM_MASK
  {
    var h := c.hash(publicKey, DIGEST_LENGTH);
    (h[0] + 256 * h[1] + 65536 * h[2]) % (CHECKSUM_MASK + 1)
  }

  /** The 14 letters of one 8-byte group. */
  function GroupLetters(group: Bytes, lowerCase: bool): (r: string)
    requires |group| == 8
    ensures |r| == 14
  {
    Letters(ToDigits(FromLE(group), 14), lowerCase)
  }

  /** `GetIdentity(publicKey, lowerCase)`; the first 32 bytes are encoded and the whole key is hashed. */
  function GetIdentity(c: Crypto, publicKey: Bytes, lowerCase: bool): (r: string)
    requires |publicKey| >= 32
    ensures |r| == IDENTITY_LENGTH
  {
    GroupLetters(publicKey[0..8], lowerCase) + GroupLetters(publicKey[8..16], lowerCase)
      + GroupLetters(publicKey[16..24], lowerCase) + GroupLetters(publicKey[24..32], lowerCase)
      + Letters(ToDigits(Checksum(c, publicKey), 4), lowerCase)
  }

  /** `GetHumanReadableBytes`: the identity in lower case. */
  function HumanReadable(c: Crypto, publicKey: Bytes): (r: string)
    requires |publicKey| >= 32
    ensures |r| == IDENTITY_LENGTH
    ensures forall i :: 0 <= i < |r| ==> 'a' <= r[i] <= 'z'
    ensures forall i :: 0 <= i < |r| ==> r[i] as int == GetIdentity(c, publicKey, false)[i] as int + 32
  {
    IdentityLetters(c, publicKey, true);
    IdentityLetters(c, publicKey, false);
    GetIdentity(c, publicKey, true)
  }

  /** Every letter of an identity is of the requested case. */
  lemma IdentityLetters(c: Crypto, publicKey: Bytes, lowerCase: bool)
    requires |publicKey| >= 32
    ensures var id := GetIdentity(c, publicKey, lowerCase);
      forall i :: 0 <= i < |id| ==> if lowerCase then 'a' <= id[i] <= 'z' else 'A' <= id[i] <= 'Z'
    ensures forall i :: 0 <= i < IDENTITY_LENGTH ==>
      GetIdentity(c, publicKey, true)[i] as int == GetIdentity(c, publicKey, false)[i] as int + 32
  {
    var ds0, ds1 := ToDigits(FromLE(publicKey[0..8]), 14), ToDigits(FromLE(publicKey[8..16]), 14);
    var ds2, ds3 := ToDigits(FromLE(publicKey[16..24]), 14), ToDigits(FromLE(publicKey[24..32]), 14);
    var ds4 := ToDigits(Checksum(c, publicKey), 4);
    assert GetIdentity(c, publicKey, lowerCase)
      == Letters(ds0, lowerCase) + Letters(ds1, lowerCase) + Letters(ds2, lowerCase) + Letters(ds3, lowerCase) + Letters(ds4, lowerCase);
    assert GetIdentity(c, publicKey, true)
      == Letters(ds0, true) + Letters(ds1, true) + Letters(ds2, true) + Letters(ds3, true) + Letters(ds4, true);
    assert GetIdentity(c, publicKey, false)
      == Letters(ds0, false) + Letters(ds1, false) + Letters(ds2, false) + Letters(ds3, false) + Letters(ds4, false);
    LettersOfCase(ds0, lowerCase);
    LettersOfCase(ds1, lowerCase);
    LettersOfCase(ds2, lowerCase);
    LettersOfCase(ds3, lowerCase);
    LettersOfCase(ds4, lowerCase);
    FiveOfCase(Letters(ds0, lowerCase), Letters(ds1, lowerCase), Letters(ds2, lowerCase), Letters(ds3, lowerCase), Letters(ds4, lowerCase), lowerCase);
    LettersShifted(ds0);
    LettersShifted(ds1);
    LettersShifted(ds2);
    LettersShifted(ds3);
    LettersShifted(ds4);
    FiveShifted(Letters(ds0, true), Letters(ds1, true), Letters(ds2, true), Letters(ds3, true), Letters(ds4, true),
      Letters(ds0, false), Letters(ds1, false), Letters(ds2, false), Letters(ds3, false), Letters(ds4, false));
  }

  /** Every letter of `s` is of the requested case. */
  predicate OfCase(s: string, lowerCase: bool)
  {
    forall i :: 0 <= i < |s| ==> if lowerCase then 'a' <= s[i] <= 'z' else 'A' <= s[i] <= 'Z'
  }

  /** `lower` is `upper` with every letter 32 code points on, the ASCII lower-case shift. */
  predicate Shifted(lower: string, upper: string)
  {
    |lower| == |upper| && forall i :: 0 <= i < |lower| ==> lower[i] as int == upper[i] as int + 32
  }

  /** Letters made in one case are all of that case. */
  lemma LettersOfCase(ds: seq<nat>, lowerCase: bool)
    requires forall i :: 0 <= i < |ds| ==> ds[i] < 26
    ensures OfCase(Letters(ds, lowerCase), lowerCase)
  {
  }

  /** The lower-case letters of a digit string are its upper-case letters shifted. */
  lemma LettersShifted(ds: seq<nat>)
    requires forall i :: 0 <= i < |ds| ==> ds[i] < 26
    ensures Shifted(Letters(ds, true), Letters(ds, false))
  {
  }

  lemma ConcatOfCase(a: string, b: string, lowerCase: bool)
    requires OfCase(a, lowerCase) && OfCase(b, lowerCase)
    ensures OfCase(a + b, lowerCase)
  {
    forall i | 0 <= i < |a + b|
      ensures if lowerCase then 'a' <= (a + b)[i] <= 'z' else 'A' <= (a + b)[i] <= 'Z'
    {
      if i >= |a| {
        assert (a + b)[i] == b[i - |a|];
      }
    }
  }

  lemma ConcatShifted(a: string, b: string, x: string, y: string)
    requires Shifted(a, x) && Shifted(b, y)
    ensures Shifted(a + b, x + y)
  {
    forall i | 0 <= i < |a + b|
      ensures (a + b)[i] as int == (x + y)[i] as int + 32
    {
      if i >= |a| {
        assert (a + b)[i] == b[i - |a|] && (x + y)[i] == y[i - |x|];
      }
    }
  }

  lemma FiveOfCase(a: string, b: string, c: string, d: string, e: string, lowerCase: bool)
    requires OfCase(a, lowerCase) && OfCase(b, lowerCase) && OfCase(c, lowerCase)
    requires OfCase(d, lowerCase) && OfCase(e, lowerCase)
    ensures OfCase(a + b + c + d + e, lowerCase)
  {
    ConcatOfCase(a, b, lowerCase);
    ConcatOfCase(a + b, c, lowerCase);
    ConcatOfCase(a + b + c, d, lowerCase);
    ConcatOfCase(a + b + c + d, e, lowerCase);
  }

  lemma FiveShifted(a: string, b: string, c: string, d: string, e: string,
                    x: string, y: string, z: string, u: string, v: string)
    requires Shifted(a, x) && Shifted(b, y) && Shifted(c, z) && Shifted(d, u) && Shifted(e, v)
    ensures Shifted(a + b + c + d + e, x + y + z + u + v)
  {
    ConcatShifted(a, b, x, y);
    ConcatShifted(a + b, c, x + y, z);
    ConcatShifted(a + b + c, d, x + y + z, u);
    ConcatShifted(a + b + c + d, e, x + y + z + u, v);
  }

  /** Reading 14 letters back gives the digits they were made of. */
  lemma LettersOffsets(ds: seq<nat>)
    requires forall i :: 0 <= i < |ds| ==> ds[i] < 26
    ensures LetterOffsets(Letters(ds, false)) == ds
  {
  }

  /** One group decodes back to the 8 bytes it was encoded from. */
  lemma GroupRoundTrip(group: Bytes)
    requires |group| == 8
    ensures ToLE(FromDigits(LetterOffsets(GroupLetters(group, false))) % TWO_64, 8) == group
  {
    var v := FromLE(group);
    GroupValueBack(group);
    GroupBelow(group);
    BelowModulus(v, TWO_64);
    ToLEFromLE(group);
  }

  /** An 8-byte group's value is below 2^64. */
  lemma GroupBelow(group: Bytes)
    requires |group| == 8
    ensures FromLE(group) < TWO_64
  {
    Pow256Values();
  }

  /** The letters of a group read back as the group's 64-bit value. */
  lemma GroupValueBack(group: Bytes)
    requires |group| == 8
    ensures FromDigits(LetterOffsets(GroupLetters(group, false))) == FromLE(group)
  {
    var v := FromLE(group);
    var ds := ToDigits(v, 14);
    LettersOffsets(ds);
    GroupBelow(group);
    Pow26Bounds();
    FromDigitsToDigits(v, 14);
  }

  /**
   Decoding an upper-case identity recovers the public key it was made
   from: `GetIdentityBytes(GetIdentity(pk)) == pk[0..32]`.
   */
  lemma IdentityRoundTrip(c: Crypto, publicKey: Bytes)
    requires |publicKey| >= 32
    ensures IdentityBytes(GetIdentity(c, publicKey, false)) == publicKey[..32]
  {
    var id := GetIdentity(c, publicKey, false);
    forall i | 0 <= i < 4
      ensures id[14 * i..14 * i + 14] == GroupLetters(publicKey[8 * i..8 * i + 8], false)
    {
      IdentityGroup(c, publicKey, i);
    }
    DecodeGroups(id, publicKey);
  }

  /** An identity whose four groups are the letters of the key's four slots decodes to the key. */
  lemma DecodeGroups(id: string, publicKey: Bytes)
    requires |id| >= 56 && |publicKey| >= 32
    requires forall i :: 0 <= i < 4 ==> id[14 * i..14 * i + 14] == GroupLetters(publicKey[8 * i..8 * i + 8], false)
    ensures IdentityBytes(id) == publicKey[..32]
  {
    forall i | 0 <= i < 4
      ensures IdentityBytes(id)[8 * i..8 * i + 8] == publicKey[8 * i..8 * i + 8]
    {
      DecodeSlot(id, publicKey, i);
    }
    SlotsEqual(IdentityBytes(id), publicKey);
  }

  lemma DecodeSlot(id: string, publicKey: Bytes, i: nat)
    requires |id| >= 56 && |publicKey| >= 32 && i < 4
    requires id[14 * i..14 * i + 14] == GroupLetters(publicKey[8 * i..8 * i + 8], false)
    ensures IdentityBytes(id)[8 * i..8 * i + 8] == publicKey[8 * i..8 * i + 8]
  {
    IdentityBytesSlot(id, i);
    GroupRoundTrip(publicKey[8 * i..8 * i + 8]);
  }

  /** Letters 14i .. 14i+13 of an identity are the letters of key group i. */
  lemma IdentityGroup(c: Crypto, publicKey: Bytes, i: nat)
    requires |publicKey| >= 32 && i < 4
    ensures GetIdentity(c, publicKey, false)[14 * i..14 * i + 14] == GroupLetters(publicKey[8 * i..8 * i + 8], false)
  {
    var g0, g1, g2, g3 := GroupLetters(publicKey[0..8], false), GroupLetters(publicKey[8..16], false),
      GroupLetters(publicKey[16..24], false), GroupLetters(publicKey[24..32], false);
    var t := Letters(ToDigits(Checksum(c, publicKey), 4), false);
    Fifths(g0, g1, g2, g3, t, i);
  }

  /** Letters 56 .. 59 of an identity are the checksum's four base-26 digits, least significant first. */
  lemma IdentityChecksum(c: Crypto, publicKey: Bytes)
    requires |publicKey| >= 32
    ensures LetterOffsets(GetIdentity(c, publicKey, false)[56..60]) == ToDigits(Checksum(c, publicKey), 4)
    ensures FromDigits(LetterOffsets(GetIdentity(c, publicKey, false)[56..60])) == Checksum(c, publicKey)
  {
    var g0, g1, g2, g3 := GroupLetters(publicKey[0..8], false), GroupLetters(publicKey[8..16], false),
      GroupLetters(publicKey[16..24], false), GroupLetters(publicKey[24..32], false);
    var ds := ToDigits(Checksum(c, publicKey), 4);
    var t := Letters(ds, false);
    assert (g0 + g1 + g2 + g3 + t)[56..60] == t;
    LettersOffsets(ds);
    Pow26Bounds();
    FromDigitsToDigits(Checksum(c, publicKey), 4);
  }

  lemma Fifths(a: string, b: string, c: string, d: string, t: string, i: nat)
    requires |a| == |b| == |c| == |d| == 14 && i < 4
    ensures (a + b + c + d + t)[14 * i..14 * i + 14] == [a, b, c, d][i]
  {
    var r := a + b + c + d + t;
    if i == 0 {
      assert r[0..14] == a;
    } else if i == 1 {
      assert r[14..28] == b;
    } else if i == 2 {
      assert r[28..42] == c;
    } else {
      assert r[42..56] == d;
    }
  }

  /** A 32-byte string that agrees slot by slot with the first 32 bytes of another is those bytes. */
  lemma SlotsEqual(r: Bytes, s: Bytes)
    requires |r| == 32 && |s| >= 32
    requires forall i :: 0 <= i < 4 ==> r[8 * i..8 * i + 8] == s[8 * i..8 * i + 8]
    ensures r == s[..32]
  {
    forall k | 0 <= k < 32
      ensures r[k] == s[k]
    {
      var i := k / 8;
      assert r[8 * i..8 * i + 8][k - 8 * i] == s[8 * i..8 * i + 8][k - 8 * i];
    }
  }

  /**
   `Regex.IsMatch(identity, "^[A-Z]+$")` under .NET semantics: `$` also
   matches just before a final line feed, so one trailing '\n' is accepted.
   */
  predicate UpperCaseMatch(s: string)
  {
    (|s| > 0 && forall i :: 0 <= i < |s| ==> 'A' <= s[i] <= 'Z')
    || (|s| > 1 && s[|s| - 1] == '\n' && forall i :: 0 <= i < |s| - 1 ==> 'A' <= s[i] <= 'Z')
  }

  /**
   `VerifyIdentity`: the identity must be 60 characters matching the
   pattern, and re-encoding its decoded key must give it back exactly.
   */
  predicate VerifyIdentity(c: Crypto, identity: string)
  {
    |identity| == IDENTITY_LENGTH && UpperCaseMatch(identity)
    && identity == GetIdentity(c, IdentityBytes(identity), false)
  }

  /** Every upper-case identity of a 32-byte key verifies. */
  lemma VerifyIdentityComplete(c: Crypto, publicKey: Bytes)
    requires |publicKey| == 32
    ensures VerifyIdentity(c, GetIdentity(c, publicKey, false))
  {
    var id := GetIdentity(c, publicKey, false);
    IdentityLetters(c, publicKey, false);
    IdentityRoundTrip(c, publicKey);
    assert publicKey[..32] == publicKey;
  }

  /**
   A verified identity is exactly the upper-case identity of the key it
   decodes to; in particular the trailing-line-feed form the pattern lets
   through is always rejected.
   */
  lemma VerifyIdentitySound(c: Crypto, identity: string)
    requires VerifyIdentity(c, identity)
    ensures forall i :: 0 <= i < |identity| ==> 'A' <= identity[i] <= 'Z'
    ensures identity == GetIdentity(c, IdentityBytes(identity), false)
  {
    IdentityLetters(c, IdentityBytes(identity), false);
  }

  /** An identity verifies exactly when it is the upper-case identity of some 32-byte key. */
  lemma VerifyIdentityExactly(c: Crypto, identity: string)
    ensures VerifyIdentity(c, identity) <==>
      exists pk: Bytes :: |pk| == 32 && identity == GetIdentity(c, pk, false)
  {
    if VerifyIdentity(c, identity) {
      var pk := IdentityBytes(identity);
      assert |pk| == 32 && identity == GetIdentity(c, pk, false);
    }
    if exists pk: Bytes :: |pk| == 32 && identity == GetIdentity(c, pk, false) {
      var pk: Bytes :| |pk| == 32 && identity == GetIdentity(c, pk, false);
      VerifyIdentityComplete(c, pk);
    }
  }

  /**
   The checksum letters are determined by the first 56: two identities
   that share their first 56 letters and both verify are equal. So changing
   any checksum letter of a valid identity always makes it invalid.
   */
  lemma ChecksumDetermined(c: Crypto, a: string, b: string)
    requires VerifyIdentity(c, a) && VerifyIdentity(c, b)
    requires a[..56] == b[..56]
    ensures a == b
  {
    assert forall k :: 0 <= k < 56 ==> a[k] == a[..56][k] == b[..56][k] == b[k];
    IdentityBytesDependsOnGroups(a, b);
  }

  /** The decoder reads only the first 56 letters. */
  lemma IdentityBytesDependsOnGroups(a: string, b: string)
    requires |a| >= 56 && |b| >= 56
    requires forall k :: 0 <= k < 56 ==> a[k] == b[k]
    ensures IdentityBytes(a) == IdentityBytes(b)
  {
    forall i | 0 <= i < 4
      ensures GroupValues(a)[i] == GroupValues(b)[i]
    {
      GroupValue(a, i);
      GroupValue(b, i);
      FoldRangeAgree(a, b, 14 * i, 14 * i + 14);
    }
    assert GroupValues(a) == GroupValues(b);
  }

  /** The fold over letters lo .. hi-1 reads only those letters. */
  lemma {:induction false} FoldRangeAgree(a: string, b: string, lo: nat, hi: nat)
    requires lo <= hi <= |a| && hi <= |b|
    requires forall k :: lo <= k < hi ==> a[k] == b[k]
    ensures FoldRange(a, lo, hi) == FoldRange(b, lo, hi)
    decreases hi - lo
  {
    if lo < hi {
      FoldRangeAgree(a, b, lo + 1, hi);
    }
  }

  /** A 32-byte key's upper-case identity verifies and decodes back to the key. */
  lemma IdentityOfKey(c: Crypto, publicKey: Bytes)
    requires |publicKey| == 32
    ensures VerifyIdentity(c, GetIdentity(c, publicKey, false))
    ensures IdentityBytes(GetIdentity(c, publicKey, false)) == publicKey
  {
    VerifyIdentityComplete(c, publicKey);
    IdentityRoundTrip(c, publicKey);
    assert publicKey[..32] == publicKey;
  }

  /**
   `CreateIdPackage(seed)`: the index-0 private key, its 32-byte public key
   and that key's identity, which always verifies and decodes back to it.
   */
  function CreateIdPackage(c: Crypto, seed: string): (r: (Bytes, Bytes, string))
    ensures r.1 == c.derivePublicKey(r.0) && r.0 == PrivateKey(c, seed, 0)
    ensures VerifyIdentity(c, r.2) && IdentityBytes(r.2) == r.1
  {
    var privateKey := PrivateKey(c, seed, 0);
    var publicKey := c.derivePublicKey(privateKey);
    IdentityOfKey(c, publicKey);
    (privateKey, publicKey, GetIdentity(c, publicKey, false))
  }
}
