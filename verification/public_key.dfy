/**
 `PublicKey`: 32 key bytes, built either from bytes or from a 60-letter
 identity. Only the bytes are modelled; the identity string the class
 caches on the side is not.
 */
module PublicKeyValue {
  import opened Bytes
  import opened Wrappers
  import Definitions
  import KeyHelper
  import Identity
  import opened Crypto

  datatype PublicKey = PublicKey(bytes: Bytes)

  /** `new PublicKey()`: 32 zero bytes. */
  function Default(): (r: PublicKey)
    ensures Size(r) == Definitions.PUBLIC_KEY_LENGTH
    ensures forall i :: 0 <= i < |Data(r)| ==> Data(r)[i] == 0
  {
    PublicKey(Zeros(Definitions.PUBLIC_KEY_LENGTH))
  }

  /** `new PublicKey(byte[])`: exactly the given bytes become the package data. */
  function FromBytes(bytes: Bytes): (r: PublicKey)
    ensures Data(r) == bytes && Size(r) == |bytes|
  {
    PublicKey(bytes)
  }

  /**
   `new PublicKey(string)`: the identity is decoded with `GetIdentityBytes`;
   a `null` string leaves the default, and a string too short for the
   decoder's 56 letter reads fails.
   */
  function FromIdentity(identity: Option<string>): (r: Result<PublicKey>)
    ensures identity.None? ==> r == Success(Default())
    ensures identity.Some? && |identity.value| < 56 ==> r == Failure(OutOfRange)
    ensures identity.Some? && |identity.value| >= 56 ==> r == Success(PublicKey(KeyHelper.IdentityBytes(identity.value)))
  {
    if identity.None? then Success(Default())
    else if |identity.value| < 56 then Failure(OutOfRange)
    else Success(PublicKey(KeyHelper.IdentityBytes(identity.value)))
  }

  /**
   `new PublicKey(await GetIdentity(bytes))`, as the parsers rebuild keys:
   the identity of the first 32 bytes decodes back to them; fewer than 32
   bytes overrun the encoder.
   */
  function FromKeyBytes(c: Crypto, bytes: Bytes): (r: Result<PublicKey>)
    ensures r.Failure? <==> |bytes| < Definitions.PUBLIC_KEY_LENGTH
    ensures r.Failure? ==> r.error == OutOfRange
    ensures r.Success? ==> r.value.bytes == bytes[..Definitions.PUBLIC_KEY_LENGTH]
  {
    if |bytes| < Definitions.PUBLIC_KEY_LENGTH then Failure(OutOfRange)
    else
      Identity.IdentityRoundTrip(c, bytes);
      FromIdentity(Some(Identity.GetIdentity(c, bytes, false)))
  }

  /** `GetPackageData` (and `GetIdentity`): the key bytes, which are all the key holds. */
  function Data(p: PublicKey): (r: Bytes)
    ensures PublicKey(r) == p
  {
    p.bytes
  }

  /** `new PublicKey(bytes)` of a key's data rebuilds the key. */
  lemma DataRebuilds(p: PublicKey)
    ensures FromBytes(Data(p)) == p
  {
  }

  /** `GetPackageSize`: the number of key bytes. */
  function Size(p: PublicKey): (r: nat)
    ensures r == |Data(p)|
  {
    |p.bytes|
  }

  /** `Equals(compare)`: the other key is present, as long, and byte-for-byte the same. */
  predicate Equals(p: PublicKey, compare: Option<PublicKey>)
  {
    compare.Some? && |p.bytes| == |compare.value.bytes| && p.bytes == compare.value.bytes
  }

  /** `Equals` is exactly equality of the key values. */
  lemma EqualsIsEquality(p: PublicKey, compare: Option<PublicKey>)
    ensures Equals(p, compare) <==> compare == Some(p)
  {
  }

  lemma EqualsReflexiveSymmetric(p: PublicKey, q: PublicKey)
    ensures Equals(p, Some(p))
    ensures Equals(p, Some(q)) <==> Equals(q, Some(p))
  {
  }

  /** `new PublicKey(EMPTY_ADDRESS)`: the key of the sixty-'A' identity, which is all zeros. */
  function EmptyAddressKey(): (r: PublicKey)
    ensures FromIdentity(Some(Definitions.EMPTY_ADDRESS)) == Success(r)
    ensures r.bytes == Zeros(Definitions.PUBLIC_KEY_LENGTH)
  {
    EmptyAddressIsZero();
    Default()
  }

  /** Sixty 'A's decode to the all-zero key. */
  lemma EmptyAddressIsZero()
    ensures FromIdentity(Some(Definitions.EMPTY_ADDRESS)) == Success(Default())
  {
    var id := Definitions.EMPTY_ADDRESS;
    var g := KeyHelper.GroupValues(id);
    forall i | 0 <= i < 4
      ensures g[i] == 0
    {
      KeyHelper.GroupValue(id, i);
      AllAFold(id, 14 * i, 14 * i + 14);
    }
    assert g == [0, 0, 0, 0];
    ZeroSlots(g);
  }

  lemma ZeroSlots(g: seq<uint64>)
    requires g == [0, 0, 0, 0]
    ensures KeyHelper.Slots(g) == Zeros(32)
  {
    var z := ToLE(0, 8);
    assert z == Zeros(8);
  }

  /** Folding a run of 'A's gives zero. */
  lemma {:induction false} AllAFold(s: string, lo: nat, hi: nat)
    requires lo <= hi <= |s|
    requires forall k :: lo <= k < hi ==> s[k] == 'A'
    ensures KeyHelper.FoldRange(s, lo, hi) == 0
    decreases hi - lo
  {
    if lo < hi {
      AllAFold(s, lo + 1, hi);
    }
  }
}
