/**
 `QubicPackageBuilder`: a fixed-size zeroed packet filled front to back.
 Every append is an `Array.Copy` into the packet at the current offset;
 one that does not fit throws, which here is `Failure(OutOfRange)`, and
 the failure propagates through the rest of a chain of appends.
 */
module PackageBuilder {
  import opened Bytes
  import opened Wrappers
  import opened Crypto
  import Definitions
  import KeyHelper

  datatype Builder = Builder(packet: Bytes, offset: nat) {
    predicate Valid() {
      offset <= |packet|
    }
  }

  /** `new QubicPackageBuilder(size)`: `size` zero bytes, offset 0; a negative size cannot be allocated. */
  function New(size: int): (r: Result<Builder>)
    ensures size < 0 <==> r.Failure?
    ensures r.Failure? ==> r.error == NegativeSize
    ensures r.Success? ==> r.value.Valid() && r.value.offset == 0 && r.value.packet == Zeros(size)
  {
    if size < 0 then Failure(NegativeSize) else Success(Builder(Zeros(size), 0))
  }

  /**
   `AddRaw(q)` (also `AddUint8Array`, and `Add(q)` with `q`'s package data):
   `q` is copied at the offset, which advances by `|q|`; the packet keeps
   its length and every byte outside the copied range.
   */
  function AddRaw(b: Builder, q: Bytes): (r: Result<Builder>)
    requires b.Valid()
    ensures r.Success? <==> b.offset + |q| <= |b.packet|
    ensures r.Failure? ==> r.error == OutOfRange
    ensures r.Success? ==> r.value.Valid() && |r.value.packet| == |b.packet| && r.value.offset == b.offset + |q|
    ensures r.Success? ==> r.value.packet[..b.offset] == b.packet[..b.offset]
    ensures r.Success? ==> r.value.packet[b.offset..r.value.offset] == q
    ensures r.Success? ==> r.value.packet[r.value.offset..] == b.packet[r.value.offset..]
  {
    if b.offset + |q| > |b.packet| then Failure(OutOfRange)
    else Success(Builder(b.packet[..b.offset] + q + b.packet[b.offset + |q|..], b.offset + |q|))
  }

  /** `AddShort(q)`: the 2 little-endian bytes of `q` (any integer, truncated as a `short`). */
  function AddShort(b: Builder, q: int): (r: Result<Builder>)
    requires b.Valid()
    ensures r.Success? <==> b.offset + 2 <= |b.packet|
    ensures r.Success? ==> r.value.Valid() && r.value.offset == b.offset + 2 && r.value.packet[b.offset..b.offset + 2] == ToLE(q, 2)
  {
    AddRaw(b, ToLE(q, 2))
  }

  /** `AddInt(q)`: the 4 little-endian bytes of `q` (any integer, truncated as an `int`). */
  function AddInt(b: Builder, q: int): (r: Result<Builder>)
    requires b.Valid()
    ensures r.Success? <==> b.offset + 4 <= |b.packet|
    ensures r.Success? ==> r.value.Valid() && r.value.offset == b.offset + 4 && r.value.packet[b.offset..b.offset + 4] == ToLE(q, 4)
  {
    AddRaw(b, ToLE(q, 4))
  }

  /** `GetData`: the whole packet, however much of it has been filled. */
  function GetData(b: Builder): Bytes
  {
    b.packet
  }

  /** The pieces of a package laid end to end. */
  function Concat(parts: seq<Bytes>): (r: Bytes)
    ensures |parts| == 0 ==> r == []
  {
    if |parts| == 0 then [] else Concat(parts[..|parts| - 1]) + parts[|parts| - 1]
  }

  /** Appending one more piece extends the concatenation by it. */
  lemma ConcatPush(parts: seq<Bytes>, last: Bytes)
    ensures Concat(parts + [last]) == Concat(parts) + last
  {
    assert (parts + [last])[..|parts|] == parts;
  }

  lemma ConcatOne(a: Bytes)
    ensures Concat([a]) == a
  {
    ConcatPush([], a);
    assert [] + [a] == [a];
  }

  /** Concatenation distributes over appending lists of pieces. */
  lemma {:induction false} ConcatAppend(a: seq<Bytes>, b: seq<Bytes>)
    ensures Concat(a + b) == Concat(a) + Concat(b)
    decreases |b|
  {
    if |b| > 0 {
      var init := b[..|b| - 1];
      ConcatAppend(a, init);
      assert (a + b)[..|a + b| - 1] == a + init;
    } else {
      assert a + b == a;
    }
  }

  /** Slices of a concatenation that fall in one side. */
  lemma SliceLeft(k: Bytes, a: Bytes, lo: nat, hi: nat)
    requires lo <= hi <= |k|
    ensures (k + a)[lo..hi] == k[lo..hi]
  {
  }

  lemma SliceRight(k: Bytes, a: Bytes, lo: nat, hi: nat)
    requires lo <= hi <= |a|
    ensures (k + a)[|k| + lo..|k| + hi] == a[lo..hi]
  {
  }

  /** Pieces of one width `w` stand at multiples of `w`. */
  lemma {:induction false} ConcatUniform(parts: seq<Bytes>, w: nat)
    requires forall i :: 0 <= i < |parts| ==> |parts[i]| == w
    ensures |Concat(parts)| == w * |parts|
    ensures forall i :: 0 <= i < |parts| ==> w * i + w <= |Concat(parts)| && Concat(parts)[w * i..w * i + w] == parts[i]
  {
    if |parts| > 0 {
      var n := |parts|;
      var init := parts[..n - 1];
      ConcatUniform(init, w);
      var c := Concat(parts);
      var prefix := Concat(init);
      assert c == prefix + parts[n - 1];
      MulSucc(w, n - 1);
      forall i | 0 <= i < n
        ensures w * i + w <= |c| && c[w * i..w * i + w] == parts[i]
      {
        MulSucc(w, i);
        if i < n - 1 {
          MulMonotone(w, i + 1, n - 1);
          assert c[w * i..w * i + w] == prefix[w * i..w * i + w];
        }
      }
    }
  }

  lemma MulSucc(w: nat, a: nat)
    ensures w * (a + 1) == w * a + w
  {
  }

  lemma MulMonotone(w: nat, a: nat, b: nat)
    requires a <= b
    ensures w * a <= w * b
  {
  }

  /** A chain of appends, in order, stopping at the first that fails. */
  function AddAll(b: Builder, parts: seq<Bytes>): (r: Result<Builder>)
    requires b.Valid()
    ensures r.Success? ==> r.value.Valid()
  {
    if |parts| == 0 then Success(b)
    else
      var prefix := AddAll(b, parts[..|parts| - 1]);
      if prefix.Failure? then prefix else AddRaw(prefix.value, parts[|parts| - 1])
  }

  /**
   A chain of appends succeeds exactly when all the pieces fit, and then
   the pieces stand concatenated at the old offset and nothing else moved.
   */
  lemma {:induction false} AddAllConcat(b: Builder, parts: seq<Bytes>)
    requires b.Valid()
    ensures AddAll(b, parts).Success? <==> b.offset + |Concat(parts)| <= |b.packet|
    ensures AddAll(b, parts).Failure? ==> AddAll(b, parts).error == OutOfRange
    ensures AddAll(b, parts).Success? ==>
      AddAll(b, parts).value == Builder(b.packet[..b.offset] + Concat(parts) + b.packet[b.offset + |Concat(parts)|..], b.offset + |Concat(parts)|)
  {
    if |parts| > 0 {
      var init := parts[..|parts| - 1];
      var last := parts[|parts| - 1];
      AddAllConcat(b, init);
      var prefix := AddAll(b, init);
      ConcatLast(parts, init, last);
      if prefix.Success? {
        AddRawSplice(b, Concat(init), last, prefix.value);
      }
    }
  }

  lemma ConcatLast(parts: seq<Bytes>, init: seq<Bytes>, last: Bytes)
    requires |parts| > 0 && init == parts[..|parts| - 1] && last == parts[|parts| - 1]
    ensures Concat(parts) == Concat(init) + last
  {
  }

  /** Appending `last` to a builder that holds `c` at the old offset leaves `c + last` there. */
  lemma AddRawSplice(b: Builder, c: Bytes, last: Bytes, m: Builder)
    requires b.Valid() && b.offset + |c| <= |b.packet|
    requires m == Builder(b.packet[..b.offset] + c + b.packet[b.offset + |c|..], b.offset + |c|)
    ensures m.Valid()
    ensures AddRaw(m, last).Success? <==> b.offset + |c + last| <= |b.packet|
    ensures AddRaw(m, last).Failure? ==> AddRaw(m, last).error == OutOfRange
    ensures AddRaw(m, last).Success? ==>
      AddRaw(m, last).value == Builder(b.packet[..b.offset] + (c + last) + b.packet[b.offset + |c + last|..], b.offset + |c + last|)
  {
    if m.offset + |last| <= |m.packet| {
      Splice(b.packet, b.offset, c, last, m.packet, m.offset);
    }
  }

  /** Two copies in a row are one copy of the concatenation. */
  lemma Splice(packet: Bytes, offset: nat, c: Bytes, last: Bytes, p: Bytes, q: nat)
    requires offset + |c| + |last| <= |packet|
    requires p == packet[..offset] + c + packet[offset + |c|..] && q == offset + |c|
    ensures p[..q] + last + p[q + |last|..] == packet[..offset] + (c + last) + packet[offset + |c + last|..]
  {
    assert p[..q] == packet[..offset] + c;
    assert p[q + |last|..] == packet[offset + |c + last|..];
  }

  /** The pieces of the fixed layouts, pushed one by one, concatenate in order. */
  lemma Concat4(a: Bytes, b: Bytes, c: Bytes, d: Bytes)
    ensures Concat([a] + [b] + [c] + [d]) == a + b + c + d
  {
    ConcatOne(a);
    ConcatPush([a], b);
    ConcatPush([a] + [b], c);
    ConcatPush([a] + [b] + [c], d);
  }

  lemma Concat6(a: Bytes, b: Bytes, c: Bytes, d: Bytes, e: Bytes, f: Bytes)
    ensures Concat([a] + [b] + [c] + [d] + [e] + [f]) == a + b + c + d + e + f
  {
    ConcatOne(a);
    ConcatPush([a], b);
    ConcatPush([a] + [b], c);
    ConcatPush([a] + [b] + [c], d);
    ConcatPush([a] + [b] + [c] + [d], e);
    ConcatPush([a] + [b] + [c] + [d] + [e], f);
  }

  lemma Concat7(a: Bytes, b: Bytes, c: Bytes, d: Bytes, e: Bytes, f: Bytes, g: Bytes)
    ensures Concat([a] + [b] + [c] + [d] + [e] + [f] + [g]) == a + b + c + d + e + f + g
  {
    ConcatOne(a);
    ConcatPush([a], b);
    ConcatPush([a] + [b], c);
    ConcatPush([a] + [b] + [c], d);
    ConcatPush([a] + [b] + [c] + [d], e);
    ConcatPush([a] + [b] + [c] + [d] + [e], f);
    ConcatPush([a] + [b] + [c] + [d] + [e] + [f], g);
  }

  /**
   A package built in one go: a fresh `size`-byte builder, the pieces
   appended in order, then `GetData`. It fits exactly when the pieces do,
   and is then the pieces followed by zero padding.
   */
  function Pack(size: nat, parts: seq<Bytes>): (r: Result<Bytes>)
    ensures r.Success? <==> |Concat(parts)| <= size
    ensures r.Failure? ==> r.error == OutOfRange
    ensures r.Success? ==> r.value == Concat(parts) + Zeros(size - |Concat(parts)|)
    ensures |Concat(parts)| == size ==> r == Success(Concat(parts))
  {
    var b := Builder(Zeros(size), 0);
    AddAllConcat(b, parts);
    var built := AddAll(b, parts);
    if built.Failure? then Failure(built.error)
    else
      assert Zeros(size)[|Concat(parts)|..] == Zeros(size - |Concat(parts)|);
      assert Concat(parts) + Zeros(0) == Concat(parts);
      Success(GetData(built.value))
  }

  /** The index-0 key pair of a seed, as `Sign` derives it: the private key and the 35-byte checksummed public key. */
  function SigningKeys(c: Crypto, seed: string): (r: (Bytes, Bytes))
    ensures r.0 == KeyHelper.PrivateKey(c, seed, 0) && r.1 == KeyHelper.CreatePublicKey(c, r.0)
  {
    var privateKey := KeyHelper.PrivateKey(c, seed, 0);
    (privateKey, KeyHelper.CreatePublicKey(c, privateKey))
  }

  /** The SchnorrQ signature of the 32-byte K12 digest of `message` under the seed's index-0 keys. */
  function SignMessage(c: Crypto, seed: string, message: Bytes): (r: Bytes)
    ensures |r| == Definitions.SIGNATURE_LENGTH
  {
    var (privateKey, publicKey) := SigningKeys(c, seed);
    c.sign(privateKey, publicKey, c.hash(message, Definitions.DIGEST_LENGTH))
  }

  /**
   `Sign(seed)`: the filled prefix followed by its signature. The signature
   is copied at the offset, so it fails when fewer than 64 bytes are left.
   */
  function Sign(c: Crypto, b: Builder, seed: string): (r: Result<Bytes>)
    requires b.Valid()
    ensures r.Success? <==> b.offset + Definitions.SIGNATURE_LENGTH <= |b.packet|
    ensures r.Failure? ==> r.error == OutOfRange
    ensures r.Success? ==> |r.value| == b.offset + Definitions.SIGNATURE_LENGTH
    ensures r.Success? ==> r.value[..b.offset] == b.packet[..b.offset]
    ensures r.Success? ==> r.value[b.offset..] == SignMessage(c, seed, b.packet[..b.offset])
  {
    var signature := SignMessage(c, seed, b.packet[..b.offset]);
    var signed :- AddRaw(b, signature);
    Success(signed.packet[..signed.offset])
  }

  /** What `SignAndDigest` returns. */
  datatype SignedPackage = SignedPackage(signedData: Bytes, digest: Bytes, signature: Bytes)

  /**
   `SignAndDigest(seed)`: as `Sign`, also returning the signature, and a
   digest that is the K12 hash of the SIGNED data (the digest that was
   signed is overwritten).
   */
  function SignAndDigest(c: Crypto, b: Builder, seed: string): (r: Result<SignedPackage>)
    requires b.Valid()
    ensures r.Success? <==> b.offset + Definitions.SIGNATURE_LENGTH <= |b.packet|
    ensures r.Failure? ==> r.error == OutOfRange
    ensures r.Success? ==> Success(r.value.signedData) == Sign(c, b, seed)
    ensures r.Success? ==> r.value.signature == SignMessage(c, seed, b.packet[..b.offset])
    ensures r.Success? ==> r.value.digest == c.hash(r.value.signedData, Definitions.DIGEST_LENGTH)
  {
    var signature := SignMessage(c, seed, b.packet[..b.offset]);
    var signedData :- Sign(c, b, seed);
    Success(SignedPackage(signedData, c.hash(signedData, Definitions.DIGEST_LENGTH), signature))
  }

  /** The signature `Sign` appends is the last 64 bytes of its output and the message it signs is everything before them. */
  lemma SignSplits(c: Crypto, b: Builder, seed: string)
    requires b.Valid() && Sign(c, b, seed).Success?
    ensures var s := Sign(c, b, seed).value;
      s[|s| - Definitions.SIGNATURE_LENGTH..] == SignMessage(c, seed, s[..|s| - Definitions.SIGNATURE_LENGTH])
  {
  }
}
