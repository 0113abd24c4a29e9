/**
 `QubicTransaction`: source and destination keys, an amount, a tick, an
 input type and size, a payload, and, once built, the signed bytes, their
 digest, the signature and the human-readable id.
 */
module Transaction {
  import opened Bytes
  import opened Wrappers
  import opened Crypto
  import Definitions
  import Identity
  import LongValue
  import PublicKeyValue
  import SignatureValue
  import PackageBuilder

  /**
   A payload as the transaction sees it (any `IQubicBuildPackage`): the
   bytes its `GetPackageData` returns and the number its `GetPackageSize`
   reports. The two need not agree.
   */
  datatype Package = Package(data: Bytes, size: int32)

  datatype QubicTransaction = QubicTransaction(
    builtData: Option<Bytes>,
    digest: Option<Bytes>,
    id: Option<string>,
    sourcePublicKey: PublicKeyValue.PublicKey,
    destinationPublicKey: PublicKeyValue.PublicKey,
    amount: LongValue.Long,
    tick: int32,
    inputType: int32,
    inputSize: int32,
    payload: Package,
    signature: SignatureValue.Signature)

  /** The fixed part of a transaction with 32-byte keys and a 64-byte signature. */
  const FIXED_SIZE: nat := 144

  /**
   `new QubicTransaction()`: zero keys, amount and numbers, an empty
   `DynamicPayload(MAX_TRANSACTION_SIZE)` (which has no data and size 0), a
   zero signature, and nothing built.
   */
  function Default(): (r: QubicTransaction)
    ensures r.builtData.None? && r.digest.None? && r.id.None?
    ensures InternalSize(r) == FIXED_SIZE && Standard(r)
  {
    QubicTransaction(None, None, None, PublicKeyValue.Default(), PublicKeyValue.Default(), LongValue.New(None), 0, 0, 0,
      Package([], 0), SignatureValue.Default())
  }

  /** Keys of 32 bytes, a 64-byte signature, and a payload whose data is as long as its reported size. */
  predicate Standard(t: QubicTransaction)
  {
    |t.sourcePublicKey.bytes| == Definitions.PUBLIC_KEY_LENGTH && |t.destinationPublicKey.bytes| == Definitions.PUBLIC_KEY_LENGTH
    && |t.signature.bytes| == Definitions.SIGNATURE_LENGTH && |t.payload.data| == t.payload.size
  }

  /** `SetPayload(payload)`: the payload is stored and the input size becomes its reported size. */
  function SetPayload(t: QubicTransaction, payload: Package): (r: QubicTransaction)
    ensures r.payload == payload && r.inputSize == payload.size
    ensures r == t.(payload := payload, inputSize := payload.size)
  {
    t.(payload := payload, inputSize := payload.size)
  }

  /**
   `InternalSize` (and `GetPackageSize`): the sizes of the two keys, the
   amount, the tick, the input type and size fields, the input size and the
   signature, summed in 32-bit arithmetic. A standard transaction is 144
   bytes plus its input.
   */
  function InternalSize(t: QubicTransaction): (r: int32)
    ensures Standard(t) && t.inputSize <= 0x7FFF_FFFF - FIXED_SIZE ==> r == FIXED_SIZE + t.inputSize
  {
    WrapInt32(FieldSizes(t))
  }

  /** The unwrapped sum `InternalSize` computes. */
  function FieldSizes(t: QubicTransaction): int
  {
    PublicKeyValue.Size(t.sourcePublicKey) + PublicKeyValue.Size(t.destinationPublicKey)
      + LongValue.Size(t.amount) + 4 + 2 + 2 + t.inputSize + SignatureValue.Size(t.signature)
  }

  /** The unsigned body `Build` appends, in order. */
  function Parts(t: QubicTransaction): seq<Bytes>
  {
    [PublicKeyValue.Data(t.sourcePublicKey)] + [PublicKeyValue.Data(t.destinationPublicKey)] + [LongValue.Data(t.amount)]
      + [ToLE(t.tick, 4)] + [ToLE(t.inputType, 2)] + [ToLE(t.inputSize, 2)] + [t.payload.data]
  }

  /** The unsigned body: keys, amount, tick, input type, input size, payload, which is what the builder chain appends. */
  function Body(t: QubicTransaction): (r: Bytes)
    ensures r == PackageBuilder.Concat(Parts(t))
    ensures |r| == |t.sourcePublicKey.bytes| + |t.destinationPublicKey.bytes| + 8 + 4 + 2 + 2 + |t.payload.data|
  {
    PackageBuilder.Concat7(PublicKeyValue.Data(t.sourcePublicKey), PublicKeyValue.Data(t.destinationPublicKey),
      LongValue.Data(t.amount), ToLE(t.tick, 4), ToLE(t.inputType, 2), ToLE(t.inputSize, 2), t.payload.data);
    t.sourcePublicKey.bytes + t.destinationPublicKey.bytes + ToLE(t.amount.number, 8)
      + ToLE(t.tick, 4) + ToLE(t.inputType, 2) + ToLE(t.inputSize, 2) + t.payload.data
  }

  /**
   `Build(seed)`: the built data is cleared, a builder of `InternalSize`
   bytes is filled with the body, and the body is signed. Any step that
   throws leaves the transaction cleared and unbuilt. On success the
   transaction records the signed data, the digest of the signed data, the
   signature, and the digest's human-readable form as its id.
   */
  function Build(c: Crypto, t: QubicTransaction, seed: string): (r: (QubicTransaction, Result<Bytes>))
    ensures r.1.Success? <==> InternalSize(t) >= 0 && |Body(t)| + Definitions.SIGNATURE_LENGTH <= InternalSize(t)
    ensures r.1.Failure? ==> r.0 == t.(builtData := None)
    ensures r.1.Failure? ==> r.1.error == (if InternalSize(t) < 0 then NegativeSize else OutOfRange)
    ensures r.1.Success? ==> r.1.value == Body(t) + PackageBuilder.SignMessage(c, seed, Body(t))
    ensures r.1.Success? ==> r.0 == t.(builtData := Some(r.1.value),
      digest := Some(c.hash(r.1.value, Definitions.DIGEST_LENGTH)),
      signature := SignatureValue.Signature(PackageBuilder.SignMessage(c, seed, Body(t))),
      id := Some(Identity.HumanReadable(c, c.hash(r.1.value, Definitions.DIGEST_LENGTH))))
  {
    var cleared := t.(builtData := None);
    var signed := Signed(c, t, seed);
    if signed.Failure? then (cleared, Failure(signed.error))
    else
      var s := signed.value;
      var built := cleared.(builtData := Some(s.signedData), digest := Some(s.digest),
        signature := SignatureValue.New(Some(s.signature)), id := Some(Identity.HumanReadable(c, s.digest)));
      (built, Success(s.signedData))
  }

  /** The builder of `InternalSize` bytes with the body appended. */
  function Filled(t: QubicTransaction): (r: Result<PackageBuilder.Builder>)
    ensures r.Success? <==> InternalSize(t) >= 0 && |Body(t)| <= InternalSize(t)
    ensures r.Failure? ==> r.error == (if InternalSize(t) < 0 then NegativeSize else OutOfRange)
    ensures r.Success? ==> r.value.Valid() && |r.value.packet| == InternalSize(t) && r.value.offset == |Body(t)|
    ensures r.Success? ==> r.value.packet[..r.value.offset] == Body(t)
  {
    var size := InternalSize(t);
    if size < 0 then Failure(NegativeSize)
    else
      var b := PackageBuilder.Builder(Zeros(size), 0);
      var body := Body(t);
      PackageBuilder.AddAllConcat(b, Parts(t));
      var built := PackageBuilder.AddAll(b, Parts(t));
      if built.Failure? then built
      else
        assert built.value.packet == Zeros(size)[..0] + body + Zeros(size)[|body|..];
        assert built.value.packet[..|body|] == body;
        built
  }

  /** The filled builder, signed: the body followed by its signature, and the digest of both. */
  function Signed(c: Crypto, t: QubicTransaction, seed: string): (r: Result<PackageBuilder.SignedPackage>)
    ensures r.Success? <==> InternalSize(t) >= 0 && |Body(t)| + Definitions.SIGNATURE_LENGTH <= InternalSize(t)
    ensures r.Failure? ==> r.error == (if InternalSize(t) < 0 then NegativeSize else OutOfRange)
    ensures r.Success? ==> r.value.signature == PackageBuilder.SignMessage(c, seed, Body(t))
    ensures r.Success? ==> r.value.signedData == Body(t) + r.value.signature
    ensures r.Success? ==> r.value.digest == c.hash(r.value.signedData, Definitions.DIGEST_LENGTH)
  {
    var f :- Filled(t);
    var signed := PackageBuilder.SignAndDigest(c, f, seed);
    if signed.Failure? then signed
    else
      assert signed.value.signedData == Body(t) + PackageBuilder.SignMessage(c, seed, Body(t)) by {
        assert signed.value.signedData[..f.offset] == Body(t);
      }
      signed
  }

  /** `GetPackageData`: the built data, or no bytes before a successful `Build`. */
  function PackageData(t: QubicTransaction): (r: Bytes)
    ensures t.builtData.None? ==> r == []
    ensures t.builtData.Some? ==> r == t.builtData.value
  {
    if t.builtData.Some? then t.builtData.value else []
  }

  /** `GetId`: the id, or the empty string before a successful `Build`. */
  function GetId(t: QubicTransaction): (r: string)
    ensures t.id.None? ==> r == ""
    ensures t.id.Some? ==> r == t.id.value
  {
    if t.id.Some? then t.id.value else ""
  }

  /**
   A standard transaction with an input of at most 1024 bytes always builds,
   into exactly `InternalSize` bytes: the source key at 0, the destination
   at 32, the amount at 64, the tick at 72, the input type at 76, the input
   size at 78, the input at 80, and the signature of everything before it
   in the last 64 bytes. Afterwards its package data is those bytes.
   */
  lemma BuildLayout(c: Crypto, t: QubicTransaction, seed: string)
    requires Standard(t) && t.inputSize == t.payload.size && 0 <= t.inputSize <= Definitions.MAX_TRANSACTION_SIZE
    ensures Build(c, t, seed).1.Success?
    ensures var d := Build(c, t, seed).1.value;
      var n := t.inputSize as nat;
      |d| == InternalSize(t) == FIXED_SIZE + n
      && d[0..32] == t.sourcePublicKey.bytes && d[32..64] == t.destinationPublicKey.bytes
      && d[64..72] == ToLE(t.amount.number, 8) && d[72..76] == ToLE(t.tick, 4)
      && d[76..78] == ToLE(t.inputType, 2) && d[78..80] == ToLE(t.inputSize, 2)
      && d[80..80 + n] == t.payload.data
      && d[80 + n..] == PackageBuilder.SignMessage(c, seed, d[..80 + n])
    ensures PackageData(Build(c, t, seed).0) == Build(c, t, seed).1.value
  {
    var n := t.inputSize as nat;
    var body := Body(t);
    var signature := PackageBuilder.SignMessage(c, seed, body);
    var d := Build(c, t, seed).1.value;
    assert d == body + signature;
    Fields7(t.sourcePublicKey.bytes, t.destinationPublicKey.bytes, ToLE(t.amount.number, 8), ToLE(t.tick, 4),
      ToLE(t.inputType, 2), ToLE(t.inputSize, 2), t.payload.data, signature);
    assert d[..80 + n] == body;
  }

  /** The slices of a 32/32/8/4/2/2/n-byte concatenation followed by a tail. */
  lemma Fields7(a: Bytes, b: Bytes, c: Bytes, d: Bytes, e: Bytes, f: Bytes, g: Bytes, tail: Bytes)
    requires |a| == 32 && |b| == 32 && |c| == 8 && |d| == 4 && |e| == 2 && |f| == 2
    ensures var s := a + b + c + d + e + f + g + tail; var n := |g|;
      s[0..32] == a && s[32..64] == b && s[64..72] == c && s[72..76] == d && s[76..78] == e && s[78..80] == f
      && s[80..80 + n] == g && s[80 + n..] == tail
  {
  }

  /**
   Building again rebuilds the same bytes: `Build` reads no field it
   writes except the signature's length, which is 64 before and after.
   */
  lemma BuildAgain(c: Crypto, t: QubicTransaction, seed: string)
    requires |t.signature.bytes| == Definitions.SIGNATURE_LENGTH && Build(c, t, seed).1.Success?
    ensures Build(c, Build(c, t, seed).0, seed) == Build(c, t, seed)
  {
    var r := Build(c, t, seed);
    var t1 := r.0;
    SameInputs(t, t1);
    var r1 := Build(c, t1, seed);
    assert r1.1 == r.1;
  }

  /** A transaction that differs only in what `Build` writes, with a signature of the same length, builds the same body. */
  lemma SameInputs(t: QubicTransaction, u: QubicTransaction)
    requires u == t.(builtData := u.builtData, digest := u.digest, signature := u.signature, id := u.id)
    requires |u.signature.bytes| == |t.signature.bytes|
    ensures Body(u) == Body(t) && InternalSize(u) == InternalSize(t)
  {
    assert FieldSizes(u) == FieldSizes(t);
  }

  /** Setting a payload whose data matches its reported size keeps a standard transaction standard. */
  lemma SetPayloadStandard(t: QubicTransaction, payload: Package)
    requires Standard(t) && |payload.data| == payload.size
    ensures Standard(SetPayload(t, payload)) && SetPayload(t, payload).inputSize == |payload.data|
  {
  }
}
