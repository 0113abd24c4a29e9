/**
 `QubicTransferAssetPayload`: the 80-byte input of a QX asset transfer —
 the issuer's key, the new owner's key, an 8-byte asset name and the number
 of units as a signed 64-bit little-endian value.
 */
module TransferAsset {
  import opened Bytes
  import opened Wrappers
  import opened Crypto
  import LongValue
  import PublicKeyValue
  import DynamicPayloadValue
  import PackageBuilder

  const TRANSFER_ASSET_SIZE: nat := 80
  const ASSET_NAME_SIZE: nat := 8

  datatype QubicTransferAssetPayload = QubicTransferAssetPayload(
    issuer: PublicKeyValue.PublicKey,
    newOwnerAndPossessor: PublicKeyValue.PublicKey,
    assetName: Bytes,
    numberOfUnits: LongValue.Long)

  /** The three keys and the name have their wire widths. */
  predicate Standard(p: QubicTransferAssetPayload)
  {
    |p.issuer.bytes| == 32 && |p.newOwnerAndPossessor.bytes| == 32 && |p.assetName| == ASSET_NAME_SIZE
  }

  /**
   `SetAssetName(string)`, given the name's encoded bytes: a fresh 8-byte
   name holding the first (at most) 8 of them, zero-padded.
   */
  function SetAssetName(p: QubicTransferAssetPayload, encoded: Bytes): (r: QubicTransferAssetPayload)
    ensures |r.assetName| == ASSET_NAME_SIZE
    ensures |encoded| >= ASSET_NAME_SIZE ==> r.assetName == encoded[..ASSET_NAME_SIZE]
    ensures |encoded| < ASSET_NAME_SIZE ==> r.assetName[..|encoded|] == encoded
    ensures forall i :: |encoded| <= i < ASSET_NAME_SIZE ==> r.assetName[i] == 0
    ensures r.issuer == p.issuer && r.newOwnerAndPossessor == p.newOwnerAndPossessor && r.numberOfUnits == p.numberOfUnits
  {
    var n := if |encoded| < ASSET_NAME_SIZE then |encoded| else ASSET_NAME_SIZE;
    p.(assetName := encoded[..n] + Zeros(ASSET_NAME_SIZE - n))
  }

  /** `GetPackageSize`: always 80. */
  function PackageSize(p: QubicTransferAssetPayload): (r: nat)
    ensures r == 32 + 32 + 8 + 8
  {
    TRANSFER_ASSET_SIZE
  }

  /** The pieces `GetPackageData` appends, in order. */
  function Parts(p: QubicTransferAssetPayload): seq<Bytes>
  {
    [PublicKeyValue.Data(p.issuer)] + [PublicKeyValue.Data(p.newOwnerAndPossessor)] + [p.assetName] + [LongValue.Data(p.numberOfUnits)]
  }

  /** The same pieces written out as one sequence. */
  function Layout(p: QubicTransferAssetPayload): Bytes
  {
    p.issuer.bytes + p.newOwnerAndPossessor.bytes + p.assetName + LongValue.Data(p.numberOfUnits)
  }

  /**
   `GetPackageData`: the pieces in an 80-byte builder. With standard widths
   the issuer is bytes 0..32, the new owner 32..64, the name 64..72 and the
   units 72..80; longer pieces overflow the builder.
   */
  function Data(p: QubicTransferAssetPayload): (r: Result<Bytes>)
    ensures r.Success? <==> |p.issuer.bytes| + |p.newOwnerAndPossessor.bytes| + |p.assetName| <= 72
    ensures r.Failure? ==> r.error == OutOfRange
    ensures r.Success? ==> |r.value| == TRANSFER_ASSET_SIZE
    ensures r.Success? && Standard(p) ==> r.value == Layout(p)
    ensures r.Success? && Standard(p) ==>
      r.value[0..32] == p.issuer.bytes && r.value[32..64] == p.newOwnerAndPossessor.bytes
      && r.value[64..72] == p.assetName && r.value[72..80] == LongValue.Data(p.numberOfUnits)
  {
    PackageBuilder.Concat4(PublicKeyValue.Data(p.issuer), PublicKeyValue.Data(p.newOwnerAndPossessor), p.assetName, LongValue.Data(p.numberOfUnits));
    var r := PackageBuilder.Pack(TRANSFER_ASSET_SIZE, Parts(p));
    if r.Success? && Standard(p) then
      Fields4(p.issuer.bytes, p.newOwnerAndPossessor.bytes, p.assetName, LongValue.Data(p.numberOfUnits));
      assert r.value == Layout(p) + Zeros(0);
      r
    else r
  }

  /** The offsets of the four fields in their concatenation. */
  lemma Fields4(a: Bytes, b: Bytes, c: Bytes, d: Bytes)
    requires |a| == 32 && |b| == 32 && |c| == 8 && |d| == 8
    ensures var s := a + b + c + d;
      s[0..32] == a && s[32..64] == b && s[64..72] == c && s[72..80] == d
  {
    var s := a + b + c + d;
    assert s[0..32] == a;
    assert s[32..64] == b;
    assert s[64..72] == c;
    assert s[72..80] == d;
  }

  /** `GetTransactionPayload`: a `DynamicPayload(80)` holding the package data. */
  function TransactionPayload(p: QubicTransferAssetPayload): (r: Result<DynamicPayloadValue.DynamicPayload>)
    ensures r.Success? <==> Data(p).Success?
    ensures r.Success? ==> r.value.Valid() && DynamicPayloadValue.Data(r.value) == Data(p).value
    ensures r.Success? ==> DynamicPayloadValue.Size(r.value) == PackageSize(p)
  {
    var data :- Data(p);
    DynamicPayloadValue.SetPayload(DynamicPayloadValue.New(TRANSFER_ASSET_SIZE as int32).value, data)
  }

  /** `data.AsSpan(start, length)`: the `length` bytes from `start`, or out of range. */
  function Span(data: Bytes, start: int, length: int): (r: Result<Bytes>)
    ensures r.Success? <==> 0 <= start && 0 <= length && start + length <= |data|
    ensures r.Failure? ==> r.error == OutOfRange
    ensures r.Success? ==> |r.value| == length && r.value == data[start..start + length]
  {
    if 0 <= start && 0 <= length && start + length <= |data| then Success(data[start..start + length])
    else Failure(OutOfRange)
  }

  /** A (start, length) span that lies inside `data`. */
  predicate Fits(data: Bytes, span: (int, int))
  {
    0 <= span.0 && 0 <= span.1 && span.0 + span.1 <= |data|
  }

  /** A key read from a span: rebuilt through its identity from the span's first 32 bytes. */
  function ReadKey(c: Crypto, data: Bytes, span: (int, int)): (r: Result<PublicKeyValue.PublicKey>)
    ensures r.Success? <==> (Fits(data, span) && span.1 >= 32)
    ensures r.Failure? ==> r.error == OutOfRange
    ensures r.Success? ==> r.value.bytes == data[span.0..span.0 + 32]
  {
    var bytes :- Span(data, span.0, span.1);
    if |bytes| < 32 then PublicKeyValue.FromKeyBytes(c, bytes)
    else
      SlicePrefix(data, span.0, span.1, 32);
      PublicKeyValue.FromKeyBytes(c, bytes)
  }

  lemma SlicePrefix(data: Bytes, start: nat, length: nat, n: nat)
    requires n <= length && start + length <= |data|
    ensures data[start..start + length][..n] == data[start..start + n]
  {
  }

  /** A `Long` read from a span of exactly 8 bytes. */
  function ReadLong(data: Bytes, span: (int, int)): (r: Result<LongValue.Long>)
    ensures r.Success? <==> (Fits(data, span) && span.1 == LongValue.LONG_SIZE)
    ensures r.Failure? ==> r.error == OutOfRange || r.error == WrongLength
    ensures r.Success? ==> LongValue.Data(r.value) == data[span.0..span.0 + 8]
  {
    var bytes :- Span(data, span.0, span.1);
    LongValue.FromBytes(bytes)
  }

  /**
   The four reads of `Parse`, each `AsSpan(start, length)` with the given
   arguments: keys rebuilt through their identities, the name as is, and the
   units from exactly 8 bytes.
   */
  function ReadSpans(c: Crypto, p: QubicTransferAssetPayload, data: Bytes,
                     issuerSpan: (int, int), ownerSpan: (int, int), nameSpan: (int, int), unitsSpan: (int, int)): (r: Result<QubicTransferAssetPayload>)
    ensures r.Success? <==> (ReadKeys(c, data, issuerSpan, ownerSpan).Success? && ReadRest(data, nameSpan, unitsSpan).Success?)
    ensures r.Failure? ==> r.error == OutOfRange || r.error == WrongLength
    ensures r.Success? ==> (r.value.issuer, r.value.newOwnerAndPossessor) == ReadKeys(c, data, issuerSpan, ownerSpan).value
    ensures r.Success? ==> (r.value.assetName, r.value.numberOfUnits) == ReadRest(data, nameSpan, unitsSpan).value
  {
    var keys :- ReadKeys(c, data, issuerSpan, ownerSpan);
    var rest :- ReadRest(data, nameSpan, unitsSpan);
    Success(p.(issuer := keys.0, newOwnerAndPossessor := keys.1, assetName := rest.0, numberOfUnits := rest.1))
  }

  /** The first two reads: the issuer's and the new owner's keys. */
  function ReadKeys(c: Crypto, data: Bytes, issuerSpan: (int, int), ownerSpan: (int, int)): (r: Result<(PublicKeyValue.PublicKey, PublicKeyValue.PublicKey)>)
    ensures r.Success? <==> (Fits(data, issuerSpan) && issuerSpan.1 >= 32 && Fits(data, ownerSpan) && ownerSpan.1 >= 32)
    ensures r.Failure? ==> r.error == OutOfRange
    ensures r.Success? ==> r.value.0.bytes == data[issuerSpan.0..issuerSpan.0 + 32]
    ensures r.Success? ==> r.value.1.bytes == data[ownerSpan.0..ownerSpan.0 + 32]
  {
    var issuer :- ReadKey(c, data, issuerSpan);
    var owner :- ReadKey(c, data, ownerSpan);
    Success((issuer, owner))
  }

  /** The last two reads: the name as is and the units from exactly 8 bytes. */
  function ReadRest(data: Bytes, nameSpan: (int, int), unitsSpan: (int, int)): (r: Result<(Bytes, LongValue.Long)>)
    ensures r.Success? <==> (Fits(data, nameSpan) && Fits(data, unitsSpan) && unitsSpan.1 == LongValue.LONG_SIZE)
    ensures r.Failure? ==> r.error == OutOfRange || r.error == WrongLength
    ensures r.Success? ==> r.value.0 == data[nameSpan.0..nameSpan.0 + nameSpan.1]
    ensures r.Success? ==> LongValue.Data(r.value.1) == data[unitsSpan.0..unitsSpan.0 + 8]
  {
    var name :- Span(data, nameSpan.0, nameSpan.1);
    var units :- ReadLong(data, unitsSpan);
    Success((name, units))
  }

  /**
   `Parse(data)` as written: anything but 80 bytes is an invalid package;
   otherwise the spans are taken with their end offset passed as a length,
   (0, 32), (32, 64), (64, 72) and (72, 80), so the second read runs past
   the end of every 80-byte input and the parse fails.
   */
  function Parse(c: Crypto, p: QubicTransferAssetPayload, data: Bytes): (r: Result<QubicTransferAssetPayload>)
    ensures |data| != TRANSFER_ASSET_SIZE ==> r == Failure(InvalidPackageSize)
    ensures |data| == TRANSFER_ASSET_SIZE ==> r == Failure(OutOfRange)
  {
    if |data| != TRANSFER_ASSET_SIZE then Failure(InvalidPackageSize)
    else ReadSpans(c, p, data, (0, 32), (32, 64), (64, 72), (72, 80))
  }

  /** `Parse` with the spans taken as (start, length): 32, 32, 8 and 8 bytes. */
  function ParseCorrected(c: Crypto, p: QubicTransferAssetPayload, data: Bytes): (r: Result<QubicTransferAssetPayload>)
    ensures |data| != TRANSFER_ASSET_SIZE <==> r.Failure?
    ensures r.Failure? ==> r.error == InvalidPackageSize
    ensures r.Success? ==> Standard(r.value)
    ensures r.Success? ==> r.value.issuer.bytes == data[0..32] && r.value.newOwnerAndPossessor.bytes == data[32..64]
    ensures r.Success? ==> r.value.assetName == data[64..72] && LongValue.Data(r.value.numberOfUnits) == data[72..80]
  {
    if |data| != TRANSFER_ASSET_SIZE then Failure(InvalidPackageSize)
    else ReadSpans(c, p, data, (0, 32), (32, 32), (64, 8), (72, 8))
  }

  /** Encoding then the corrected parse gives back every standard payload. */
  lemma ParseCorrectedData(c: Crypto, p: QubicTransferAssetPayload, q: QubicTransferAssetPayload)
    requires Standard(p)
    ensures Data(p).Success?
    ensures ParseCorrected(c, q, Data(p).value) == Success(p)
  {
    var r := ParseCorrected(c, q, Data(p).value).value;
    LongValue.DataInjective(r.numberOfUnits, p.numberOfUnits);
  }
}
