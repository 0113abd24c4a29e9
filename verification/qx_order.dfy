/**
 `QubicTransferQXOrderPayload`: the 56-byte input of a QX order — the
 asset issuer's key, then the asset name, the price and the number of
 shares as signed 64-bit little-endian values.
 */
module QxOrder {
  import opened Bytes
  import opened Wrappers
  import LongValue
  import PublicKeyValue
  import DynamicPayloadValue
  import PackageBuilder

  const QX_ORDER_SIZE: nat := 56

  /** `QXOrderActionInput`. */
  datatype QxOrderActionInput = QxOrderActionInput(
    issuer: PublicKeyValue.PublicKey,
    assetName: LongValue.Long,
    price: LongValue.Long,
    numberOfShares: LongValue.Long)

  datatype QubicTransferQxOrderPayload = QubicTransferQxOrderPayload(input: QxOrderActionInput)

  /** `GetPackageSize`: always 56. */
  function PackageSize(p: QubicTransferQxOrderPayload): (r: nat)
    ensures r == 32 + 8 + 8 + 8
  {
    QX_ORDER_SIZE
  }

  /** The pieces `GetPackageData` appends, in order. */
  function Parts(p: QubicTransferQxOrderPayload): seq<Bytes>
  {
    [PublicKeyValue.Data(p.input.issuer)] + [LongValue.Data(p.input.assetName)]
      + [LongValue.Data(p.input.price)] + [LongValue.Data(p.input.numberOfShares)]
  }

  /**
   `GetPackageData`: the pieces in a 56-byte builder. With a 32-byte
   issuer the key is bytes 0..32, the name 32..40, the price 40..48 and the
   shares 48..56; a longer key overflows the builder and a shorter one
   leaves zero padding at the end.
   */
  function Data(p: QubicTransferQxOrderPayload): (r: Result<Bytes>)
    ensures r.Success? <==> |p.input.issuer.bytes| <= 32
    ensures r.Failure? ==> r.error == OutOfRange
    ensures r.Success? ==> |r.value| == QX_ORDER_SIZE
    ensures r.Success? ==> r.value[..|p.input.issuer.bytes|] == p.input.issuer.bytes
    ensures |p.input.issuer.bytes| == 32 ==>
      r.value[32..40] == LongValue.Data(p.input.assetName) && r.value[40..48] == LongValue.Data(p.input.price)
      && r.value[48..56] == LongValue.Data(p.input.numberOfShares)
  {
    var key := PublicKeyValue.Data(p.input.issuer);
    var name := LongValue.Data(p.input.assetName);
    var price := LongValue.Data(p.input.price);
    var shares := LongValue.Data(p.input.numberOfShares);
    PackageBuilder.Concat4(key, name, price, shares);
    var r := PackageBuilder.Pack(QX_ORDER_SIZE, Parts(p));
    if r.Success? then
      Fields4(key, name, price, shares, Zeros(32 - |key|));
      r
    else r
  }

  /** The offsets of the four fields, for a key of `|a|` bytes and any padding. */
  lemma Fields4(a: Bytes, b: Bytes, c: Bytes, d: Bytes, pad: Bytes)
    requires |b| == 8 && |c| == 8 && |d| == 8
    ensures var s := a + b + c + d + pad;
      s[..|a|] == a && s[|a|..|a| + 8] == b && s[|a| + 8..|a| + 16] == c && s[|a| + 16..|a| + 24] == d
  {
    var s := a + b + c + d + pad;
    assert s[..|a|] == a;
    assert s[|a|..|a| + 8] == b;
    assert s[|a| + 8..|a| + 16] == c;
    assert s[|a| + 16..|a| + 24] == d;
  }

  /** Orders with 32-byte issuers that encode alike are the same order. */
  lemma DataInjective(p: QubicTransferQxOrderPayload, q: QubicTransferQxOrderPayload)
    requires |p.input.issuer.bytes| == 32 && |q.input.issuer.bytes| == 32
    requires Data(p) == Data(q)
    ensures p == q
  {
    LongValue.DataInjective(p.input.assetName, q.input.assetName);
    LongValue.DataInjective(p.input.price, q.input.price);
    LongValue.DataInjective(p.input.numberOfShares, q.input.numberOfShares);
  }

  /** `GetTransactionPayload`: a `DynamicPayload(56)` holding the package data. */
  function TransactionPayload(p: QubicTransferQxOrderPayload): (r: Result<DynamicPayloadValue.DynamicPayload>)
    ensures r.Success? <==> Data(p).Success?
    ensures r.Success? ==> r.value.Valid() && DynamicPayloadValue.Data(r.value) == Data(p).value
    ensures r.Success? ==> DynamicPayloadValue.Size(r.value) == PackageSize(p)
  {
    var data :- Data(p);
    DynamicPayloadValue.SetPayload(DynamicPayloadValue.New(QX_ORDER_SIZE as int32).value, data)
  }

  /** `GetTotalAmount`: price times shares in wrapping 64-bit arithmetic. */
  function TotalAmount(p: QubicTransferQxOrderPayload): (r: int64)
    ensures (r - p.input.price.number * p.input.numberOfShares.number) % TWO_64 == 0
    ensures -(TWO_64 / 2) <= p.input.price.number * p.input.numberOfShares.number < TWO_64 / 2 ==>
      r == p.input.price.number * p.input.numberOfShares.number
  {
    WrapInt64(p.input.price.number * p.input.numberOfShares.number)
  }
}
