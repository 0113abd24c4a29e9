/**
 `QubicEntity`: the 64-byte balance record of one identity: its key, the
 incoming and outgoing amounts (signed 64-bit) and four signed 32-bit
 counters and ticks, all little-endian.
 */
module Entity {
  import opened Bytes
  import opened Wrappers
  import DataView
  import LongValue
  import PublicKeyValue
  import PackageBuilder

  const ENTITY_SIZE: nat := 64

  datatype QubicEntity = QubicEntity(
    publicKey: PublicKeyValue.PublicKey,
    incomingAmount: LongValue.Long,
    outgoingAmount: LongValue.Long,
    numberOfIncomingTransfers: int32,
    numberOfOutgoingTransfers: int32,
    latestIncomingTransferTick: int32,
    latestOutgoingTransferTick: int32)

  /** `new QubicEntity()`: the zero key, zero amounts and counters. */
  function Default(): (r: QubicEntity)
    ensures |r.publicKey.bytes| == 32 && r.incomingAmount.number == 0 && r.outgoingAmount.number == 0
  {
    QubicEntity(PublicKeyValue.Default(), LongValue.Long(0), LongValue.Long(0), 0, 0, 0, 0)
  }

  /** `GetBalance`: incoming minus outgoing in wrapping 64-bit arithmetic. */
  function Balance(e: QubicEntity): (r: int64)
    ensures (r - (e.incomingAmount.number - e.outgoingAmount.number)) % TWO_64 == 0
    ensures -(TWO_64 / 2) <= e.incomingAmount.number - e.outgoingAmount.number < TWO_64 / 2 ==>
      r == e.incomingAmount.number - e.outgoingAmount.number
  {
    WrapInt64(e.incomingAmount.number - e.outgoingAmount.number)
  }

  /** The pieces `GetPackageData` appends, in order. */
  function Parts(e: QubicEntity): seq<Bytes>
  {
    [PublicKeyValue.Data(e.publicKey)] + [LongValue.Data(e.incomingAmount)] + [LongValue.Data(e.outgoingAmount)]
      + [ToLE(e.numberOfIncomingTransfers, 4)] + [ToLE(e.numberOfOutgoingTransfers, 4)]
      + [ToLE(e.latestIncomingTransferTick, 4)] + [ToLE(e.latestOutgoingTransferTick, 4)]
  }

  /** The same pieces written out as one sequence. */
  function Layout(e: QubicEntity): Bytes
  {
    e.publicKey.bytes + ToLE(e.incomingAmount.number, 8) + ToLE(e.outgoingAmount.number, 8)
      + ToLE(e.numberOfIncomingTransfers, 4) + ToLE(e.numberOfOutgoingTransfers, 4)
      + ToLE(e.latestIncomingTransferTick, 4) + ToLE(e.latestOutgoingTransferTick, 4)
  }

  lemma PartsLayout(e: QubicEntity)
    ensures PackageBuilder.Concat(Parts(e)) == Layout(e)
  {
    PackageBuilder.Concat7(PublicKeyValue.Data(e.publicKey), LongValue.Data(e.incomingAmount), LongValue.Data(e.outgoingAmount),
      ToLE(e.numberOfIncomingTransfers, 4), ToLE(e.numberOfOutgoingTransfers, 4),
      ToLE(e.latestIncomingTransferTick, 4), ToLE(e.latestOutgoingTransferTick, 4));
  }

  /** The offsets of the seven fields in their concatenation. */
  lemma Fields7(a: Bytes, b: Bytes, c: Bytes, d: Bytes, e: Bytes, f: Bytes, g: Bytes)
    requires |a| == 32 && |b| == 8 && |c| == 8 && |d| == 4 && |e| == 4 && |f| == 4 && |g| == 4
    ensures var s := a + b + c + d + e + f + g;
      s[0..32] == a && s[32..40] == b && s[40..48] == c && s[48..52] == d && s[52..56] == e && s[56..60] == f && s[60..64] == g
  {
    var s := a + b + c + d + e + f + g;
    assert s[0..32] == a;
    assert s[32..40] == b;
    assert s[40..48] == c;
    assert s[48..52] == d;
    assert s[52..56] == e;
    assert s[56..60] == f;
    assert s[60..64] == g;
  }

  /** A 64-byte sequence is the concatenation of its seven field slices. */
  lemma Join7(s: Bytes, a: Bytes, b: Bytes, c: Bytes, d: Bytes, e: Bytes, f: Bytes, g: Bytes)
    requires |s| == 64
    requires a == s[0..32] && b == s[32..40] && c == s[40..48] && d == s[48..52] && e == s[52..56] && f == s[56..60] && g == s[60..64]
    ensures s == a + b + c + d + e + f + g
  {
    assert s[..40] == s[0..32] + s[32..40];
    assert s[..48] == s[..40] + s[40..48];
    assert s[..52] == s[..48] + s[48..52];
    assert s[..56] == s[..52] + s[52..56];
    assert s[..60] == s[..56] + s[56..60];
    assert s == s[..60] + s[60..64];
  }

  /**
   `GetPackageData`: the pieces in a 64-byte builder. A key of 32 bytes
   fills it exactly; a shorter key leaves zero padding at the end, and a
   longer one overflows the builder.
   */
  function Data(e: QubicEntity): (r: Result<Bytes>)
    ensures r.Success? <==> |e.publicKey.bytes| <= 32
    ensures r.Success? ==> r.value == Layout(e) + Zeros(32 - |e.publicKey.bytes|)
  {
    PartsLayout(e);
    PackageBuilder.Pack(ENTITY_SIZE, Parts(e))
  }

  /**
   `Parse`: anything but 64 bytes is an invalid package; otherwise the key
   is bytes 0..31, the amounts the signed values at 32 and 40, and the four
   counters the signed values at 48, 52, 56 and 60.
   */
  function Parse(data: Bytes): (r: Result<QubicEntity>)
    ensures r.Failure? <==> |data| != ENTITY_SIZE
    ensures r.Failure? ==> r.error == InvalidPackageSize
    ensures r.Success? ==> r.value.publicKey.bytes == data[0..32]
    ensures r.Success? ==> ToLE(r.value.incomingAmount.number, 8) == data[32..40] && ToLE(r.value.outgoingAmount.number, 8) == data[40..48]
    ensures r.Success? ==> ToLE(r.value.numberOfIncomingTransfers, 4) == data[48..52] && ToLE(r.value.numberOfOutgoingTransfers, 4) == data[52..56]
    ensures r.Success? ==> ToLE(r.value.latestIncomingTransferTick, 4) == data[56..60] && ToLE(r.value.latestOutgoingTransferTick, 4) == data[60..64]
  {
    if |data| != ENTITY_SIZE then Failure(InvalidPackageSize)
    else
      Success(QubicEntity(
        PublicKeyValue.FromBytes(data[0..32]),
        LongValue.Long(DataView.GetInt64(data, 32)),
        LongValue.Long(DataView.GetInt64(data, 40)),
        DataView.GetInt32(data, 48),
        DataView.GetInt32(data, 52),
        DataView.GetInt32(data, 56),
        DataView.GetInt32(data, 60)))
  }

  /** Encode then parse is the identity on entities with a 32-byte key. */
  lemma ParseData(e: QubicEntity)
    requires |e.publicKey.bytes| == 32
    ensures Data(e).Success? && Parse(Data(e).value) == Success(e)
  {
    var d := Data(e).value;
    assert d == Layout(e);
    Fields7(e.publicKey.bytes, ToLE(e.incomingAmount.number, 8), ToLE(e.outgoingAmount.number, 8),
      ToLE(e.numberOfIncomingTransfers, 4), ToLE(e.numberOfOutgoingTransfers, 4),
      ToLE(e.latestIncomingTransferTick, 4), ToLE(e.latestOutgoingTransferTick, 4));
    var p := Parse(d).value;
    Pow256Values();
    SignedSlot(p.incomingAmount.number, e.incomingAmount.number, 8);
    SignedSlot(p.outgoingAmount.number, e.outgoingAmount.number, 8);
    SignedSlot(p.numberOfIncomingTransfers, e.numberOfIncomingTransfers, 4);
    SignedSlot(p.numberOfOutgoingTransfers, e.numberOfOutgoingTransfers, 4);
    SignedSlot(p.latestIncomingTransferTick, e.latestIncomingTransferTick, 4);
    SignedSlot(p.latestOutgoingTransferTick, e.latestOutgoingTransferTick, 4);
  }

  /** Parse then encode is the identity on 64-byte inputs. */
  lemma DataParse(data: Bytes)
    requires |data| == ENTITY_SIZE
    ensures Parse(data).Success? && Data(Parse(data).value) == Success(data)
  {
    var e := Parse(data).value;
    Join7(data, e.publicKey.bytes, ToLE(e.incomingAmount.number, 8), ToLE(e.outgoingAmount.number, 8),
      ToLE(e.numberOfIncomingTransfers, 4), ToLE(e.numberOfOutgoingTransfers, 4),
      ToLE(e.latestIncomingTransferTick, 4), ToLE(e.latestOutgoingTransferTick, 4));
    assert Layout(e) == data;
    assert Layout(e) + Zeros(0) == data;
    assert Data(e) == Success(data);
  }
}
