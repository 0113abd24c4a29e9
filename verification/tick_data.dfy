/**
 `QubicTickData`: the 41 328-byte record a computor publishes for a tick:
 a 16-byte header of numbers and time, a 256-byte union region (which can
 hold a proposal URI), a 32-byte time lock, 1024 transaction digests, 1024
 contract fees and a signature.
 */
module TickData {
  import opened Bytes
  import opened Wrappers
  import DataView
  import Definitions
  import SignatureValue

  const TICK_DATA_SIZE: nat := 41328
  const UNION_OFFSET: nat := 16
  const UNION_SIZE: nat := 256
  const TIME_LOCK_OFFSET: nat := 272
  const TIME_LOCK_SIZE: nat := 32
  const DIGESTS_OFFSET: nat := 304
  const DIGESTS_SIZE: nat := 32768
  const FEES_OFFSET: nat := 33072
  const SIGNATURE_OFFSET: nat := 41264
  const MAX_URI_LENGTH: nat := 255

  datatype QubicTickData = QubicTickData(
    computorIndex: uint16,
    epoch: uint16,
    tick: uint32,
    millisecond: uint16,
    second: uint8,
    minute: uint8,
    hour: uint8,
    day: uint8,
    month: uint8,
    year: uint8,
    unionData: Bytes,
    timeLock: Bytes,
    transactionDigests: Bytes,
    contractFees: seq<int64>,
    signature: Option<SignatureValue.Signature>)

  /** The regions add up to the record size. */
  lemma RegionsAddUp()
    ensures DIGESTS_SIZE == Definitions.NUMBER_OF_TRANSACTIONS_PER_TICK * Definitions.DIGEST_LENGTH
    ensures UNION_OFFSET + UNION_SIZE == TIME_LOCK_OFFSET && TIME_LOCK_OFFSET + TIME_LOCK_SIZE == DIGESTS_OFFSET
    ensures DIGESTS_OFFSET + DIGESTS_SIZE == FEES_OFFSET
    ensures FEES_OFFSET + 8 * Definitions.MAX_NUMBER_OF_CONTRACTS == SIGNATURE_OFFSET
    ensures SIGNATURE_OFFSET + Definitions.SIGNATURE_LENGTH == TICK_DATA_SIZE
  {
  }

  /** `new QubicTickData()`: zero numbers, zeroed regions of their sizes, zero fees, and no signature yet. */
  function Default(): (r: QubicTickData)
    ensures |r.unionData| == UNION_SIZE && |r.timeLock| == TIME_LOCK_SIZE && |r.transactionDigests| == DIGESTS_SIZE
    ensures |r.contractFees| == Definitions.MAX_NUMBER_OF_CONTRACTS && r.signature.None?
  {
    QubicTickData(0, 0, 0, 0, 0, 0, 0, 0, 0, 0, Zeros(UNION_SIZE), Zeros(TIME_LOCK_SIZE), Zeros(DIGESTS_SIZE),
      seq(Definitions.MAX_NUMBER_OF_CONTRACTS, _ => 0), None)
  }

  /** The contract-fee loop: `count` consecutive signed 64-bit values from `offset` on. */
  function ReadFees(data: Bytes, offset: nat, count: nat): (r: seq<int64>)
    requires offset + 8 * count <= |data|
    ensures |r| == count
    ensures forall i :: 0 <= i < count ==> ToLE(r[i], 8) == data[offset + 8 * i..offset + 8 * i + 8]
  {
    seq(count, i requires 0 <= i < count => DataView.GetInt64(data, offset + 8 * i))
  }

  /**
   `Parse`: anything but 41 328 bytes is an invalid package; otherwise the
   fields are read one after the other from offset 0: the unsigned header
   numbers and time bytes (0..15), the union (16..271), the time lock
   (272..303), the digests (304..33071), the fees (33072..41263) and the
   signature (41264..41327).
   */
  function Parse(data: Bytes): (r: Result<QubicTickData>)
    ensures r.Failure? <==> |data| != TICK_DATA_SIZE
    ensures r.Failure? ==> r.error == InvalidPackageSize
    ensures r.Success? ==> ToLE(r.value.computorIndex, 2) == data[0..2] && ToLE(r.value.epoch, 2) == data[2..4]
    ensures r.Success? ==> ToLE(r.value.tick, 4) == data[4..8] && ToLE(r.value.millisecond, 2) == data[8..10]
    ensures r.Success? ==> [r.value.second, r.value.minute, r.value.hour, r.value.day, r.value.month, r.value.year] == data[10..16]
    ensures r.Success? ==> r.value.unionData == data[UNION_OFFSET..TIME_LOCK_OFFSET]
    ensures r.Success? ==> r.value.timeLock == data[TIME_LOCK_OFFSET..DIGESTS_OFFSET]
    ensures r.Success? ==> r.value.transactionDigests == data[DIGESTS_OFFSET..FEES_OFFSET]
    ensures r.Success? ==> |r.value.contractFees| == Definitions.MAX_NUMBER_OF_CONTRACTS
    ensures r.Success? ==> forall i :: 0 <= i < Definitions.MAX_NUMBER_OF_CONTRACTS ==>
      ToLE(r.value.contractFees[i], 8) == data[FEES_OFFSET + 8 * i..FEES_OFFSET + 8 * i + 8]
    ensures r.Success? ==> r.value.signature == Some(SignatureValue.Signature(data[SIGNATURE_OFFSET..TICK_DATA_SIZE]))
  {
    if |data| != TICK_DATA_SIZE then Failure(InvalidPackageSize)
    else
      var time := data[10..16];
      assert time == [time[0], time[1], time[2], time[3], time[4], time[5]];
      Success(QubicTickData(
        DataView.GetUint16(data, 0),
        DataView.GetUint16(data, 2),
        DataView.GetUint32(data, 4),
        DataView.GetUint16(data, 8),
        data[10], data[11], data[12], data[13], data[14], data[15],
        data[UNION_OFFSET..TIME_LOCK_OFFSET],
        data[TIME_LOCK_OFFSET..DIGESTS_OFFSET],
        data[DIGESTS_OFFSET..FEES_OFFSET],
        ReadFees(data, FEES_OFFSET, Definitions.MAX_NUMBER_OF_CONTRACTS),
        Some(SignatureValue.New(Some(data[SIGNATURE_OFFSET..TICK_DATA_SIZE])))))
  }

  /** No byte of the record is ignored: two inputs that parse alike are equal. */
  lemma ParseInjective(a: Bytes, b: Bytes)
    requires Parse(a).Success? && Parse(a) == Parse(b)
    ensures a == b
  {
    assert |b| == TICK_DATA_SIZE;
    assert a[0..2] == b[0..2] && a[2..4] == b[2..4] && a[4..8] == b[4..8] && a[8..10] == b[8..10] && a[10..16] == b[10..16];
    FeesEqual(a, b);
    Split11(a);
    Split11(b);
  }

  /** The record cut at its field boundaries. */
  lemma Split11(a: Bytes)
    requires |a| == TICK_DATA_SIZE
    ensures a == a[0..2] + a[2..4] + a[4..8] + a[8..10] + a[10..16] + a[16..272] + a[272..304] + a[304..33072]
      + a[33072..41264] + a[41264..41328]
  {
  }

  /** Equal parsed fees mean equal fee regions. */
  lemma FeesEqual(a: Bytes, b: Bytes)
    requires Parse(a).Success? && Parse(a) == Parse(b)
    ensures a[FEES_OFFSET..SIGNATURE_OFFSET] == b[FEES_OFFSET..SIGNATURE_OFFSET]
  {
    var fees := Parse(a).value.contractFees;
    forall j | FEES_OFFSET <= j < SIGNATURE_OFFSET
      ensures a[j] == b[j]
    {
      var i := (j - FEES_OFFSET) / 8;
      assert FEES_OFFSET + 8 * i <= j < FEES_OFFSET + 8 * i + 8;
      assert a[FEES_OFFSET + 8 * i..FEES_OFFSET + 8 * i + 8] == ToLE(fees[i], 8) == b[FEES_OFFSET + 8 * i..FEES_OFFSET + 8 * i + 8];
      assert a[j] == a[FEES_OFFSET + 8 * i..FEES_OFFSET + 8 * i + 8][j - FEES_OFFSET - 8 * i];
      assert b[j] == b[FEES_OFFSET + 8 * i..FEES_OFFSET + 8 * i + 8][j - FEES_OFFSET - 8 * i];
    }
  }

  /** `GetPackageSize`: the constant record size. */
  function PackageSize(t: QubicTickData): (r: nat)
    ensures r == TICK_DATA_SIZE
  {
    TICK_DATA_SIZE
  }

  /** `GetPackageData` is an unimplemented stub: it returns no bytes, whatever `PackageSize` says. */
  function Data(t: QubicTickData): (r: Bytes)
    ensures |r| == 0 && |r| != PackageSize(t)
  {
    []
  }

  // ---------------------------------------------------------------------
  // The proposal URI inside the union region

  /** `GetProposalUriSize`: union byte 0. */
  function ProposalUriSize(t: QubicTickData): (r: uint8)
    requires |t.unionData| == UNION_SIZE
    ensures r == t.unionData[0]
  {
    t.unionData[0]
  }

  /** `SetProposalUriSize`: union byte 0 becomes the low byte of `size`; the rest of the union is unchanged. */
  function SetProposalUriSize(t: QubicTickData, size: uint16): (r: QubicTickData)
    requires |t.unionData| == UNION_SIZE
    ensures |r.unionData| == UNION_SIZE && ProposalUriSize(r) == size % 256
    ensures r.unionData[1..] == t.unionData[1..] && r == t.(unionData := r.unionData)
  {
    t.(unionData := t.unionData[0 := size % 256])
  }

  /**
   The bytes `GetProposalUri` decodes: the `ProposalUriSize` bytes after
   union byte 0 (the UTF-8 decoding itself is not modelled).
   */
  function ProposalUriBytes(t: QubicTickData): (r: Bytes)
    requires |t.unionData| == UNION_SIZE
    ensures |r| == ProposalUriSize(t) && r == t.unionData[1..1 + ProposalUriSize(t)]
  {
    t.unionData[1..1 + ProposalUriSize(t)]
  }

  /**
   `SetProposalUri(uri)`, given the string's length in characters and its
   UTF-8 encoding: more than 255 characters is rejected; an encoding that
   does not fit after union byte 0 makes the copy fail; otherwise the
   encoding is copied to union[1..] and union byte 0 becomes the CHARACTER
   count. The rest of the union is unchanged.
   */
  function SetProposalUri(t: QubicTickData, uriLength: nat, encoded: Bytes): (r: Result<QubicTickData>)
    requires |t.unionData| == UNION_SIZE
    ensures uriLength > MAX_URI_LENGTH ==> r == Failure(TooLarge)
    ensures uriLength <= MAX_URI_LENGTH ==> (r.Success? <==> 1 + |encoded| <= UNION_SIZE)
    ensures r.Failure? ==> r.error == TooLarge || r.error == OutOfRange
    ensures r.Success? ==> |r.value.unionData| == UNION_SIZE && ProposalUriSize(r.value) == uriLength
    ensures r.Success? ==> r.value.unionData[1..1 + |encoded|] == encoded && r.value.unionData[1 + |encoded|..] == t.unionData[1 + |encoded|..]
    ensures r.Success? ==> r.value == t.(unionData := r.value.unionData)
  {
    if uriLength > MAX_URI_LENGTH then Failure(TooLarge)
    else if 1 + |encoded| > UNION_SIZE then Failure(OutOfRange)
    else
      var copied := t.(unionData := DataView.Write(t.unionData, 1, encoded));
      Success(SetProposalUriSize(copied, uriLength))
  }

  /**
   The URI read back is the URI written only when its character count is
   its byte count: a one-character URI with a two-byte encoding reads back
   as its first byte alone.
   */
  lemma ProposalUriTruncated(t: QubicTickData)
    requires |t.unionData| == UNION_SIZE
    ensures SetProposalUri(t, 1, [0xC3, 0xA9]).Success?
    ensures ProposalUriBytes(SetProposalUri(t, 1, [0xC3, 0xA9]).value) == [0xC3]
  {
    var r := SetProposalUri(t, 1, [0xC3, 0xA9]).value;
    assert r.unionData[1..3] == [0xC3, 0xA9];
    assert r.unionData[1..2] == r.unionData[1..3][..1];
  }

  /** ASCII-only URIs (one byte per character) read back exactly. */
  lemma ProposalUriRoundTrip(t: QubicTickData, encoded: Bytes)
    requires |t.unionData| == UNION_SIZE && |encoded| <= MAX_URI_LENGTH
    ensures SetProposalUri(t, |encoded|, encoded).Success?
    ensures ProposalUriBytes(SetProposalUri(t, |encoded|, encoded).value) == encoded
  {
  }

  /** The intended setter: union byte 0 records the number of encoded bytes. */
  function SetProposalUriBytes(t: QubicTickData, encoded: Bytes): (r: Result<QubicTickData>)
    requires |t.unionData| == UNION_SIZE
    ensures r.Success? <==> |encoded| <= MAX_URI_LENGTH
    ensures r.Failure? ==> r.error == TooLarge
    ensures r.Success? ==> |r.value.unionData| == UNION_SIZE && ProposalUriBytes(r.value) == encoded
    ensures r.Success? ==> r.value.unionData[1 + |encoded|..] == t.unionData[1 + |encoded|..] && r.value == t.(unionData := r.value.unionData)
  {
    if |encoded| > MAX_URI_LENGTH then Failure(TooLarge)
    else SetProposalUri(t, |encoded|, encoded)
  }
}
