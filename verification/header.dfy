/**
 `RequestResponseHeader`: the 8-byte frame header in front of every
 message, a 24-bit little-endian size (header included), a type byte and a
 32-bit little-endian "deja vu" tag.
 */
module RequestResponseHeader {
  import opened Bytes
  import opened Wrappers

  const HEADER_SIZE: nat := 8
  const MAX_SIZE: nat := 16777215

  datatype Header = Header(size: int32, packageType: int32, dejaVu: int32)

  /** The checks `GetPackageData` makes before encoding. */
  predicate Encodable(h: Header)
  {
    h.size <= MAX_SIZE && 0 <= h.packageType <= 255
  }

  /**
   `GetPackageData`: a size above 2^24 - 1 or a type outside 0..255 is
   rejected (the size first); otherwise the size's low 3 bytes, the type
   byte and the 4 deja-vu bytes. A negative size is not rejected.
   */
  function Data(h: Header): (r: Result<Bytes>)
    ensures r.Success? <==> Encodable(h)
    ensures h.size > MAX_SIZE ==> r == Failure(TooLarge)
    ensures h.size <= MAX_SIZE && !(0 <= h.packageType <= 255) ==> r == Failure(TypeOutOfRange)
    ensures r.Success? ==> |r.value| == HEADER_SIZE
    ensures r.Success? ==> r.value[..3] == ToLE(h.size, 3) && r.value[3] == h.packageType && r.value[4..] == ToLE(h.dejaVu, 4)
  {
    if h.size > MAX_SIZE then Failure(TooLarge)
    else if h.packageType > 255 || h.packageType < 0 then Failure(TypeOutOfRange)
    else
      var bytes := ToLE(h.size, 3) + [h.packageType as uint8] + ToLE(h.dejaVu, 4);
      assert bytes[..3] == ToLE(h.size, 3);
      assert bytes[4..] == ToLE(h.dejaVu, 4);
      Success(bytes)
  }

  /** `GetPackageSize`: the length of the encoding, so 8 whenever it can be encoded. */
  function PackageSize(h: Header): (r: Result<nat>)
    ensures r.Success? <==> Encodable(h)
    ensures r.Success? ==> r.value == HEADER_SIZE
    ensures r.Failure? ==> Data(h).Failure? && r.error == Data(h).error
  {
    var data :- Data(h);
    Success(|data|)
  }

  /**
   `Parse`: fewer than 8 bytes is an invalid package; otherwise the size is
   bytes 0..2 unsigned, the type byte 3, and the deja vu bytes 4..7 as a
   signed 32-bit value (the shifted bytes do not overlap, so the ORs of the
   source are these sums). Bytes past the eighth are ignored.
   */
  function Parse(data: Bytes): (r: Result<Header>)
    ensures r.Failure? <==> |data| < HEADER_SIZE
    ensures r.Failure? ==> r.error == InvalidPackageSize
    ensures r.Success? ==> 0 <= r.value.size <= MAX_SIZE && 0 <= r.value.packageType <= 255 && Encodable(r.value)
    ensures r.Success? ==> ToLE(r.value.size, 3) == data[..3] && r.value.packageType == data[3] && ToLE(r.value.dejaVu, 4) == data[4..8]
  {
    if |data| < HEADER_SIZE then Failure(InvalidPackageSize)
    else
      Pow256Values();
      ToLEFromLE(data[..3]);
      ToLEFromLESigned(data[4..8]);
      Success(Header(FromLE(data[..3]), data[3], FromLESigned(data[4..8])))
  }

  /** Only the first 8 bytes matter to `Parse`. */
  lemma ParseIgnoresTail(data: Bytes)
    requires |data| >= HEADER_SIZE
    ensures Parse(data) == Parse(data[..HEADER_SIZE])
  {
    assert data[..HEADER_SIZE][..3] == data[..3];
    assert data[..HEADER_SIZE][4..8] == data[4..8];
  }

  /** Encode then parse restores every field of a header whose size is in 0..2^24-1. */
  lemma ParseData(h: Header)
    requires Encodable(h) && 0 <= h.size
    ensures Parse(Data(h).value) == Success(h)
  {
    var d := Data(h).value;
    Pow256Values();
    FromLEToLE(h.size, 3);
    FromLESignedToLE(h.dejaVu, 4);
    assert d[4..8] == d[4..];
  }

  /** Parse then encode gives back the first 8 bytes. */
  lemma DataParse(data: Bytes)
    requires |data| >= HEADER_SIZE
    ensures Data(Parse(data).value) == Success(data[..HEADER_SIZE])
  {
    var d := Data(Parse(data).value).value;
    assert d[..3] == data[..3];
    assert d[4..] == data[4..8];
    assert d == d[..3] + [d[3]] + d[4..];
    assert data[..HEADER_SIZE] == data[..3] + [data[3]] + data[4..8];
  }

  /** A negative size passes the encoder's check but comes back as a different, positive size. */
  lemma NegativeSizeNotRestored(h: Header)
    requires Encodable(h) && -(TWO_24 as int) <= h.size < 0
    ensures Parse(Data(h).value).value.size == h.size + TWO_24
  {
    var d := Data(h).value;
    Pow256Values();
    ToLEShift(h.size, 3);
    FromLEToLE(h.size + TWO_24, 3);
  }

  /**
   `new RequestResponseHeader(packageType, payloadSize)`: the type is set,
   then the size is the payload size plus the encoded header length (32-bit
   wrap-around), or just that length without a payload. Measuring the
   header encodes it, so an out-of-range type throws here already.
   */
  function New(packageType: Option<int32>, payloadSize: Option<int32>): (r: Result<Header>)
    ensures r.Success? <==> (packageType.None? || 0 <= packageType.value <= 255)
    ensures r.Failure? ==> r.error == TypeOutOfRange
    ensures r.Success? ==> r.value.packageType == (if packageType.Some? then packageType.value else 0) && r.value.dejaVu == 0
    ensures r.Success? && payloadSize.None? ==> r.value.size == HEADER_SIZE
    ensures r.Success? && payloadSize.Some? ==> r.value.size == WrapInt32(payloadSize.value + HEADER_SIZE)
  {
    var typed := Header(0, if packageType.Some? then packageType.value else 0, 0);
    var headerSize :- PackageSize(typed);
    if payloadSize.Some? then Success(typed.(size := WrapInt32(payloadSize.value + headerSize)))
    else Success(typed.(size := headerSize))
  }

  /** A payload of `p` bytes, 0 <= p < 2^24 - 8, gives size exactly `p + 8`, which encodes. */
  lemma NewSizeFits(packageType: int32, p: int32)
    requires 0 <= packageType <= 255 && 0 <= p <= MAX_SIZE - HEADER_SIZE
    ensures New(Some(packageType), Some(p)).Success?
    ensures New(Some(packageType), Some(p)).value.size == p + HEADER_SIZE
    ensures Encodable(New(Some(packageType), Some(p)).value)
  {
  }

  /**
   `RandomizeDejaVu`: the tag becomes `random`, a value `Random.Next(0,
   int.MaxValue)` produced, so one in [0, 2^31 - 1); nothing else changes.
   */
  function RandomizeDejaVu(h: Header, random: int): (r: Header)
    requires 0 <= random < 0x7FFF_FFFF
    ensures 0 <= r.dejaVu < 0x7FFF_FFFF && r.dejaVu == random
    ensures r.size == h.size && r.packageType == h.packageType
  {
    h.(dejaVu := random)
  }
}
