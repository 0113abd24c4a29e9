/** `Long`: a signed 64-bit amount carried on the wire as 8 little-endian bytes. */
module LongValue {
  import opened Bytes
  import opened Wrappers

  const LONG_SIZE: nat := 8

  datatype Long = Long(number: int64)

  /** `new Long()` and `new Long(n)`: the wrapped number, zero by default. */
  function New(initialValue: Option<int64>): (r: Long)
    ensures initialValue.None? ==> r.number == 0
    ensures initialValue.Some? ==> r.number == initialValue.value
  {
    Long(if initialValue.Some? then initialValue.value else 0)
  }

  /** `SetNumber(n)`: only the number is replaced. */
  function SetNumber(l: Long, n: int64): (r: Long)
    ensures r.number == n
  {
    l.(number := n)
  }

  /** `GetPackageData`: the 8 little-endian bytes of the number, which read back as it. */
  function Data(l: Long): (r: Bytes)
    ensures |r| == LONG_SIZE
    ensures FromLESigned(r) == l.number
  {
    Pow256Values();
    FromLESignedToLE(l.number, LONG_SIZE);
    ToLE(l.number, LONG_SIZE)
  }

  /** `GetPackageSize`: always 8, the length of the data. */
  function Size(l: Long): (r: nat)
    ensures r == |Data(l)|
  {
    LONG_SIZE
  }

  /** `new Long(byte[])`: exactly 8 bytes, read as a signed little-endian number. */
  function FromBytes(b: Bytes): (r: Result<Long>)
    ensures r.Failure? <==> |b| != LONG_SIZE
    ensures r.Failure? ==> r.error == WrongLength
    ensures r.Success? ==> Data(r.value) == b
  {
    if |b| != LONG_SIZE then Failure(WrongLength)
    else
      Pow256Values();
      ToLEFromLESigned(b);
      Success(Long(FromLESigned(b)))
  }

  /** Encoding then decoding gives the number back. */
  lemma FromBytesData(l: Long)
    ensures FromBytes(Data(l)) == Success(l)
  {
    var b := Data(l);
    var r := FromBytes(b);
    assert FromLESigned(b) == l.number;
  }

  /** Two numbers with the same encoding are equal: `Data` is injective. */
  lemma DataInjective(a: Long, b: Long)
    requires Data(a) == Data(b)
    ensures a == b
  {
    assert FromLESigned(Data(a)) == a.number;
  }
}
