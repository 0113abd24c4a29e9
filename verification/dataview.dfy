/**
 Offset reads and writes of little-endian integers inside a byte buffer
 (the `DataView` helper class, and the getters the codec uses on it).
 Offsets are computed by the callers from fixed layouts, so staying inside
 the buffer is a precondition here, as it is for `Array.Copy`.
 */
module DataView {
  import opened Bytes

  /** `buffer` with `data` copied over it from `offset` on. */
  function Write(buffer: Bytes, offset: nat, data: Bytes): (r: Bytes)
    requires offset + |data| <= |buffer|
    ensures |r| == |buffer|
    ensures r[offset..offset + |data|] == data
    ensures forall i :: 0 <= i < |buffer| && !(offset <= i < offset + |data|) ==> r[i] == buffer[i]
  {
    buffer[..offset] + data + buffer[offset + |data|..]
  }

  function GetUint16(buffer: Bytes, offset: nat): (r: uint16)
    requires offset + 2 <= |buffer|
    ensures ToLE(r, 2) == buffer[offset..offset + 2]
  {
    Pow256Values();
    ToLEFromLE(buffer[offset..offset + 2]);
    FromLE(buffer[offset..offset + 2])
  }

  function GetUint32(buffer: Bytes, offset: nat): (r: uint32)
    requires offset + 4 <= |buffer|
    ensures ToLE(r, 4) == buffer[offset..offset + 4]
  {
    Pow256Values();
    ToLEFromLE(buffer[offset..offset + 4]);
    FromLE(buffer[offset..offset + 4])
  }

  function GetBigUint64(buffer: Bytes, offset: nat): (r: uint64)
    requires offset + 8 <= |buffer|
    ensures ToLE(r, 8) == buffer[offset..offset + 8]
  {
    Pow256Values();
    ToLEFromLE(buffer[offset..offset + 8]);
    FromLE(buffer[offset..offset + 8])
  }

  function GetInt32(buffer: Bytes, offset: nat): (r: int32)
    requires offset + 4 <= |buffer|
    ensures ToLE(r, 4) == buffer[offset..offset + 4]
  {
    Pow256Values();
    ToLEFromLESigned(buffer[offset..offset + 4]);
    FromLESigned(buffer[offset..offset + 4])
  }

  function GetInt64(buffer: Bytes, offset: nat): (r: int64)
    requires offset + 8 <= |buffer|
    ensures ToLE(r, 8) == buffer[offset..offset + 8]
  {
    Pow256Values();
    ToLEFromLESigned(buffer[offset..offset + 8]);
    FromLESigned(buffer[offset..offset + 8])
  }

  function SetBigUint64(buffer: Bytes, offset: nat, value: uint64): (r: Bytes)
    requires offset + 8 <= |buffer|
    ensures |r| == |buffer|
    ensures GetBigUint64(r, offset) == value
    ensures forall i :: 0 <= i < |buffer| && !(offset <= i < offset + 8) ==> r[i] == buffer[i]
  {
    var r := Write(buffer, offset, ToLE(value, 8));
    Pow256Values();
    FromLEToLE(value, 8);
    r
  }

  function SetBigInt64(buffer: Bytes, offset: nat, value: int64): (r: Bytes)
    requires offset + 8 <= |buffer|
    ensures |r| == |buffer|
    ensures GetInt64(r, offset) == value
    ensures forall i :: 0 <= i < |buffer| && !(offset <= i < offset + 8) ==> r[i] == buffer[i]
  {
    var r := Write(buffer, offset, ToLE(value, 8));
    Pow256Values();
    FromLESignedToLE(value, 8);
    r
  }

  function SetInt32(buffer: Bytes, offset: nat, value: int32): (r: Bytes)
    requires offset + 4 <= |buffer|
    ensures |r| == |buffer|
    ensures GetInt32(r, offset) == value
    ensures forall i :: 0 <= i < |buffer| && !(offset <= i < offset + 4) ==> r[i] == buffer[i]
  {
    var r := Write(buffer, offset, ToLE(value, 4));
    Pow256Values();
    FromLESignedToLE(value, 4);
    r
  }

  function SetInt16(buffer: Bytes, offset: nat, value: int16): (r: Bytes)
    requires offset + 2 <= |buffer|
    ensures |r| == |buffer|
    ensures r[offset..offset + 2] == ToLE(value, 2)
    ensures forall i :: 0 <= i < |buffer| && !(offset <= i < offset + 2) ==> r[i] == buffer[i]
  {
    Write(buffer, offset, ToLE(value, 2))
  }
}
