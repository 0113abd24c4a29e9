/** `DynamicPayload`: a transaction payload of bounded size. */
module DynamicPayloadValue {
  import opened Bytes
  import opened Wrappers

  /**
   The stored array, the number of bytes reported as filled and the bound.
   A payload built by the operations below has either nothing filled or
   its whole array filled (`Valid`).
   */
  datatype DynamicPayload = DynamicPayload(bytes: Bytes, filledSize: nat, maxSize: int) {
    predicate Valid() {
      (filledSize == 0 || filledSize == |bytes|) && filledSize <= maxSize
    }
  }

  /** `new DynamicPayload(maxSize)`: a zeroed array of that size, nothing filled; a negative size cannot be allocated. */
  function New(maxSize: int32): (r: Result<DynamicPayload>)
    ensures maxSize < 0 <==> r.Failure?
    ensures r.Failure? ==> r.error == NegativeSize
    ensures r.Success? ==> r.value.Valid() && r.value.maxSize == maxSize && Size(r.value) == 0 && Data(r.value) == []
  {
    if maxSize < 0 then Failure(NegativeSize) else Success(DynamicPayload(Zeros(maxSize), 0, maxSize))
  }

  /** `new DynamicPayload()`: no array and a bound of zero. */
  function Default(): (r: DynamicPayload)
    ensures r.Valid() && r.maxSize == 0 && Size(r) == 0 && Data(r) == []
  {
    DynamicPayload([], 0, 0)
  }

  /** `SetPayload(data)`: data longer than the bound is rejected; otherwise it replaces the array. */
  function SetPayload(p: DynamicPayload, data: Bytes): (r: Result<DynamicPayload>)
    ensures r.Failure? <==> |data| > p.maxSize
    ensures r.Failure? ==> r.error == TooLarge
    ensures r.Success? ==> r.value.Valid() && Data(r.value) == data && Size(r.value) == |data| && r.value.maxSize == p.maxSize
  {
    if |data| > p.maxSize then Failure(TooLarge)
    else Success(p.(bytes := data, filledSize := |data|))
  }

  /** `GetPackageData`: nothing while unfilled, else the array. */
  function Data(p: DynamicPayload): (r: Bytes)
    ensures p.Valid() ==> r == p.bytes[..p.filledSize]
  {
    if p.filledSize == 0 then [] else p.bytes
  }

  /** `GetPackageSize`: the filled size, which is the data's length for a valid payload. */
  function Size(p: DynamicPayload): (r: nat)
    ensures p.Valid() ==> r == |Data(p)|
  {
    p.filledSize
  }

  /** Repeated `SetPayload` calls: the last one wins. */
  lemma SetPayloadLastWins(p: DynamicPayload, a: Bytes, b: Bytes)
    requires SetPayload(p, a).Success?
    ensures SetPayload(SetPayload(p, a).value, b) == SetPayload(p, b)
  {
  }

  /** The parameterless payload accepts only empty data. */
  lemma DefaultAcceptsOnlyEmpty(data: Bytes)
    ensures SetPayload(Default(), data).Success? <==> data == []
  {
  }
}
