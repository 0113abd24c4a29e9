/** `Signature`: a byte holder for a SchnorrQ signature. */
module SignatureValue {
  import opened Bytes
  import opened Wrappers
  import Definitions

  datatype Signature = Signature(bytes: Bytes)

  /** A freshly constructed signature: 64 zero bytes. */
  function Default(): (r: Signature)
    ensures |r.bytes| == Definitions.SIGNATURE_LENGTH
    ensures forall i :: 0 <= i < |r.bytes| ==> r.bytes[i] == 0
  {
    Signature(Zeros(Definitions.SIGNATURE_LENGTH))
  }

  /** `new Signature(data)`: a `null` argument leaves the default, any other array is stored as given. */
  function New(data: Option<Bytes>): (r: Signature)
    ensures data.None? ==> r == Default()
    ensures data.Some? ==> Data(r) == data.value
  {
    if data.Some? then SetSignature(Default(), data.value) else Default()
  }

  /** `SetSignature`: the bytes are stored verbatim, with no length check. */
  function SetSignature(s: Signature, bytes: Bytes): (r: Signature)
    ensures Data(r) == bytes && Size(r) == |bytes|
  {
    Signature(bytes)
  }

  /** `GetPackageData`: the stored bytes, which are all the signature holds. */
  function Data(s: Signature): (r: Bytes)
    ensures Signature(r) == s
  {
    s.bytes
  }

  /** Storing a signature's data in a fresh signature rebuilds it. */
  lemma DataRebuilds(s: Signature)
    ensures New(Some(Data(s))) == s
  {
  }

  /** `GetPackageSize`: the stored length. */
  function Size(s: Signature): (r: nat)
    ensures r == |Data(s)|
  {
    |s.bytes|
  }
}
