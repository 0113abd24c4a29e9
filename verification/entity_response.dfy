/**
 `QubicEntityResponse`: the 840-byte answer to an entity request: the
 64-byte entity, the tick and spectrum index (signed 32-bit little-endian)
 and the 768 bytes of Merkle siblings (24 levels of 32-byte digests).
 */
module EntityResponse {
  import opened Bytes
  import opened Wrappers
  import DataView
  import Definitions
  import Entity
  import PackageBuilder

  const ENTITY_RESPONSE_SIZE: nat := 840
  const SIBLINGS_SIZE: nat := 768

  datatype QubicEntityResponse = QubicEntityResponse(entity: Entity.QubicEntity, tick: int32, spectrumIndex: int32, siblings: Bytes)

  /** `new QubicEntityResponse()`: a default entity, zero tick and index, no siblings. */
  function Default(): (r: QubicEntityResponse)
    ensures r.entity == Entity.Default() && r.tick == 0 && r.spectrumIndex == 0 && r.siblings == []
  {
    QubicEntityResponse(Entity.Default(), 0, 0, [])
  }

  lemma SiblingsSize()
    ensures SIBLINGS_SIZE == Definitions.SPECTRUM_DEPTH * Definitions.DIGEST_LENGTH
    ensures ENTITY_RESPONSE_SIZE == Entity.ENTITY_SIZE + 4 + 4 + SIBLINGS_SIZE
  {
  }

  /**
   `GetPackageData`: the entity's own encoding, the two counters and the
   siblings in an 840-byte builder, so always 840 bytes, zero-filled after
   siblings shorter than 768. It fails when the entity cannot be encoded or
   the siblings do not fit.
   */
  function Data(r: QubicEntityResponse): (d: Result<Bytes>)
    ensures d.Success? <==> Entity.Data(r.entity).Success? && |r.siblings| <= SIBLINGS_SIZE
    ensures d.Success? ==> |d.value| == ENTITY_RESPONSE_SIZE
    ensures d.Success? ==> d.value == Entity.Data(r.entity).value + ToLE(r.tick, 4) + ToLE(r.spectrumIndex, 4) + r.siblings + Zeros(SIBLINGS_SIZE - |r.siblings|)
  {
    var entityData :- Entity.Data(r.entity);
    assert |entityData| == Entity.ENTITY_SIZE;
    PackageBuilder.Concat4(entityData, ToLE(r.tick, 4), ToLE(r.spectrumIndex, 4), r.siblings);
    PackageBuilder.Pack(ENTITY_RESPONSE_SIZE, [entityData] + [ToLE(r.tick, 4)] + [ToLE(r.spectrumIndex, 4)] + [r.siblings])
  }

  /** `GetPackageSize`: the length of the encoding, so 840 whenever it can be encoded. */
  function PackageSize(r: QubicEntityResponse): (n: Result<nat>)
    ensures n.Success? <==> Data(r).Success?
    ensures n.Success? ==> n.value == ENTITY_RESPONSE_SIZE
  {
    var data :- Data(r);
    Success(|data|)
  }

  /**
   `Parse`: anything but 840 bytes is an invalid package; otherwise the
   entity is parsed from bytes 0..63, the tick and index are the signed
   values at 64 and 68, and the siblings are everything from 72 on.
   */
  function Parse(data: Bytes): (r: Result<QubicEntityResponse>)
    ensures r.Failure? <==> |data| != ENTITY_RESPONSE_SIZE
    ensures r.Failure? ==> r.error == InvalidPackageSize
    ensures r.Success? ==> Entity.Parse(data[0..64]) == Success(r.value.entity)
    ensures r.Success? ==> ToLE(r.value.tick, 4) == data[64..68] && ToLE(r.value.spectrumIndex, 4) == data[68..72]
    ensures r.Success? ==> r.value.siblings == data[72..] && |r.value.siblings| == SIBLINGS_SIZE
  {
    if |data| != ENTITY_RESPONSE_SIZE then Failure(InvalidPackageSize)
    else
      var entity := Entity.Parse(data[0..64]).value;
      Success(QubicEntityResponse(entity, DataView.GetInt32(data, 64), DataView.GetInt32(data, 68), data[72..]))
  }

  lemma Fields4(a: Bytes, b: Bytes, c: Bytes, d: Bytes)
    requires |a| == 64 && |b| == 4 && |c| == 4
    ensures var s := a + b + c + d;
      s[0..64] == a && s[64..68] == b && s[68..72] == c && s[72..] == d
  {
    var s := a + b + c + d;
    assert s[0..64] == a;
    assert s[64..68] == b;
    assert s[68..72] == c;
    assert s[72..] == d;
  }

  lemma Join4(s: Bytes, a: Bytes, b: Bytes, c: Bytes, d: Bytes)
    requires |s| == 840
    requires a == s[0..64] && b == s[64..68] && c == s[68..72] && d == s[72..]
    ensures s == a + b + c + d
  {
    assert s[..68] == s[0..64] + s[64..68];
    assert s[..72] == s[..68] + s[68..72];
    assert s == s[..72] + s[72..];
  }

  /** Encode then parse gives the response back when the entity has a 32-byte key and there are 768 sibling bytes. */
  lemma ParseData(r: QubicEntityResponse)
    requires |r.entity.publicKey.bytes| == 32 && |r.siblings| == SIBLINGS_SIZE
    ensures Data(r).Success? && Parse(Data(r).value) == Success(r)
  {
    Entity.ParseData(r.entity);
    var entityData := Entity.Data(r.entity).value;
    var d := Data(r).value;
    assert Zeros(0) == [];
    assert d == entityData + ToLE(r.tick, 4) + ToLE(r.spectrumIndex, 4) + r.siblings;
    Fields4(entityData, ToLE(r.tick, 4), ToLE(r.spectrumIndex, 4), r.siblings);
    var p := Parse(d).value;
    Pow256Values();
    SignedSlot(p.tick, r.tick, 4);
    SignedSlot(p.spectrumIndex, r.spectrumIndex, 4);
  }

  /** With fewer siblings, parsing the encoding yields them zero-padded to 768 bytes. */
  lemma ParseDataPads(r: QubicEntityResponse)
    requires |r.entity.publicKey.bytes| == 32 && |r.siblings| <= SIBLINGS_SIZE
    ensures Data(r).Success?
    ensures Parse(Data(r).value) == Success(r.(siblings := r.siblings + Zeros(SIBLINGS_SIZE - |r.siblings|)))
  {
    var padded := r.(siblings := r.siblings + Zeros(SIBLINGS_SIZE - |r.siblings|));
    Entity.ParseData(r.entity);
    assert Data(r).Success?;
    assert Data(padded).Success?;
    var entityData := Entity.Data(r.entity).value;
    var tail := ToLE(r.tick, 4) + ToLE(r.spectrumIndex, 4);
    assert Data(r).value == entityData + ToLE(r.tick, 4) + ToLE(r.spectrumIndex, 4) + r.siblings + Zeros(SIBLINGS_SIZE - |r.siblings|);
    assert Data(padded).value == entityData + ToLE(r.tick, 4) + ToLE(r.spectrumIndex, 4) + padded.siblings + Zeros(0);
    assert Zeros(0) == [];
    Regroup(entityData, ToLE(r.tick, 4), ToLE(r.spectrumIndex, 4), r.siblings, Zeros(SIBLINGS_SIZE - |r.siblings|));
    assert Data(r).value == Data(padded).value;
    ParseData(padded);
  }

  /** Padding appended after the siblings is padding appended to the siblings. */
  lemma Regroup(a: Bytes, b: Bytes, c: Bytes, s: Bytes, z: Bytes)
    ensures a + b + c + s + z == a + b + c + (s + z) + []
  {
  }

  /** Parse then encode is the identity on 840-byte inputs. */
  lemma DataParse(data: Bytes)
    requires |data| == ENTITY_RESPONSE_SIZE
    ensures Parse(data).Success? && Data(Parse(data).value) == Success(data)
  {
    var r := Parse(data).value;
    Entity.DataParse(data[0..64]);
    assert Entity.Data(r.entity) == Success(data[0..64]);
    Join4(data, data[0..64], ToLE(r.tick, 4), ToLE(r.spectrumIndex, 4), r.siblings);
    assert Data(r).Success?;
    var d := Data(r).value;
    assert d == data[0..64] + ToLE(r.tick, 4) + ToLE(r.spectrumIndex, 4) + r.siblings + Zeros(0);
    assert Zeros(0) == [];
    assert d == data;
  }
}
