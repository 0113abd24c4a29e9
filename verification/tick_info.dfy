/** `QubicTickInfo`: the 16-byte current-tick report of a peer, all fields unsigned little-endian. */
module TickInfo {
  import opened Bytes
  import opened Wrappers
  import DataView
  import PackageBuilder

  const TICK_INFO_SIZE: nat := 16

  datatype QubicTickInfo = QubicTickInfo(
    tickDuration: uint16,
    epoch: uint16,
    tick: uint32,
    numberOfAlignedVotes: uint16,
    numberOfMisalignedVotes: uint16,
    initialTick: uint32)

  function Layout(t: QubicTickInfo): Bytes
  {
    ToLE(t.tickDuration, 2) + ToLE(t.epoch, 2) + ToLE(t.tick, 4)
      + ToLE(t.numberOfAlignedVotes, 2) + ToLE(t.numberOfMisalignedVotes, 2) + ToLE(t.initialTick, 4)
  }

  /**
   `GetPackageData`: `AddShort`, `AddShort`, `AddInt`, `AddShort`,
   `AddShort`, `AddInt` into a 16-byte builder, which they fill exactly.
   Each unsigned field is handed over as the signed type of its width; the
   bytes written are the same.
   */
  function Data(t: QubicTickInfo): (r: Bytes)
    ensures |r| == TICK_INFO_SIZE
    ensures r[0..2] == ToLE(t.tickDuration, 2) && r[2..4] == ToLE(t.epoch, 2) && r[4..8] == ToLE(t.tick, 4)
    ensures r[8..10] == ToLE(t.numberOfAlignedVotes, 2) && r[10..12] == ToLE(t.numberOfMisalignedVotes, 2) && r[12..16] == ToLE(t.initialTick, 4)
  {
    var parts := [ToLE(t.tickDuration, 2)] + [ToLE(t.epoch, 2)] + [ToLE(t.tick, 4)]
      + [ToLE(t.numberOfAlignedVotes, 2)] + [ToLE(t.numberOfMisalignedVotes, 2)] + [ToLE(t.initialTick, 4)];
    PackageBuilder.Concat6(ToLE(t.tickDuration, 2), ToLE(t.epoch, 2), ToLE(t.tick, 4),
      ToLE(t.numberOfAlignedVotes, 2), ToLE(t.numberOfMisalignedVotes, 2), ToLE(t.initialTick, 4));
    Fields6(ToLE(t.tickDuration, 2), ToLE(t.epoch, 2), ToLE(t.tick, 4),
      ToLE(t.numberOfAlignedVotes, 2), ToLE(t.numberOfMisalignedVotes, 2), ToLE(t.initialTick, 4));
    PackageBuilder.Pack(TICK_INFO_SIZE, parts).value
  }

  /**
   `Parse`: anything but 16 bytes is an invalid package; otherwise the
   unsigned values at 0, 2 (2 bytes), 4 (4 bytes), 8, 10 (2 bytes) and 12
   (4 bytes).
   */
  function Parse(data: Bytes): (r: Result<QubicTickInfo>)
    ensures r.Failure? <==> |data| != TICK_INFO_SIZE
    ensures r.Failure? ==> r.error == InvalidPackageSize
    ensures r.Success? ==> ToLE(r.value.tickDuration, 2) == data[0..2] && ToLE(r.value.epoch, 2) == data[2..4] && ToLE(r.value.tick, 4) == data[4..8]
    ensures r.Success? ==> ToLE(r.value.numberOfAlignedVotes, 2) == data[8..10] && ToLE(r.value.numberOfMisalignedVotes, 2) == data[10..12]
    ensures r.Success? ==> ToLE(r.value.initialTick, 4) == data[12..16]
  {
    if |data| != TICK_INFO_SIZE then Failure(InvalidPackageSize)
    else
      Success(QubicTickInfo(
        DataView.GetUint16(data, 0),
        DataView.GetUint16(data, 2),
        DataView.GetUint32(data, 4),
        DataView.GetUint16(data, 8),
        DataView.GetUint16(data, 10),
        DataView.GetUint32(data, 12)))
  }

  lemma Fields6(a: Bytes, b: Bytes, c: Bytes, d: Bytes, e: Bytes, f: Bytes)
    requires |a| == 2 && |b| == 2 && |c| == 4 && |d| == 2 && |e| == 2 && |f| == 4
    ensures var s := a + b + c + d + e + f;
      s[0..2] == a && s[2..4] == b && s[4..8] == c && s[8..10] == d && s[10..12] == e && s[12..16] == f
  {
    var s := a + b + c + d + e + f;
    assert s[0..2] == a;
    assert s[2..4] == b;
    assert s[4..8] == c;
    assert s[8..10] == d;
    assert s[10..12] == e;
    assert s[12..16] == f;
  }

  lemma Join6(s: Bytes)
    requires |s| == 16
    ensures s == s[0..2] + s[2..4] + s[4..8] + s[8..10] + s[10..12] + s[12..16]
  {
    assert s[..4] == s[0..2] + s[2..4];
    assert s[..8] == s[..4] + s[4..8];
    assert s[..10] == s[..8] + s[8..10];
    assert s[..12] == s[..10] + s[10..12];
    assert s == s[..12] + s[12..16];
  }

  /** Encode then parse is the identity. */
  lemma ParseData(t: QubicTickInfo)
    ensures Parse(Data(t)) == Success(t)
  {
    var p := Parse(Data(t)).value;
    Pow256Values();
    UnsignedSlot(p.tickDuration, t.tickDuration, 2);
    UnsignedSlot(p.epoch, t.epoch, 2);
    UnsignedSlot(p.tick, t.tick, 4);
    UnsignedSlot(p.numberOfAlignedVotes, t.numberOfAlignedVotes, 2);
    UnsignedSlot(p.numberOfMisalignedVotes, t.numberOfMisalignedVotes, 2);
    UnsignedSlot(p.initialTick, t.initialTick, 4);
  }

  /** Parse then encode is the identity on 16-byte inputs. */
  lemma DataParse(data: Bytes)
    requires |data| == TICK_INFO_SIZE
    ensures Parse(data).Success? && Data(Parse(data).value) == data
  {
    var d := Data(Parse(data).value);
    Join6(data);
    Join6(d);
  }
}
