/**
 `QubicTransferSendManyPayload`: up to 25 transfers for the QUtil
 send-many procedure, encoded in 1000 bytes as 25 destination keys
 followed by 25 amounts.
 */
module SendMany {
  import opened Bytes
  import opened Wrappers
  import opened Crypto
  import Definitions
  import DataView
  import Identity
  import KeyHelper
  import LongValue
  import PublicKeyValue
  import DynamicPayloadValue
  import PackageBuilder

  const SEND_MANY_SIZE: nat := 1000
  const MAX_TRANSFERS: nat := 25
  const AMOUNTS_OFFSET: nat := 800

  datatype SendManyTransfer = SendManyTransfer(destId: PublicKeyValue.PublicKey, amount: LongValue.Long)

  datatype QubicTransferSendManyPayload = QubicTransferSendManyPayload(transfers: seq<SendManyTransfer>)

  /** `new QubicTransferSendManyPayload()`: no transfers. */
  function Default(): (r: QubicTransferSendManyPayload)
    ensures Valid(r) && |r.transfers| == 0
  {
    QubicTransferSendManyPayload([])
  }

  /** What the adders maintain: at most 25 transfers. */
  predicate Valid(p: QubicTransferSendManyPayload)
  {
    |p.transfers| <= MAX_TRANSFERS
  }

  /** `AddTransfer(transfer)`: appended while fewer than 25 are held, rejected otherwise. */
  function AddTransfer(p: QubicTransferSendManyPayload, transfer: SendManyTransfer): (r: Result<QubicTransferSendManyPayload>)
    ensures r.Success? <==> |p.transfers| < MAX_TRANSFERS
    ensures r.Failure? ==> r.error == CapacityExceeded
    ensures r.Success? ==> r.value.transfers == p.transfers + [transfer]
  {
    if |p.transfers| < MAX_TRANSFERS then Success(p.(transfers := p.transfers + [transfer]))
    else Failure(CapacityExceeded)
  }

  /** The `foreach` of `AddTransfers`: `AddTransfer` for each transfer in order, stopping at the first failure. */
  function AddEach(p: QubicTransferSendManyPayload, transfers: seq<SendManyTransfer>): Result<QubicTransferSendManyPayload>
  {
    if |transfers| == 0 then Success(p)
    else
      var init :- AddEach(p, transfers[..|transfers| - 1]);
      AddTransfer(init, transfers[|transfers| - 1])
  }

  /** The loop of single adds succeeds exactly when everything fits, and then appends all transfers in order. */
  lemma {:induction false} AddEachAppends(p: QubicTransferSendManyPayload, transfers: seq<SendManyTransfer>)
    requires Valid(p)
    ensures AddEach(p, transfers).Success? <==> |p.transfers| + |transfers| <= MAX_TRANSFERS
    ensures AddEach(p, transfers).Success? ==> AddEach(p, transfers).value.transfers == p.transfers + transfers
  {
    if |transfers| > 0 {
      var init := transfers[..|transfers| - 1];
      AddEachAppends(p, init);
      assert p.transfers + init + [transfers[|transfers| - 1]] == p.transfers + transfers;
    } else {
      assert p.transfers + transfers == p.transfers;
    }
  }

  /**
   `AddTransfers(transfers)`: the whole list is refused when the total
   would pass 25, before anything is added; otherwise every transfer is
   appended in order.
   */
  function AddTransfers(p: QubicTransferSendManyPayload, transfers: seq<SendManyTransfer>): (r: Result<QubicTransferSendManyPayload>)
    ensures r.Success? <==> |p.transfers| + |transfers| <= MAX_TRANSFERS
    ensures r.Failure? ==> r.error == CapacityExceeded
    ensures r.Success? ==> r.value.transfers == p.transfers + transfers && Valid(r.value)
  {
    if |p.transfers| + |transfers| > MAX_TRANSFERS then Failure(CapacityExceeded)
    else
      AddEachAppends(p, transfers);
      AddEach(p, transfers)
  }

  /** The mathematical sum of the amounts. */
  function AmountSum(transfers: seq<SendManyTransfer>): int
  {
    if |transfers| == 0 then 0 else AmountSum(transfers[..|transfers| - 1]) + transfers[|transfers| - 1].amount.number
  }

  /** The `foreach` of `GetTotalAmount`: a running `long` total, wrapping on overflow. */
  function RunningTotal(transfers: seq<SendManyTransfer>): int64
  {
    if |transfers| == 0 then 0 else WrapInt64(RunningTotal(transfers[..|transfers| - 1]) + transfers[|transfers| - 1].amount.number)
  }

  /** `GetTotalAmount`: the sum of the amounts modulo 2^64, and exactly the sum when that fits a `long`. */
  function TotalAmount(p: QubicTransferSendManyPayload): (r: int64)
    ensures (r - AmountSum(p.transfers)) % TWO_64 == 0
    ensures -(TWO_64 / 2) <= AmountSum(p.transfers) < TWO_64 / 2 ==> r == AmountSum(p.transfers)
  {
    RunningTotalCongruent(p.transfers);
    var r := RunningTotal(p.transfers);
    if -(TWO_64 / 2) <= AmountSum(p.transfers) < TWO_64 / 2 then
      CongruentInt64(r, AmountSum(p.transfers));
      r
    else r
  }

  lemma {:induction false} RunningTotalCongruent(transfers: seq<SendManyTransfer>)
    ensures (RunningTotal(transfers) - AmountSum(transfers)) % TWO_64 == 0
  {
    if |transfers| > 0 {
      var init := transfers[..|transfers| - 1];
      var a := transfers[|transfers| - 1].amount.number;
      RunningTotalCongruent(init);
      var t := RunningTotal(init);
      var s := AmountSum(init);
      var r := RunningTotal(transfers);
      assert (r - (t + a)) % TWO_64 == 0;
      SumOfMultiples(r - (t + a), t - s);
      assert r - AmountSum(transfers) == (r - (t + a)) + (t - s);
    }
  }

  lemma SumOfMultiples(x: int, y: int)
    requires x % TWO_64 == 0 && y % TWO_64 == 0
    ensures (x + y) % TWO_64 == 0
  {
    assert x == TWO_64 * (x / TWO_64);
    assert y == TWO_64 * (y / TWO_64);
    assert x + y == TWO_64 * (x / TWO_64 + y / TWO_64);
  }

  /** Two values of the `long` range that agree modulo 2^64 are equal. */
  lemma CongruentInt64(a: int, b: int)
    requires -(TWO_64 / 2) <= a < TWO_64 / 2 && -(TWO_64 / 2) <= b < TWO_64 / 2
    requires (a - b) % TWO_64 == 0
    ensures a == b
  {
    var k := (a - b) / TWO_64;
    assert a - b == TWO_64 * k;
  }

  /** Slot `i` is sent: it holds a transfer whose amount is positive. */
  predicate Sent(p: QubicTransferSendManyPayload, i: nat)
  {
    i < |p.transfers| && p.transfers[i].amount.number > 0
  }

  /** The key `GetPackageData` writes for slot `i`: the destination, or `PublicKey(EMPTY_ADDRESS)`. */
  function KeyPart(p: QubicTransferSendManyPayload, i: nat): Bytes
  {
    if Sent(p, i) then PublicKeyValue.Data(p.transfers[i].destId)
    else PublicKeyValue.Data(PublicKeyValue.EmptyAddressKey())
  }

  /** The amount `GetPackageData` writes for slot `i`: the transfer's amount, or `Long(0)`. */
  function AmountPart(p: QubicTransferSendManyPayload, i: nat): Bytes
  {
    if Sent(p, i) then LongValue.Data(p.transfers[i].amount) else LongValue.Data(LongValue.Long(0))
  }

  /** The 50 pieces the two loops of `GetPackageData` append. */
  function Parts(p: QubicTransferSendManyPayload): seq<Bytes>
  {
    KeyParts(p) + AmountParts(p)
  }

  function KeyParts(p: QubicTransferSendManyPayload): seq<Bytes>
  {
    seq(MAX_TRANSFERS, i requires 0 <= i < MAX_TRANSFERS => KeyPart(p, i))
  }

  function AmountParts(p: QubicTransferSendManyPayload): seq<Bytes>
  {
    seq(MAX_TRANSFERS, i requires 0 <= i < MAX_TRANSFERS => AmountPart(p, i))
  }

  /**
   Every sent transfer in the 25 slots has a 32-byte destination. The
   destination of an unsent transfer is never read, whatever its length.
   */
  predicate Encodable(p: QubicTransferSendManyPayload)
  {
    forall i :: 0 <= i < MAX_TRANSFERS && Sent(p, i) ==> |p.transfers[i].destId.bytes| == Definitions.PUBLIC_KEY_LENGTH
  }

  /**
   `GetPackageData`: the pieces appended to a 1000-byte builder. When
   every sent transfer has a 32-byte destination the result is 1000 bytes
   holding, for each slot `i` below 25, the destination (or zeros) at
   32·i and the amount (or 0) at 800 + 8·i; a slot is filled only when it
   holds a transfer with a positive amount.
   */
  function Data(p: QubicTransferSendManyPayload): (r: Result<Bytes>)
    ensures r.Failure? ==> r.error == OutOfRange
    ensures Encodable(p) ==> r.Success? && |r.value| == SEND_MANY_SIZE
    ensures Encodable(p) ==> forall i :: 0 <= i < MAX_TRANSFERS ==>
      r.value[32 * i..32 * i + 32] == (if Sent(p, i) then p.transfers[i].destId.bytes else Zeros(32))
    ensures Encodable(p) ==> forall i :: 0 <= i < MAX_TRANSFERS ==>
      r.value[AMOUNTS_OFFSET + 8 * i..AMOUNTS_OFFSET + 8 * i + 8] == LongValue.Data(if Sent(p, i) then p.transfers[i].amount else LongValue.Long(0))
  {
    var r := PackageBuilder.Pack(SEND_MANY_SIZE, Parts(p));
    if Encodable(p) then
      Layout(p);
      forall i | 0 <= i < MAX_TRANSFERS ensures KeyPart(p, i) == (if Sent(p, i) then p.transfers[i].destId.bytes else Zeros(32))
        && AmountPart(p, i) == LongValue.Data(if Sent(p, i) then p.transfers[i].amount else LongValue.Long(0)) { PartValues(p, i); }
      r
    else r
  }

  /**
   The destination of an unsent transfer never reaches the encoding: two
   payloads with the same amounts whose sent transfers agree encode alike.
   */
  lemma UnsentDestinationIgnored(p: QubicTransferSendManyPayload, q: QubicTransferSendManyPayload)
    requires |p.transfers| == |q.transfers|
    requires forall i :: 0 <= i < |p.transfers| ==> p.transfers[i].amount == q.transfers[i].amount
    requires forall i :: 0 <= i < |p.transfers| && Sent(p, i) ==> p.transfers[i].destId == q.transfers[i].destId
    ensures Data(p) == Data(q)
  {
    assert KeyParts(p) == KeyParts(q) by {
      forall i | 0 <= i < MAX_TRANSFERS
        ensures KeyPart(p, i) == KeyPart(q, i)
      {
        assert Sent(p, i) <==> Sent(q, i);
      }
    }
    assert AmountParts(p) == AmountParts(q) by {
      forall i | 0 <= i < MAX_TRANSFERS
        ensures AmountPart(p, i) == AmountPart(q, i)
      {
        assert Sent(p, i) <==> Sent(q, i);
      }
    }
  }

  /** The pieces of slot `i`, as `Data` promises them. */
  lemma PartValues(p: QubicTransferSendManyPayload, i: nat)
    requires Encodable(p)
    ensures KeyPart(p, i) == (if Sent(p, i) then p.transfers[i].destId.bytes else Zeros(32))
    ensures AmountPart(p, i) == LongValue.Data(if Sent(p, i) then p.transfers[i].amount else LongValue.Long(0))
  {
  }

  lemma {:induction false} Layout(p: QubicTransferSendManyPayload)
    requires Encodable(p)
    ensures |PackageBuilder.Concat(Parts(p))| == SEND_MANY_SIZE
    ensures forall i :: 0 <= i < MAX_TRANSFERS ==>
      PackageBuilder.Concat(Parts(p))[32 * i..32 * i + 32] == KeyPart(p, i)
    ensures forall i :: 0 <= i < MAX_TRANSFERS ==>
      PackageBuilder.Concat(Parts(p))[AMOUNTS_OFFSET + 8 * i..AMOUNTS_OFFSET + 8 * i + 8] == AmountPart(p, i)
  {
    var k := PackageBuilder.Concat(KeyParts(p));
    var a := PackageBuilder.Concat(AmountParts(p));
    PackageBuilder.ConcatAppend(KeyParts(p), AmountParts(p));
    LayoutKeys(p);
    LayoutAmounts(p);
    FrontSlots(p, k, a);
    BackSlots(p, k, a);
  }

  /** The keys keep their slots with the amounts appended after them. */
  lemma FrontSlots(p: QubicTransferSendManyPayload, k: Bytes, a: Bytes)
    requires |k| == AMOUNTS_OFFSET
    requires forall i :: 0 <= i < MAX_TRANSFERS ==> k[32 * i..32 * i + 32] == KeyPart(p, i)
    ensures forall i :: 0 <= i < MAX_TRANSFERS ==> (k + a)[32 * i..32 * i + 32] == KeyPart(p, i)
  {
    forall i | 0 <= i < MAX_TRANSFERS
      ensures (k + a)[32 * i..32 * i + 32] == KeyPart(p, i)
    {
      PackageBuilder.SliceLeft(k, a, 32 * i, 32 * i + 32);
    }
  }

  /** The amounts keep their slots, moved on by the 800 key bytes. */
  lemma BackSlots(p: QubicTransferSendManyPayload, k: Bytes, a: Bytes)
    requires |k| == AMOUNTS_OFFSET && |a| == 8 * MAX_TRANSFERS
    requires forall i :: 0 <= i < MAX_TRANSFERS ==> a[8 * i..8 * i + 8] == AmountPart(p, i)
    ensures forall i :: 0 <= i < MAX_TRANSFERS ==>
      (k + a)[AMOUNTS_OFFSET + 8 * i..AMOUNTS_OFFSET + 8 * i + 8] == AmountPart(p, i)
  {
    forall i | 0 <= i < MAX_TRANSFERS
      ensures (k + a)[AMOUNTS_OFFSET + 8 * i..AMOUNTS_OFFSET + 8 * i + 8] == AmountPart(p, i)
    {
      PackageBuilder.SliceRight(k, a, 8 * i, 8 * i + 8);
    }
  }

  /** The 25 keys take 800 bytes, slot `i` at 32·i. */
  lemma LayoutKeys(p: QubicTransferSendManyPayload)
    requires Encodable(p)
    ensures |PackageBuilder.Concat(KeyParts(p))| == AMOUNTS_OFFSET
    ensures forall i :: 0 <= i < MAX_TRANSFERS ==>
      PackageBuilder.Concat(KeyParts(p))[32 * i..32 * i + 32] == KeyPart(p, i)
  {
    PackageBuilder.ConcatUniform(KeyParts(p), 32);
  }

  /** The 25 amounts take 200 bytes, slot `i` at 8·i. */
  lemma LayoutAmounts(p: QubicTransferSendManyPayload)
    ensures |PackageBuilder.Concat(AmountParts(p))| == 8 * MAX_TRANSFERS
    ensures forall i :: 0 <= i < MAX_TRANSFERS ==>
      PackageBuilder.Concat(AmountParts(p))[8 * i..8 * i + 8] == AmountPart(p, i)
  {
    PackageBuilder.ConcatUniform(AmountParts(p), 8);
  }

  /** `GetPackageSize`: always 1000. */
  function PackageSize(p: QubicTransferSendManyPayload): (r: nat)
    ensures r == SEND_MANY_SIZE
  {
    SEND_MANY_SIZE
  }

  /** `GetTransactionPayload`: a `DynamicPayload(1000)` holding the package data. */
  function TransactionPayload(p: QubicTransferSendManyPayload): (r: Result<DynamicPayloadValue.DynamicPayload>)
    ensures r.Success? <==> Data(p).Success?
    ensures r.Success? ==> r.value.Valid() && DynamicPayloadValue.Data(r.value) == Data(p).value
    ensures r.Success? ==> DynamicPayloadValue.Size(r.value) == PackageSize(p)
  {
    var data :- Data(p);
    DynamicPayloadValue.SetPayload(DynamicPayloadValue.New(SEND_MANY_SIZE as int32).value, data)
  }

  /** The amount in slot `i` of a 1000-byte package. */
  function SlotAmount(data: Bytes, i: nat): (r: LongValue.Long)
    requires |data| == SEND_MANY_SIZE && i < MAX_TRANSFERS
    ensures LongValue.Data(r) == data[AMOUNTS_OFFSET + 8 * i..AMOUNTS_OFFSET + 8 * i + 8]
  {
    LongValue.FromBytes(data[AMOUNTS_OFFSET + 8 * i..AMOUNTS_OFFSET + 8 * i + 8]).value
  }

  /** The destination in slot `i`, rebuilt as `Parse` does: from the identity of its 32 bytes. */
  function SlotDestination(c: Crypto, data: Bytes, i: nat): (r: PublicKeyValue.PublicKey)
    requires |data| == SEND_MANY_SIZE && i < MAX_TRANSFERS
    ensures r.bytes == data[32 * i..32 * i + 32]
  {
    PublicKeyValue.FromKeyBytes(c, data[32 * i..32 * i + 32]).value
  }

  /** The loop of `Parse` over the first `n` slots: a transfer for each slot with a positive amount, in slot order. */
  function Collect(c: Crypto, data: Bytes, n: nat): (r: seq<SendManyTransfer>)
    requires |data| == SEND_MANY_SIZE && n <= MAX_TRANSFERS
    ensures |r| <= n
    ensures AllCollectable(r)
  {
    if n == 0 then []
    else
      var init := Collect(c, data, n - 1);
      var step := CollectStep(c, data, n - 1);
      AllCollectableAppend(init, step);
      init + step
  }

  /** One turn of the loop: the transfer of slot `i` if its amount is positive. */
  function CollectStep(c: Crypto, data: Bytes, i: nat): (r: seq<SendManyTransfer>)
    requires |data| == SEND_MANY_SIZE && i < MAX_TRANSFERS
    ensures |r| <= 1
    ensures |r| == 1 <==> SlotAmount(data, i).number > 0
    ensures |r| == 1 ==> r[0] == SendManyTransfer(SlotDestination(c, data, i), SlotAmount(data, i))
  {
    var amount := SlotAmount(data, i);
    if amount.number > 0 then [SendManyTransfer(SlotDestination(c, data, i), amount)] else []
  }

  /** A transfer `Parse` may collect: a positive amount and a 32-byte destination. */
  predicate Collectable(t: SendManyTransfer)
  {
    t.amount.number > 0 && |t.destId.bytes| == Definitions.PUBLIC_KEY_LENGTH
  }

  /** Every transfer `Parse` collects has a positive amount and a 32-byte destination. */
  predicate AllCollectable(ts: seq<SendManyTransfer>)
  {
    forall k :: 0 <= k < |ts| ==> Collectable(ts[k])
  }

  lemma AllCollectableAppend(a: seq<SendManyTransfer>, b: seq<SendManyTransfer>)
    requires AllCollectable(a) && AllCollectable(b)
    ensures AllCollectable(a + b)
  {
    forall k | 0 <= k < |a + b|
      ensures Collectable((a + b)[k])
    {
      if k < |a| {
        assert (a + b)[k] == a[k];
      } else {
        assert (a + b)[k] == b[k - |a|];
      }
    }
  }


  /**
   `Parse(data)`: anything but 1000 bytes is an invalid package; otherwise
   the transfers of the slots with positive amounts are added to this
   payload's existing transfers with `AddTransfers`.
   */
  function Parse(c: Crypto, p: QubicTransferSendManyPayload, data: Bytes): (r: Result<QubicTransferSendManyPayload>)
    ensures |data| != SEND_MANY_SIZE ==> r == Failure(InvalidPackageSize)
    ensures |data| == SEND_MANY_SIZE ==> r == AddTransfers(p, Collect(c, data, MAX_TRANSFERS))
    ensures r.Success? ==> Valid(r.value) && r.value.transfers[..|p.transfers|] == p.transfers
    ensures r.Success? ==> forall k :: |p.transfers| <= k < |r.value.transfers| ==> r.value.transfers[k].amount.number > 0
  {
    if |data| != SEND_MANY_SIZE then Failure(InvalidPackageSize)
    else
      var r := AddTransfers(p, Collect(c, data, MAX_TRANSFERS));
      if r.Success? then
        assert r.value.transfers[..|p.transfers|] == p.transfers;
        r
      else r
  }

  /**
   Encoding then parsing into an empty payload gives back every transfer,
   provided each has a 32-byte destination and a positive amount (a
   transfer of zero or less is written as an empty slot and dropped).
   */
  lemma {:induction false} ParseData(c: Crypto, p: QubicTransferSendManyPayload)
    requires Valid(p) && Encodable(p)
    requires forall i :: 0 <= i < |p.transfers| ==> p.transfers[i].amount.number > 0
    ensures Data(p).Success?
    ensures Parse(c, Default(), Data(p).value) == Success(p)
  {
    DataSlots(p);
    var data := Data(p).value;
    CollectSlots(c, p, data, MAX_TRANSFERS);
    AppendNothing(p.transfers, Default().transfers);
    var collected := Collect(c, data, MAX_TRANSFERS);
    assert collected == p.transfers;
    var added := AddTransfers(Default(), collected);
    assert added.Success? && added.value.transfers == p.transfers;
    assert Parse(c, Default(), data) == added;
  }

  lemma DataSlots(p: QubicTransferSendManyPayload)
    requires Valid(p) && Encodable(p)
    requires forall i :: 0 <= i < |p.transfers| ==> p.transfers[i].amount.number > 0
    ensures Data(p).Success? && |Data(p).value| == SEND_MANY_SIZE
    ensures forall j :: 0 <= j < MAX_TRANSFERS ==> SlotHolds(p, Data(p).value, j)
  {
    var data := Data(p).value;
    forall j | 0 <= j < MAX_TRANSFERS
      ensures SlotHolds(p, data, j)
    {
      DataSlot(p, j);
    }
  }

  /** Slot `j` of `data` holds the destination and amount of transfer `j`, or zeros past the last transfer. */
  predicate SlotHolds(p: QubicTransferSendManyPayload, data: Bytes, j: nat)
    requires |data| == SEND_MANY_SIZE && j < MAX_TRANSFERS
  {
    if j < |p.transfers| then
      data[32 * j..32 * j + 32] == p.transfers[j].destId.bytes
      && data[AMOUNTS_OFFSET + 8 * j..AMOUNTS_OFFSET + 8 * j + 8] == LongValue.Data(p.transfers[j].amount)
    else data[AMOUNTS_OFFSET + 8 * j..AMOUNTS_OFFSET + 8 * j + 8] == LongValue.Data(LongValue.Long(0))
  }

  lemma {:induction false} CollectSlots(c: Crypto, p: QubicTransferSendManyPayload, data: Bytes, n: nat)
    requires |data| == SEND_MANY_SIZE && n <= MAX_TRANSFERS && Valid(p)
    requires forall i :: 0 <= i < |p.transfers| ==> p.transfers[i].amount.number > 0
    requires forall j :: 0 <= j < MAX_TRANSFERS ==> SlotHolds(p, data, j)
    ensures Collect(c, data, n) == p.transfers[..if n < |p.transfers| then n else |p.transfers|]
  {
    if n > 0 {
      var j := n - 1;
      CollectSlots(c, p, data, j);
      assert SlotHolds(p, data, j);
      if j < |p.transfers| {
        StepSent(c, p, data, j);
        CollectPush(c, p.transfers, data, j);
      } else {
        StepEmpty(c, p, data, j);
        AppendNothing(Collect(c, data, j), CollectStep(c, data, j));
      }
    }
  }

  lemma {:induction false} StepSent(c: Crypto, p: QubicTransferSendManyPayload, data: Bytes, j: nat)
    requires |data| == SEND_MANY_SIZE && j < MAX_TRANSFERS && j < |p.transfers| && p.transfers[j].amount.number > 0
    requires SlotHolds(p, data, j)
    ensures CollectStep(c, data, j) == [p.transfers[j]]
  {
    LongValue.DataInjective(SlotAmount(data, j), p.transfers[j].amount);
    assert SlotDestination(c, data, j) == p.transfers[j].destId;
  }

  lemma {:induction false} StepEmpty(c: Crypto, p: QubicTransferSendManyPayload, data: Bytes, j: nat)
    requires |data| == SEND_MANY_SIZE && j < MAX_TRANSFERS && |p.transfers| <= j
    requires SlotHolds(p, data, j)
    ensures CollectStep(c, data, j) == []
  {
    LongValue.DataInjective(SlotAmount(data, j), LongValue.Long(0));
  }

  lemma {:induction false} CollectPush(c: Crypto, s: seq<SendManyTransfer>, data: Bytes, j: nat)
    requires |data| == SEND_MANY_SIZE && j < MAX_TRANSFERS && j < |s|
    requires Collect(c, data, j) == s[..j] && CollectStep(c, data, j) == [s[j]]
    ensures Collect(c, data, j + 1) == s[..j + 1]
  {
    PrefixPush(s, j);
  }

  /** Generic sequence facts, proved away from the parse terms. */
  lemma PrefixPush<T>(s: seq<T>, j: nat)
    requires j < |s|
    ensures s[..j + 1] == s[..j] + [s[j]]
  {
  }

  lemma AppendNothing<T>(s: seq<T>, empty: seq<T>)
    requires |empty| == 0
    ensures s + empty == s && empty + s == s && s[..|s|] == s
  {
  }

  /** Slot `j` of the encoding of an encodable payload. */
  lemma {:induction false} DataSlot(p: QubicTransferSendManyPayload, j: nat)
    requires Encodable(p) && j < MAX_TRANSFERS
    requires forall i :: 0 <= i < |p.transfers| ==> p.transfers[i].amount.number > 0
    ensures Data(p).Success? && |Data(p).value| == SEND_MANY_SIZE
    ensures SlotHolds(p, Data(p).value, j)
  {
  }
}
