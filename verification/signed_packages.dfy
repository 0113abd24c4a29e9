/**
 The signed packages `QubicHelper` assembles byte by byte: a plain
 transfer, an IPO bid, a computor proposal and the ballot requests, with
 the time nonce and the three-bit vote packing they use. Each is a fixed
 layout in a zero-filled array, signed with the index-0 keys of a seed.
 The wall clock and `Random` are parameters (`Draws`).
 */
module SignedPackages {
  import opened Bytes
  import opened Wrappers
  import opened Crypto
  import opened Bits
  import Definitions
  import KeyHelper
  import PackageBuilder
  import RequestResponseHeader
  import PublicKeyValue
  import LongValue
  import Transaction

  const REQUEST_RESPONSE_HEADER_SIZE: nat := 8
  const TRANSACTION_SIZE: nat := 144
  const IPO_TRANSACTION_SIZE: nat := 144 + 8 + 2 + 6
  const SET_PROPOSAL_AND_BALLOT_REQUEST_SIZE: nat := 592
  const PROPOSAL_SIZE: nat := SET_PROPOSAL_AND_BALLOT_REQUEST_SIZE + REQUEST_RESPONSE_HEADER_SIZE
  const PROCESS_SPECIAL_COMMAND: uint8 := 255
  const SPECIAL_COMMAND_SET_PROPOSAL_AND_BALLOT_REQUEST: int32 := 3
  /** The most vote bytes a ballot request has room for before its signature. */
  const MAX_VOTE_BYTES: nat := 254

  /** A value of `new Random().Next(255)`. */
  type RandomByte = x: int | 0 <= x < 255

  /** What one special-command package draws from outside: three random dejaVu bytes and the clock. */
  datatype Draws = Draws(random0: RandomByte, random1: RandomByte, random2: RandomByte, unixSeconds: int64)

  /** The 32 public-key bytes of the seed's index-0 key pair, as copied into every package. */
  function SourceKey(c: Crypto, seed: string): (r: Bytes)
    ensures |r| == Definitions.PUBLIC_KEY_LENGTH
    ensures r == c.derivePublicKey(KeyHelper.PrivateKey(c, seed, 0))
  {
    PackageBuilder.SigningKeys(c, seed).1[..Definitions.PUBLIC_KEY_LENGTH]
  }

  /**
   `CreateTransaction(seed, dest, amount, tick)`, given the destination's
   key bytes: source key, the first 32 destination bytes, amount, tick and
   a zero input type and size, then the signature of those 80 bytes. A
   destination shorter than 32 bytes fails its `AsSpan(0, 32)`.
   */
  function CreateTransaction(c: Crypto, seed: string, destPublicKey: Bytes, amount: int64, tick: int32): (r: Result<Bytes>)
    ensures r.Success? <==> |destPublicKey| >= Definitions.PUBLIC_KEY_LENGTH
    ensures r.Failure? ==> r.error == OutOfRange
    ensures r.Success? ==> |r.value| == TRANSACTION_SIZE
    ensures r.Success? ==> r.value[0..32] == SourceKey(c, seed) && r.value[32..64] == destPublicKey[..32]
    ensures r.Success? ==> r.value[64..72] == ToLE(amount, 8) && r.value[72..76] == ToLE(tick, 4)
    ensures r.Success? ==> r.value[76..78] == ToLE(0, 2) && r.value[78..80] == ToLE(0, 2)
    ensures r.Success? ==> r.value[80..] == PackageBuilder.SignMessage(c, seed, r.value[..80])
  {
    if |destPublicKey| < Definitions.PUBLIC_KEY_LENGTH then Failure(OutOfRange)
    else
      var key := SourceKey(c, seed);
      var dest := destPublicKey[..32];
      var value := ToLE(amount, 8);
      var t := ToLE(tick, 4);
      var zero := ToLE(0, 2);
      var head := key + dest + value + t + zero + zero;
      var sig := PackageBuilder.SignMessage(c, seed, head);
      Fields6(key, dest, value, t, zero, zero, sig);
      Success(head + sig)
  }

  /** The offsets of the six fields of a transaction header and what follows them. */
  lemma Fields6(a: Bytes, b: Bytes, c: Bytes, d: Bytes, e: Bytes, f: Bytes, tail: Bytes)
    requires |a| == 32 && |b| == 32 && |c| == 8 && |d| == 4 && |e| == 2 && |f| == 2
    ensures var s := a + b + c + d + e + f + tail;
      s[0..32] == a && s[32..64] == b && s[64..72] == c && s[72..76] == d && s[76..78] == e && s[78..80] == f
      && s[..80] == a + b + c + d + e + f && s[80..] == tail
  {
    var s := a + b + c + d + e + f + tail;
    assert s[0..32] == a;
    assert s[32..64] == b;
    assert s[64..72] == c;
    assert s[72..76] == d;
    assert s[76..78] == e;
    assert s[78..80] == f;
    assert s[..80] == a + b + c + d + e + f;
    assert s[80..] == tail;
  }

  /** The `QubicTransaction` a plain transfer would be: default fields with these keys, amount and tick. */
  function TransferTransaction(c: Crypto, seed: string, destPublicKey: Bytes, amount: int64, tick: int32): (r: Transaction.QubicTransaction)
    requires |destPublicKey| >= Definitions.PUBLIC_KEY_LENGTH
    ensures Transaction.Standard(r) && r.inputSize == 0 && r.payload.data == []
  {
    Transaction.Default().(sourcePublicKey := PublicKeyValue.PublicKey(SourceKey(c, seed)),
      destinationPublicKey := PublicKeyValue.PublicKey(destPublicKey[..32]), amount := LongValue.Long(amount), tick := tick)
  }

  /** The hand-assembled transfer is exactly what building that transaction produces. */
  lemma CreateTransactionIsBuild(c: Crypto, seed: string, destPublicKey: Bytes, amount: int64, tick: int32)
    requires |destPublicKey| >= Definitions.PUBLIC_KEY_LENGTH
    ensures Transaction.Build(c, TransferTransaction(c, seed, destPublicKey, amount, tick), seed).1
      == CreateTransaction(c, seed, destPublicKey, amount, tick)
  {
    var t := TransferTransaction(c, seed, destPublicKey, amount, tick);
    var head := SourceKey(c, seed) + destPublicKey[..32] + ToLE(amount, 8) + ToLE(tick, 4) + ToLE(0, 2) + ToLE(0, 2);
    assert Transaction.Body(t) == head + [];
    assert head + [] == head;
  }

  /**
   `CreateIpo(seed, contractIndex, price, quantity, tick)`: source key,
   the contract index as one byte followed by 31 zeros where the
   destination goes, a zero amount, tick, input type 1 and size 16, then
   the 16-byte input of price, quantity and six padding bytes, and the
   signature of those 96 bytes.
   */
  function CreateIpo(c: Crypto, seed: string, contractIndex: int32, price: int64, quantity: int16, tick: int32): (r: Bytes)
    ensures |r| == IPO_TRANSACTION_SIZE
    ensures r[0..32] == SourceKey(c, seed) && r[32..64] == IpoDestination(contractIndex)
    ensures r[64..72] == ToLE(0, 8) && r[72..76] == ToLE(tick, 4) && r[76..78] == ToLE(1, 2) && r[78..80] == ToLE(16, 2)
    ensures r[80..96] == IpoInput(price, quantity)
    ensures r[96..] == PackageBuilder.SignMessage(c, seed, r[..96])
  {
    var key := SourceKey(c, seed);
    var dest := IpoDestination(contractIndex);
    var amount := ToLE(0, 8);
    var t := ToLE(tick, 4);
    var inputType := ToLE(1, 2);
    var inputSize := ToLE(16, 2);
    var input := IpoInput(price, quantity);
    var body := key + dest + amount + t + inputType + inputSize + input;
    var sig := PackageBuilder.SignMessage(c, seed, body);
    Fields7(key, dest, amount, t, inputType, inputSize, input, sig);
    body + sig
  }

  /** The offsets of the six header fields and the 16-byte input of an IPO bid, and what follows them. */
  lemma Fields7(a: Bytes, b: Bytes, c: Bytes, d: Bytes, e: Bytes, f: Bytes, g: Bytes, tail: Bytes)
    requires |a| == 32 && |b| == 32 && |c| == 8 && |d| == 4 && |e| == 2 && |f| == 2 && |g| == 16
    ensures var s := a + b + c + d + e + f + g + tail;
      s[0..32] == a && s[32..64] == b && s[64..72] == c && s[72..76] == d && s[76..78] == e && s[78..80] == f
      && s[80..96] == g && s[..96] == a + b + c + d + e + f + g && s[96..] == tail
  {
    var s := a + b + c + d + e + f + g + tail;
    assert s[0..32] == a;
    assert s[32..64] == b;
    assert s[64..72] == c;
    assert s[72..76] == d;
    assert s[76..78] == e;
    assert s[78..80] == f;
    assert s[80..96] == g;
    assert s[..96] == a + b + c + d + e + f + g;
    assert s[96..] == tail;
  }

  /** The `QubicTransaction` an IPO bid would be: input type 1 and the 16-byte bid as its payload. */
  function IpoTransaction(c: Crypto, seed: string, contractIndex: int32, price: int64, quantity: int16, tick: int32): (r: Transaction.QubicTransaction)
    ensures Transaction.Standard(r) && r.inputSize == 16
  {
    var t := Transaction.Default().(sourcePublicKey := PublicKeyValue.PublicKey(SourceKey(c, seed)),
      destinationPublicKey := PublicKeyValue.PublicKey(IpoDestination(contractIndex)), tick := tick, inputType := 1);
    Transaction.SetPayload(t, Transaction.Package(IpoInput(price, quantity), 16))
  }

  /** The hand-assembled IPO bid is exactly what building that transaction produces. */
  lemma CreateIpoIsBuild(c: Crypto, seed: string, contractIndex: int32, price: int64, quantity: int16, tick: int32)
    ensures Transaction.Build(c, IpoTransaction(c, seed, contractIndex, price, quantity, tick), seed).1
      == Success(CreateIpo(c, seed, contractIndex, price, quantity, tick))
  {
    var t := IpoTransaction(c, seed, contractIndex, price, quantity, tick);
    assert t.amount.number == 0;
    assert Transaction.InternalSize(t) == IPO_TRANSACTION_SIZE;
  }

  /** Where an IPO bid has its destination: the contract index as one byte, then 31 zeros. */
  function IpoDestination(contractIndex: int32): (r: Bytes)
    ensures |r| == 32 && r[0] == contractIndex % 256
    ensures forall i :: 1 <= i < 32 ==> r[i] == 0
  {
    [contractIndex % 256] + Zeros(31)
  }

  /** The 16-byte input of an IPO bid: price, quantity and six padding bytes. */
  function IpoInput(price: int64, quantity: int16): (r: Bytes)
    ensures |r| == 16
    ensures r[0..8] == ToLE(price, 8) && r[8..10] == ToLE(quantity, 2)
    ensures forall i :: 10 <= i < 16 ==> r[i] == 0
  {
    var p := ToLE(price, 8);
    var q := ToLE(quantity, 2);
    var r := p + q + Zeros(6);
    assert r[0..8] == p && r[8..10] == q;
    r
  }

  /** 2^56: the weight of a nonce's top byte. */
  const SHIFT_56: nat := 0x100_0000_0000_0000

  /**
   `(ulong)type << 56`: the shift drops all but the type's low byte, which
   lands in the top byte.
   */
  function CommandBits(commandType: int32): (r: nat)
    ensures r == (commandType % 256) * SHIFT_56
  {
    ShiftOut(commandType);
    ((commandType % TWO_64) * SHIFT_56) % TWO_64
  }

  lemma ShiftOut(t: int)
    ensures ((t % TWO_64) * SHIFT_56) % TWO_64 == (t % 256) * SHIFT_56
  {
    var u := t % TWO_64;
    var q := u / 256;
    var a := u % 256;
    assert u == 256 * q + a;
    assert a == t % 256;
    assert u * SHIFT_56 == q * TWO_64 + a * SHIFT_56;
  }

  lemma Pow2At56()
    ensures Pow2(56) == SHIFT_56
  {
    assert Pow2(8) == 256;
    assert Pow2(16) == 0x1_0000;
    assert Pow2(24) == 0x100_0000;
    assert Pow2(32) == 0x1_0000_0000;
    assert Pow2(40) == 0x100_0000_0000;
    assert Pow2(48) == 0x1_0000_0000_0000;
  }

  /** The clock occupies the nonce's seven low bytes. */
  const CLOCK_BYTES: nat := 7

  lemma ClockRange()
    ensures Pow256(CLOCK_BYTES) == SHIFT_56
  {
    assert Pow256(7) == SHIFT_56 by {
      Pow256Values();
    }
  }

  /** A type byte or-ed above a clock reading below 2^56 just sits on top of it. */
  lemma OrAbove(high: nat, low: nat)
    requires low < SHIFT_56
    ensures Or(high * SHIFT_56, low) == high * SHIFT_56 + low
  {
    Pow2At56();
    OrDisjoint(high, low, 56);
  }

  /** Eight little-endian bytes of a top byte above a 7-byte value. */
  lemma TopByte(high: int, low: int, v: int)
    requires 0 <= high < 256 && 0 <= low < SHIFT_56 && v == high * SHIFT_56 + low
    ensures ToLE(v, CLOCK_BYTES + 1) == ToLE(low, CLOCK_BYTES) + [high]
  {
    ClockRange();
    ToLEByteAbove(high, low, CLOCK_BYTES, SHIFT_56, CLOCK_BYTES + 1);
  }

  /**
   `GetIncreasingNonceAndCommandType(type)` at the clock reading
   `unixSeconds`: the 8 little-endian bytes of `(type << 56) | seconds`.
   For a clock below 2^56 that is the seven low bytes of the seconds and
   then the type's low byte.
   */
  function Nonce(commandType: int32, unixSeconds: int64): (r: Bytes)
    ensures |r| == 8
    ensures 0 <= unixSeconds < SHIFT_56 ==> r == ToLE(unixSeconds, CLOCK_BYTES) + [commandType % 256]
  {
    if 0 <= unixSeconds < SHIFT_56 then
      NonceBytes(commandType, unixSeconds);
      ToLE(Or(CommandBits(commandType), unixSeconds % TWO_64), CLOCK_BYTES + 1)
    else ToLE(Or(CommandBits(commandType), unixSeconds % TWO_64), CLOCK_BYTES + 1)
  }

  lemma NonceBytes(commandType: int32, unixSeconds: int64)
    requires 0 <= unixSeconds < SHIFT_56
    ensures ToLE(Or(CommandBits(commandType), unixSeconds % TWO_64), CLOCK_BYTES + 1) == ToLE(unixSeconds, CLOCK_BYTES) + [commandType % 256]
  {
    var high := commandType % 256;
    var low := unixSeconds % TWO_64;
    assert low == unixSeconds;
    var v := Or(CommandBits(commandType), low);
    OrAbove(high, low);
    TopByte(high, low, v);
  }

  /** The 8-byte request header both special commands start with: size 600, the special-command type, random dejaVu bytes. */
  function SpecialHeader(d: Draws): (r: Bytes)
    ensures |r| == REQUEST_RESPONSE_HEADER_SIZE
    ensures r[..3] == ToLE(PROPOSAL_SIZE, 3) && r[3] == PROCESS_SPECIAL_COMMAND
    ensures r[4..7] == [d.random0, d.random1, d.random2] && r[7] == PROCESS_SPECIAL_COMMAND
  {
    ToLE(PROPOSAL_SIZE, 3) + [PROCESS_SPECIAL_COMMAND] + [d.random0, d.random1, d.random2] + [PROCESS_SPECIAL_COMMAND]
  }

  /** The header reads back as a 600-byte special command. */
  lemma SpecialHeaderParses(d: Draws)
    ensures RequestResponseHeader.Parse(SpecialHeader(d)).Success?
    ensures RequestResponseHeader.Parse(SpecialHeader(d)).value.size == PROPOSAL_SIZE
    ensures RequestResponseHeader.Parse(SpecialHeader(d)).value.packageType == PROCESS_SPECIAL_COMMAND
  {
    var h := RequestResponseHeader.Parse(SpecialHeader(d)).value;
    Pow256Values();
    UnsignedSlot(h.size, PROPOSAL_SIZE, 3);
  }

  /**
   `CreateProposal(protocol, computorIndex, seed, url)`, given the URL's
   encoded bytes and without the `protocol` argument, which is never read:
   the header, the proposal fields, the URL field, then the signature of
   everything after the header. A URL of more than 255 bytes overflows its
   buffer.
   */
  function CreateProposal(c: Crypto, computorIndex: int32, seed: string, urlBytes: Bytes, d: Draws): (r: Result<Bytes>)
    ensures r.Success? <==> |urlBytes| <= 255
    ensures r.Failure? ==> r.error == OutOfRange
    ensures r.Success? ==> |r.value| == PROPOSAL_SIZE
    ensures r.Success? ==> r.value[0..8] == SpecialHeader(d) && r.value[8..24] == ProposalFields(computorIndex, d)
    ensures r.Success? ==> r.value[24..536] == UriField(urlBytes)
    ensures r.Success? ==> r.value[536..] == PackageBuilder.SignMessage(c, seed, r.value[8..536])
  {
    if |urlBytes| > 255 then Failure(OutOfRange)
    else
      var header := SpecialHeader(d);
      var fields := ProposalFields(computorIndex, d);
      var uri := UriField(urlBytes);
      var sig := PackageBuilder.SignMessage(c, seed, fields + uri);
      SpecialSlices(header, fields, uri, sig, []);
      Success(header + fields + uri + sig + [])
  }

  /** Bytes 24..536 of a proposal: the URL's length, its bytes zero-padded to 255, and 256 reserved zeros. */
  function UriField(urlBytes: Bytes): (r: Bytes)
    requires |urlBytes| <= 255
    ensures |r| == 512 && r[0] == |urlBytes| && r[1..1 + |urlBytes|] == urlBytes
    ensures forall i :: 1 + |urlBytes| <= i < 512 ==> r[i] == 0
  {
    var r := [|urlBytes|] + urlBytes + Zeros(511 - |urlBytes|);
    assert r[1..1 + |urlBytes|] == urlBytes;
    r
  }

  /** Nonce, computor index and padding: bytes 8..24 of both special commands. */
  function ProposalFields(computorIndex: int32, d: Draws): (r: Bytes)
    ensures |r| == 16
    ensures r[0..8] == Nonce(SPECIAL_COMMAND_SET_PROPOSAL_AND_BALLOT_REQUEST, d.unixSeconds)
    ensures r[8..10] == ToLE(computorIndex, 2) && r[10..16] == Zeros(6)
  {
    Nonce(SPECIAL_COMMAND_SET_PROPOSAL_AND_BALLOT_REQUEST, d.unixSeconds) + ToLE(computorIndex, 2) + Zeros(6)
  }

  /** Where the pieces of a special command sit: header, fields, body, signature, padding. */
  lemma SpecialSlices(header: Bytes, fields: Bytes, body: Bytes, sig: Bytes, pad: Bytes)
    requires |header| == 8 && |fields| == 16 && |sig| == 64
    ensures var r := header + fields + body + sig + pad;
      var n := |body|;
      r[0..8] == header && r[8..24] == fields && r[24..24 + n] == body && r[8..24 + n] == fields + body
      && r[24 + n..88 + n] == sig && r[88 + n..] == pad
  {
    var r := header + fields + body + sig + pad;
    var n := |body|;
    assert r[0..8] == header;
    assert r[8..24] == fields;
    assert r[24..24 + n] == body;
    assert r[8..24 + n] == fields + body;
    assert r[24 + n..88 + n] == sig;
    assert r[88 + n..] == pad;
  }

  /** The bit at position `i` of a bit list, zero past its end. */
  function BitAt(bits: seq<nat>, i: nat): (r: nat)
  {
    if i < |bits| then bits[i] else 0
  }

  /** The bit list of `VotesToByteArray`: bits 0, 1 and 2 of each vote in turn. */
  function VoteBits(votes: seq<int32>): (r: seq<nat>)
    ensures |r| == 3 * |votes|
    ensures forall k :: 0 <= k < |r| ==> r[k] < 2
  {
    seq(3 * |votes|, k requires 0 <= k < 3 * |votes| => Bit(votes[k / 3], k % 3))
  }

  /**
   The byte the inner loop builds from bits `k..k+j`: `byteValue |= bit << j`
   for each, so bit `i` of the result is bit `k + i` of the list.
   */
  function ByteValue(bits: seq<nat>, k: nat, j: nat): (r: nat)
    requires forall i :: 0 <= i < |bits| ==> bits[i] < 2
    ensures r < Pow2(j)
    ensures forall i :: 0 <= i < j ==> Bit(r, i) == BitAt(bits, k + i)
  {
    if j == 0 then 0
    else
      var prev := ByteValue(bits, k, j - 1);
      var bit := BitAt(bits, k + j - 1);
      var r := Or(prev, bit * Pow2(j - 1));
      OrStepBound(prev, bit, j - 1);
      forall i | 0 <= i < j
        ensures Bit(r, i) == BitAt(bits, k + i)
      {
        OrStep(prev, bit, j - 1, i);
      }
      r
  }

  /** Or-ing a bit in at position `m` above a value below `2^m` stays below `2^(m+1)`. */
  lemma OrStepBound(prev: nat, bit: nat, m: nat)
    requires prev < Pow2(m) && bit < 2
    ensures Or(prev, bit * Pow2(m)) < Pow2(m + 1)
  {
    OrCommutes(prev, bit * Pow2(m));
    OrDisjoint(bit, prev, m);
  }

  /** Or-ing a bit in at position `m` sets bit `m` and keeps the bits below it. */
  lemma OrStep(prev: nat, bit: nat, m: nat, i: nat)
    requires prev < Pow2(m) && bit < 2 && i <= m
    ensures Bit(Or(prev, bit * Pow2(m)), i) == (if i == m then bit else Bit(prev, i))
  {
    OrBits(prev, bit * Pow2(m), i);
    PowerBit(bit, m, i);
    if i == m {
      BitAbove(prev, m, i);
    }
  }

  /** The only bit of `b · 2^m`, for a bit `b`, is `b` at position `m`. */
  lemma {:induction false} PowerBit(b: nat, m: nat, i: nat)
    requires b < 2
    ensures Bit(b * Pow2(m), i) == (if i == m then b else 0)
    decreases m
  {
    if m == 0 {
      if i > 0 {
        ZeroBit(i - 1);
        assert (b * Pow2(m)) / 2 == 0;
      }
    } else {
      assert b * Pow2(m) == 2 * (b * Pow2(m - 1));
      if i > 0 {
        PowerBit(b, m - 1, i - 1);
      }
    }
  }

  /** A value below `2^m` has no bit at `m` or above. */
  lemma {:induction false} BitAbove(x: nat, m: nat, i: nat)
    requires x < Pow2(m) && m <= i
    ensures Bit(x, i) == 0
    decreases m
  {
    if m == 0 {
      ZeroBit(i);
    } else {
      BitAbove(x / 2, m - 1, i - 1);
    }
  }

  /**
   `VotesToByteArray(votes)`: the three low bits of each vote, packed
   eight to a byte, least significant first, the last byte zero-padded.
   */
  function VotesToByteArray(votes: seq<int32>): (r: Bytes)
    ensures |r| == (3 * |votes| + 7) / 8
  {
    var bits := VoteBits(votes);
    seq((|bits| + 7) / 8, b requires 0 <= b < (|bits| + 7) / 8 => ByteValue(bits, 8 * b, 8))
  }

  /** Bit `k` of the output is bit `k mod 3` of vote `k / 3`, and every bit past the votes is zero. */
  lemma VotesPacked(votes: seq<int32>, k: nat)
    requires k < 8 * |VotesToByteArray(votes)|
    ensures Bit(VotesToByteArray(votes)[k / 8], k % 8) == (if k < 3 * |votes| then Bit(votes[k / 3], k % 3) else 0)
  {
    var bits := VoteBits(votes);
    assert 8 * (k / 8) + k % 8 == k;
    assert Bit(ByteValue(bits, 8 * (k / 8), 8), k % 8) == BitAt(bits, k);
  }

  /**
   `CreateBallotRequests(protocol, seed, computorIndices, votes)`, without
   the `protocol` argument, which is never read: one signed 600-byte
   request per computor index, each drawing its own randomness and clock
   reading. The votes are packed once; when they take more than 254 bytes
   the signature no longer fits and the first request fails.
   */
  function CreateBallotRequests(c: Crypto, seed: string, computorIndices: seq<int32>, votes: seq<int32>, draws: seq<Draws>): (r: Result<seq<Bytes>>)
    requires |draws| == |computorIndices|
    ensures r.Success? <==> (|computorIndices| == 0 || |VotesToByteArray(votes)| <= MAX_VOTE_BYTES)
    ensures r.Failure? ==> r.error == OutOfRange
    ensures r.Success? ==> |r.value| == |computorIndices|
    ensures r.Success? ==> forall i :: 0 <= i < |r.value| ==>
      r.value[i] == Ballot(c, seed, computorIndices[i], VotesToByteArray(votes), draws[i])
  {
    var voteBytes := VotesToByteArray(votes);
    if |computorIndices| == 0 then Success([])
    else if |voteBytes| > MAX_VOTE_BYTES then Failure(OutOfRange)
    else Success(seq(|computorIndices|, i requires 0 <= i < |computorIndices| => Ballot(c, seed, computorIndices[i], voteBytes, draws[i])))
  }

  /**
   One ballot request: the header, the proposal fields, the vote field,
   then the signature of bytes 8 up to it, and zeros to the end. The
   signature ends at byte 600 exactly when there are 254 vote bytes.
   */
  function Ballot(c: Crypto, seed: string, computorIndex: int32, voteBytes: Bytes, d: Draws): (r: Bytes)
    requires |voteBytes| <= MAX_VOTE_BYTES
    ensures |r| == PROPOSAL_SIZE
    ensures r[0..8] == SpecialHeader(d) && r[8..24] == ProposalFields(computorIndex, d)
    ensures r[24..282 + |voteBytes|] == VoteField(voteBytes)
    ensures r[282 + |voteBytes|..346 + |voteBytes|] == PackageBuilder.SignMessage(c, seed, r[8..282 + |voteBytes|])
    ensures r[346 + |voteBytes|..] == Zeros(MAX_VOTE_BYTES - |voteBytes|)
  {
    var header := SpecialHeader(d);
    var fields := ProposalFields(computorIndex, d);
    var votes := VoteField(voteBytes);
    var sig := PackageBuilder.SignMessage(c, seed, fields + votes);
    var pad := Zeros(MAX_VOTE_BYTES - |voteBytes|);
    SpecialSlices(header, fields, votes, sig, pad);
    header + fields + votes + sig + pad
  }

  /** Bytes 24.. of a ballot request up to its signature: 257 zeros, the vote bytes, one zero. */
  function VoteField(voteBytes: Bytes): (r: Bytes)
    ensures |r| == 258 + |voteBytes|
    ensures forall i :: 0 <= i < 257 ==> r[i] == 0
    ensures r[257..257 + |voteBytes|] == voteBytes && r[257 + |voteBytes|] == 0
  {
    var r := Zeros(257) + voteBytes + [0];
    assert r[257..257 + |voteBytes|] == voteBytes;
    r
  }
}
