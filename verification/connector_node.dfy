/**
 The receive side of `QubicConnectorNode`: a fixed-capacity ring buffer
 with a write cursor and a read cursor, the loop that cuts it into
 (header, payload) packages, and the dispatcher that tracks the current
 tick and forwards balances. The socket that feeds the ring is not part
 of this model: each received chunk is a parameter.
 */
module ConnectorNode {
  import opened Bytes
  import opened Wrappers
  import RequestResponseHeader
  import TickInfo
  import EntityResponse

  /** `new byte[4 * 1024 * 1024]`. */
  const BUFFER_SIZE: nat := 4 * 1024 * 1024

  /** The ring: its array, whose length is the capacity, and the two cursors. */
  datatype Ring = Ring(buffer: Bytes, writePosition: nat, readPosition: nat)

  /** Both cursors lie in [0, capacity]: a cursor may rest at the capacity itself rather than at 0. */
  predicate Valid(g: Ring)
  {
    |g.buffer| > 0 && g.writePosition <= |g.buffer| && g.readPosition <= |g.buffer|
  }

  /** Byte `k` counted from the read cursor, around the ring. */
  function RingByte(g: Ring, k: nat): (r: uint8)
    requires |g.buffer| > 0
  {
    g.buffer[(g.readPosition + k) % |g.buffer|]
  }

  /** The `n` bytes from the read cursor on, around the ring. */
  function Ahead(g: Ring, n: nat): (r: Bytes)
    requires |g.buffer| > 0
    ensures |r| == n && forall k :: 0 <= k < n ==> r[k] == RingByte(g, k)
  {
    seq(n, k requires 0 <= k < n => RingByte(g, k))
  }

  /** One pass around the ring: an index below twice the capacity, reduced once. */
  lemma ModOnce(x: nat, m: nat)
    requires 0 < m && x < 2 * m
    ensures x % m == (if x < m then x else x - m)
  {
    if x >= m {
      assert x == m + (x - m);
    }
  }

  /** A cursor moved on by `n`, wrapped by one capacity only when it would pass the end. */
  function Advanced(position: nat, n: nat, capacity: nat): nat
  {
    if position + n > capacity then position + n - capacity else position + n
  }

  /** `Array.Copy(src, 0, buffer, at, |src|)`: `src` replaces `buffer[at..at + |src|]`. */
  function Copy(buffer: Bytes, at: nat, src: Bytes): (r: Bytes)
    requires at + |src| <= |buffer|
    ensures |r| == |buffer|
    ensures forall i :: 0 <= i < |src| ==> r[at + i] == src[i]
    ensures forall p :: 0 <= p < |buffer| && !(at <= p < at + |src|) ==> r[p] == buffer[p]
  {
    buffer[..at] + src + buffer[at + |src|..]
  }

  /**
   `WriteBuffer(data)` without its closing `ProcessBuffer`: what fits
   before the end of the array goes at the write cursor, the rest at 0.
   A remainder longer than the whole array makes the second copy throw.
   Afterwards each written byte sits `i` places after the old write cursor,
   around the ring (a later byte overwriting an earlier one when the chunk
   is longer than the ring), every other byte is unchanged, and the write
   cursor has moved on by the chunk's length, resting at the capacity when
   the chunk ends exactly there.
   */
  function WriteBuffer(g: Ring, data: Bytes): (r: Result<Ring>)
    requires Valid(g)
    ensures r.Failure? <==> g.writePosition + |data| > 2 * |g.buffer|
    ensures r.Failure? ==> r.error == OutOfRange
    ensures r.Success? ==> Valid(r.value) && |r.value.buffer| == |g.buffer| && r.value.readPosition == g.readPosition
    ensures r.Success? ==> r.value.writePosition == Advanced(g.writePosition, |data|, |g.buffer|)
    ensures r.Success? ==> Written(g.buffer, g.writePosition, data, r.value.buffer)
    ensures r.Success? ==> Kept(g.buffer, g.writePosition, data, r.value.buffer)
  {
    var cap := |g.buffer|;
    var w := g.writePosition;
    var writeLength := if w + |data| > cap then cap - w else |data|;
    var first := Copy(g.buffer, w, data[..writeLength]);
    if writeLength < |data| then
      if |data| - writeLength > cap then Failure(OutOfRange)
      else
        var second := Copy(first, 0, data[writeLength..]);
        WrappedWrite(g.buffer, w, data, first, second);
        Success(Ring(second, |data| - writeLength, g.readPosition))
    else
      StraightWrite(g.buffer, w, data, first);
      Success(Ring(first, w + writeLength, g.readPosition))
  }

  /**
   Each byte of the chunk sits `i` places after the write cursor `w`,
   around the ring, except those a byte one capacity later overwrites.
   */
  predicate Written(buffer: Bytes, w: nat, data: Bytes, after: Bytes)
    requires 0 < |buffer| == |after|
  {
    forall i :: 0 <= i < |data| && |data| - |buffer| <= i ==> after[(w + i) % |buffer|] == data[i]
  }

  /** Every position the chunk does not reach, directly or after wrapping, keeps its byte. */
  predicate Kept(buffer: Bytes, w: nat, data: Bytes, after: Bytes)
    requires |buffer| == |after|
  {
    forall p :: 0 <= p < |buffer| && !(w <= p < w + |data|) && !(w <= p + |buffer| < w + |data|) ==> after[p] == buffer[p]
  }

  /** Where the bytes of a write that does not wrap end up. */
  lemma StraightWrite(buffer: Bytes, w: nat, data: Bytes, first: Bytes)
    requires 0 < |buffer| && w + |data| <= |buffer|
    requires first == Copy(buffer, w, data[..|data|])
    ensures Written(buffer, w, data, first) && Kept(buffer, w, data, first)
  {
    assert data[..|data|] == data;
    forall i | 0 <= i < |data|
      ensures first[(w + i) % |buffer|] == data[i]
    {
      ModOnce(w + i, |buffer|);
    }
  }

  /** Where the bytes of a write that wraps end up. */
  lemma WrappedWrite(buffer: Bytes, w: nat, data: Bytes, first: Bytes, second: Bytes)
    requires 0 < |buffer| && w <= |buffer| < w + |data| <= 2 * |buffer|
    requires first == Copy(buffer, w, data[..|buffer| - w])
    requires second == Copy(first, 0, data[|buffer| - w..])
    ensures Written(buffer, w, data, second) && Kept(buffer, w, data, second)
  {
    FirstPiece(buffer, w, data, first, second);
    SecondPiece(buffer, w, data, first, second);
    forall i | 0 <= i < |data| && |data| - |buffer| <= i
      ensures second[(w + i) % |buffer|] == data[i]
    {
      WrappedByte(|buffer|, w, data, second, i);
    }
    WrappedKept(buffer, w, data, first, second);
  }

  /** The bytes copied up to the end of the array, where the second piece does not overwrite them. */
  lemma FirstPiece(buffer: Bytes, w: nat, data: Bytes, first: Bytes, second: Bytes)
    requires 0 < |buffer| && w <= |buffer| < w + |data| <= 2 * |buffer|
    requires first == Copy(buffer, w, data[..|buffer| - w])
    requires second == Copy(first, 0, data[|buffer| - w..])
    ensures forall k :: 0 <= k < |buffer| - w && |data| - |buffer| <= k ==> second[w + k] == data[k]
  {
    var head := |buffer| - w;
    forall k | 0 <= k < head && |data| - |buffer| <= k
      ensures second[w + k] == data[k]
    {
      assert first[w + k] == data[..head][k];
    }
  }

  /** The bytes copied from 0. */
  lemma SecondPiece(buffer: Bytes, w: nat, data: Bytes, first: Bytes, second: Bytes)
    requires 0 < |buffer| && w <= |buffer| < w + |data| <= 2 * |buffer|
    requires first == Copy(buffer, w, data[..|buffer| - w])
    requires second == Copy(first, 0, data[|buffer| - w..])
    ensures forall k :: 0 <= k < |data| - (|buffer| - w) ==> second[k] == data[|buffer| - w + k]
  {
    var head := |buffer| - w;
    forall k | 0 <= k < |data| - head
      ensures second[k] == data[head + k]
    {
      assert second[k] == data[head..][k];
    }
  }

  /** A wrapping write keeps the bytes between the end of its second piece and the write cursor. */
  lemma WrappedKept(buffer: Bytes, w: nat, data: Bytes, first: Bytes, second: Bytes)
    requires 0 < |buffer| && w <= |buffer| < w + |data| <= 2 * |buffer|
    requires first == Copy(buffer, w, data[..|buffer| - w])
    requires second == Copy(first, 0, data[|buffer| - w..])
    ensures Kept(buffer, w, data, second)
  {
  }

  /** Byte `i` of a wrapping write: in the first piece before the end, in the second from 0. */
  lemma WrappedByte(cap: nat, w: nat, data: Bytes, second: Bytes, i: nat)
    requires 0 < cap == |second| && w <= cap < w + |data| <= 2 * cap
    requires forall k :: 0 <= k < cap - w && |data| - cap <= k ==> second[w + k] == data[k]
    requires forall k :: 0 <= k < |data| - (cap - w) ==> second[k] == data[cap - w + k]
    requires i < |data| && |data| - cap <= i
    ensures second[(w + i) % cap] == data[i]
  {
    ModOnce(w + i, cap);
    if i >= cap - w {
      var k := i - (cap - w);
      assert second[k] == data[cap - w + k];
    }
  }

  /**
   `ReadFromBuffer(n, setReadPosition)`: the `n` bytes from the read
   cursor on, around the ring, and the ring with its read cursor moved
   on by `n` when asked. More than the array can supply in two pieces makes
   the second copy throw.
   */
  function ReadFromBuffer(g: Ring, n: nat, setReadPosition: bool): (r: Result<(Bytes, Ring)>)
    requires Valid(g)
    ensures r.Failure? <==> g.readPosition + n > 2 * |g.buffer|
    ensures r.Failure? ==> r.error == OutOfRange
    ensures r.Success? ==> r.value.0 == Ahead(g, n)
    ensures r.Success? ==> r.value.1 == (if setReadPosition then SetReadPosition(g, n) else g)
  {
    var cap := |g.buffer|;
    var rp := g.readPosition;
    var extract :=
      if rp + n <= cap then Success(g.buffer[rp..rp + n])
      else if n - (cap - rp) > cap then Failure(OutOfRange)
      else Success(g.buffer[rp..cap] + g.buffer[..n - (cap - rp)]);
    if extract.Failure? then Failure(OutOfRange)
    else
      AheadPieces(g, n, extract.value);
      Success((extract.value, if setReadPosition then SetReadPosition(g, n) else g))
  }

  /** The one or two pieces `ReadFromBuffer` copies are the bytes ahead of the read cursor. */
  lemma AheadPieces(g: Ring, n: nat, extract: Bytes)
    requires Valid(g) && g.readPosition + n <= 2 * |g.buffer|
    requires extract == if g.readPosition + n <= |g.buffer| then g.buffer[g.readPosition..g.readPosition + n]
      else g.buffer[g.readPosition..] + g.buffer[..n - (|g.buffer| - g.readPosition)]
    ensures extract == Ahead(g, n)
  {
    forall k | 0 <= k < n
      ensures extract[k] == RingByte(g, k)
    {
      ModOnce(g.readPosition + k, |g.buffer|);
    }
  }

  /**
   `SetReadPosition(n)`: the read cursor moves on by `n`, wrapping by one
   capacity only when it would pass the end; landing exactly on the end
   leaves it there.
   */
  function SetReadPosition(g: Ring, n: nat): (r: Ring)
    requires Valid(g)
    ensures r.buffer == g.buffer && r.writePosition == g.writePosition
    ensures (r.readPosition - (g.readPosition + n)) % |g.buffer| == 0
    ensures n <= |g.buffer| ==> Valid(r)
  {
    var rp := if g.readPosition + n > |g.buffer| then g.readPosition + n - |g.buffer| else g.readPosition + n;
    g.(readPosition := rp)
  }

  // Framing

  /** `ReceivedPackage`: the parsed header, the peer's address (or "") and the payload. */
  datatype ReceivedPackage = ReceivedPackage(header: RequestResponseHeader.Header, ipAddress: string, payload: Bytes)

  /** One turn of the `ProcessBuffer` loop: it stops, or it cuts off one package and moves the read cursor past it. */
  datatype Step = Stop | Emit(package: ReceivedPackage, next: Ring)

  /** The bytes a package takes from the ring: its declared size, but never less than its 8-byte header. */
  function Consumed(h: RequestResponseHeader.Header): (r: nat)
    requires 0 <= h.size
    ensures r >= RequestResponseHeader.HEADER_SIZE && r >= h.size
    ensures r == RequestResponseHeader.HEADER_SIZE || r == h.size
  {
    if h.size > RequestResponseHeader.HEADER_SIZE then h.size else RequestResponseHeader.HEADER_SIZE
  }

  /** The header a step reads: the 8 bytes ahead of the read cursor. */
  function PeekHeader(g: Ring): (r: RequestResponseHeader.Header)
    requires |g.buffer| > 0
    ensures 0 <= r.size <= RequestResponseHeader.MAX_SIZE && RequestResponseHeader.Encodable(r)
    ensures RequestResponseHeader.Parse(Ahead(g, RequestResponseHeader.HEADER_SIZE)) == Success(r)
  {
    RequestResponseHeader.Parse(Ahead(g, RequestResponseHeader.HEADER_SIZE)).value
  }

  /**
   The body of the `ProcessBuffer` loop, given the count of available
   bytes it compares against: fewer than 8, or fewer than the size the
   header declares, stops; otherwise the read cursor moves past the 8
   header bytes, and then past the payload when the size exceeds 8. The
   payload is the bytes after the header; a size of at most 8 gives an
   empty payload and still uses up 8 bytes. The buffer and the write
   cursor are untouched.
   */
  function StepWith(g: Ring, available: nat, ipAddress: string): (r: Step)
    requires Valid(g) && available <= |g.buffer|
    ensures r.Stop? <==> available < RequestResponseHeader.HEADER_SIZE || available < PeekHeader(g).size
    ensures r.Emit? ==> r.package.header == PeekHeader(g) && r.package.ipAddress == ipAddress
    ensures r.Emit? ==> Consumed(r.package.header) <= available
    ensures r.Emit? ==> r.package.payload == Ahead(g, Consumed(PeekHeader(g)))[RequestResponseHeader.HEADER_SIZE..]
    ensures r.Emit? ==> Valid(r.next) && r.next.buffer == g.buffer && r.next.writePosition == g.writePosition
    ensures r.Emit? ==> r.next.readPosition == Advanced(g.readPosition, Consumed(PeekHeader(g)), |g.buffer|)
  {
    if available < RequestResponseHeader.HEADER_SIZE then Stop
    else
      var peeked := ReadFromBuffer(g, RequestResponseHeader.HEADER_SIZE, false).value.0;
      var header := RequestResponseHeader.Parse(peeked).value;
      if available < header.size then Stop
      else
        var afterHeader := SetReadPosition(g, RequestResponseHeader.HEADER_SIZE);
        if header.size > RequestResponseHeader.HEADER_SIZE then
          var (payload, next) := ReadFromBuffer(afterHeader, header.size - RequestResponseHeader.HEADER_SIZE, true).value;
          PayloadAhead(g, header.size);
          Emit(ReceivedPackage(header, ipAddress, payload), next)
        else
          Emit(ReceivedPackage(header, ipAddress, []), afterHeader)
  }

  /** After the header, the bytes ahead are the rest of the `size` bytes ahead before it; two moves make one. */
  lemma PayloadAhead(g: Ring, size: nat)
    requires Valid(g) && RequestResponseHeader.HEADER_SIZE < size <= |g.buffer|
    ensures var afterHeader := SetReadPosition(g, RequestResponseHeader.HEADER_SIZE);
      var n := size - RequestResponseHeader.HEADER_SIZE;
      Ahead(afterHeader, n) == Ahead(g, size)[RequestResponseHeader.HEADER_SIZE..]
      && SetReadPosition(afterHeader, n).readPosition == Advanced(g.readPosition, size, |g.buffer|)
  {
    var afterHeader := SetReadPosition(g, RequestResponseHeader.HEADER_SIZE);
    var n := size - RequestResponseHeader.HEADER_SIZE;
    var cap := |g.buffer|;
    forall k | 0 <= k < n
      ensures RingByte(afterHeader, k) == RingByte(g, RequestResponseHeader.HEADER_SIZE + k)
    {
      var x := g.readPosition + RequestResponseHeader.HEADER_SIZE + k;
      if afterHeader.readPosition != g.readPosition + RequestResponseHeader.HEADER_SIZE {
        assert afterHeader.readPosition + k == x - cap;
        ModOnce(x, cap);
        ModOnce(x - cap, cap);
      }
    }
  }

  /** How many bytes the loop believes are waiting: `Math.Abs(bufferWritePosition - bufferReadPosition)`. */
  function AvailableAsWritten(g: Ring): (r: nat)
    requires Valid(g)
    ensures r <= |g.buffer|
    ensures g.readPosition <= g.writePosition ==> r == g.writePosition - g.readPosition
    ensures g.writePosition < g.readPosition ==> r == g.readPosition - g.writePosition
  {
    if g.writePosition >= g.readPosition then g.writePosition - g.readPosition else g.readPosition - g.writePosition
  }

  /**
   How many written bytes are really waiting: from the read cursor up to
   the write cursor, going round the end of the array when the writer has
   wrapped and the reader has not.
   */
  function Unread(g: Ring): (r: nat)
    requires Valid(g)
    ensures r <= |g.buffer|
    ensures g.readPosition <= g.writePosition ==> r == AvailableAsWritten(g)
    ensures g.writePosition < g.readPosition ==> r == |g.buffer| - AvailableAsWritten(g)
  {
    if g.writePosition >= g.readPosition then g.writePosition - g.readPosition
    else g.writePosition + |g.buffer| - g.readPosition
  }

  /** The two counts agree exactly when the read cursor is not past the write cursor. */
  lemma AvailableAgrees(g: Ring)
    requires Valid(g)
    ensures AvailableAsWritten(g) == Unread(g) <==> (g.readPosition <= g.writePosition || 2 * (g.readPosition - g.writePosition) == |g.buffer|)
  {
  }

  /** Taking `k` of the unread bytes leaves the rest unread. */
  lemma UnreadAfter(g: Ring, k: nat)
    requires Valid(g) && k <= Unread(g)
    ensures Unread(g.(readPosition := Advanced(g.readPosition, k, |g.buffer|))) == Unread(g) - k
  {
  }

  /** Nothing is unread when the cursors coincide or the reader rests at the capacity with the writer at 0. */
  lemma NothingUnread(g: Ring)
    requires Valid(g) && Unread(g) == 0
    ensures g.readPosition == g.writePosition || (g.readPosition == |g.buffer| && g.writePosition == 0)
  {
  }

  /**
   A chunk shorter than the ring, written into a ring with nothing unread,
   is exactly what lies ahead of the reader afterwards, and all of it is
   unread.
   */
  lemma ReadBack(g: Ring, data: Bytes)
    requires Valid(g) && Unread(g) == 0 && |data| < |g.buffer|
    ensures WriteBuffer(g, data).Success?
    ensures var after := WriteBuffer(g, data).value;
      Ahead(after, |data|) == data && Unread(after) == |data|
  {
    var after := WriteBuffer(g, data).value;
    NothingUnread(g);
    AheadWritten(g, data, after);
  }

  /** What a write leaves ahead of a reader that stood where the writer started. */
  lemma AheadWritten(g: Ring, data: Bytes, after: Ring)
    requires Valid(g) && |data| < |g.buffer| && |after.buffer| == |g.buffer|
    requires g.readPosition == g.writePosition || (g.readPosition == |g.buffer| && g.writePosition == 0)
    requires after.readPosition == g.readPosition && Written(g.buffer, g.writePosition, data, after.buffer)
    ensures Ahead(after, |data|) == data
  {
    forall k | 0 <= k < |data|
      ensures RingByte(after, k) == data[k]
    {
      SameSlot(g.readPosition, g.writePosition, k, |g.buffer|);
      assert after.buffer[(g.writePosition + k) % |g.buffer|] == data[k];
    }
  }

  /** A reader at the capacity and a writer at 0 address the same slots. */
  lemma SameSlot(r: nat, w: nat, k: nat, cap: nat)
    requires k < cap && (r == w || (r == cap && w == 0))
    ensures (r + k) % cap == (w + k) % cap
  {
    if r != w {
      ModOnce(r + k, cap);
      ModOnce(w + k, cap);
    }
  }

  /**
   Framing undoes writing: a package laid out as its header's bytes then
   its payload, written into a ring with nothing unread, comes back out of
   one step of the corrected loop as the same header and payload, and
   leaves nothing unread.
   */
  lemma FrameWritten(g: Ring, h: RequestResponseHeader.Header, payload: Bytes, ipAddress: string)
    requires Valid(g) && Unread(g) == 0
    requires RequestResponseHeader.Encodable(h) && RequestResponseHeader.HEADER_SIZE <= h.size < |g.buffer|
    requires |payload| == h.size - RequestResponseHeader.HEADER_SIZE
    ensures WriteBuffer(g, RequestResponseHeader.Data(h).value + payload).Success?
    ensures var after := WriteBuffer(g, RequestResponseHeader.Data(h).value + payload).value;
      var s := StepWith(after, Unread(after), ipAddress);
      s.Emit? && s.package == ReceivedPackage(h, ipAddress, payload) && Unread(s.next) == 0
  {
    var head := RequestResponseHeader.Data(h).value;
    var data := head + payload;
    ReadBack(g, data);
    var after := WriteBuffer(g, data).value;
    assert Ahead(after, RequestResponseHeader.HEADER_SIZE) == head by {
      assert data[..RequestResponseHeader.HEADER_SIZE] == head;
      forall k | 0 <= k < RequestResponseHeader.HEADER_SIZE
        ensures RingByte(after, k) == head[k]
      {
        assert Ahead(after, |data|)[k] == data[k];
      }
    }
    RequestResponseHeader.ParseData(h);
    assert Ahead(after, |data|)[RequestResponseHeader.HEADER_SIZE..] == payload;
    UnreadAfter(after, h.size);
  }

  // Dispatch

  /** The codes of the two package types the dispatcher handles (`QubicPackageType` is not part of this model). */
  datatype PackageTypes = PackageTypes(respondCurrentTickInfo: int32, respondEntity: int32)

  /** What the node invokes: `OnTick`, `OnBalance` (with `null` as `None`) and `OnPackageReceived`. */
  datatype Event =
    | Tick(tick: nat)
    | Balance(response: Option<EntityResponse.QubicEntityResponse>)
    | PackageReceived(package: ReceivedPackage)

  /** What the loop reads besides the ring: the type codes, the peer's address and whether `OnBalance` has a subscriber. */
  datatype Environment = Environment(types: PackageTypes, ipAddress: string, hasBalanceHandler: bool)

  /** The tick a package announces, when it is a well-sized tick info. */
  function AnnouncedTick(env: Environment, p: ReceivedPackage): (r: Option<nat>)
    ensures r.Some? <==> p.header.packageType == env.types.respondCurrentTickInfo && |p.payload| == TickInfo.TICK_INFO_SIZE
    ensures r.Some? ==> r.value < TWO_32 && ToLE(r.value, 4) == p.payload[4..8]
  {
    if p.header.packageType != env.types.respondCurrentTickInfo then None
    else
      var info := TickInfo.Parse(p.payload);
      if info.Success? then Some(info.value.tick as nat) else None
  }

  /**
   `ProcessPackage`: a tick info whose tick is strictly greater than the
   current one raises the current tick to it and announces it; any other
   tick info changes nothing. An entity response goes to `OnBalance` when
   it has a subscriber, parsed or `null`, without any filtering. The
   current tick is kept as the unsigned value it is compared as.
   */
  function ProcessPackage(currentTick: nat, env: Environment, p: ReceivedPackage): (r: (nat, seq<Event>))
    ensures r.0 >= currentTick
    ensures r.0 != currentTick <==> AnnouncedTick(env, p).Some? && AnnouncedTick(env, p).value > currentTick
    ensures r.0 != currentTick ==> r.0 == AnnouncedTick(env, p).value && r.1 == [Tick(r.0)]
    ensures r.1 == [] || |r.1| == 1
    ensures ForwardsBalance(env, p) ==> r.1 == [Balance(EntityResponse.Parse(p.payload).ToOption())]
    ensures !ForwardsBalance(env, p) ==> forall e :: e in r.1 ==> e.Tick?
  {
    if p.header.packageType == env.types.respondCurrentTickInfo then
      var tick := AnnouncedTick(env, p);
      if tick.Some? && currentTick < tick.value then (tick.value, [Tick(tick.value)]) else (currentTick, [])
    else if p.header.packageType == env.types.respondEntity && env.hasBalanceHandler then
      (currentTick, [Balance(EntityResponse.Parse(p.payload).ToOption())])
    else (currentTick, [])
  }

  /** An entity response goes to `OnBalance` only when that event has a subscriber. */
  predicate ForwardsBalance(env: Environment, p: ReceivedPackage)
  {
    p.header.packageType != env.types.respondCurrentTickInfo && p.header.packageType == env.types.respondEntity
    && env.hasBalanceHandler
  }

  /** A handled package, then its report, announce at most its one rising tick. */
  lemma PackageTicks(currentTick: nat, env: Environment, p: ReceivedPackage)
    ensures var (tick, events) := ProcessPackage(currentTick, env, p);
      TicksRise(events + [PackageReceived(p)], currentTick, tick)
  {
    var (tick, events) := ProcessPackage(currentTick, env, p);
    var all := events + [PackageReceived(p)];
    assert forall i :: 0 <= i < |all| && all[i].Tick? ==> i == 0 && all[i] == Tick(tick) && tick > currentTick;
  }

  /** The node's receive state: the ring and `currentTick`. */
  datatype Node = Node(ring: Ring, currentTick: nat)

  /** A new node: a zeroed 4 MiB ring with both cursors at 0, and tick 0. */
  function NewNode(): (r: Node)
    ensures Valid(r.ring) && |r.ring.buffer| == BUFFER_SIZE && Unread(r.ring) == 0 && r.currentTick == 0
  {
    Node(Ring(Zeros(BUFFER_SIZE), 0, 0), 0)
  }

  /** `Initialize`'s reset: both cursors go back to 0; the bytes and the current tick stay. */
  function Initialize(n: Node): (r: Node)
    requires Valid(n.ring)
    ensures Valid(r.ring) && Unread(r.ring) == 0 && AvailableAsWritten(r.ring) == 0
    ensures r.ring.buffer == n.ring.buffer && r.currentTick == n.currentTick
  {
    n.(ring := n.ring.(writePosition := 0, readPosition := 0))
  }

  /** The result of running the loop: the node afterwards, the events in order, and whether the loop left. */
  datatype Outcome = Outcome(node: Node, events: seq<Event>, finished: bool)

  /** Every `Tick` event in a sequence carries a value above `low` and at most `high`, in increasing order. */
  predicate TicksRise(events: seq<Event>, low: nat, high: nat)
  {
    forall i :: 0 <= i < |events| && events[i].Tick? ==>
      (low < events[i].tick <= high && forall j :: i < j < |events| && events[j].Tick? ==> events[i].tick < events[j].tick)
  }

  /**
   `ProcessBuffer` as written, for at most `fuel` packages: it compares
   against `|write - read|`, handles each package it cuts off, and reports
   it. `finished` says the loop left on its own, at a ring where one more
   turn would stop. The bytes and the write cursor never change, and the
   current tick never goes down; every announced tick is higher than the
   one before it.
   */
  function ProcessBuffer(n: Node, env: Environment, fuel: nat): (r: Outcome)
    requires Valid(n.ring)
    ensures Valid(r.node.ring) && r.node.ring.buffer == n.ring.buffer && r.node.ring.writePosition == n.ring.writePosition
    ensures r.node.currentTick >= n.currentTick
    ensures TicksRise(r.events, n.currentTick, r.node.currentTick)
    ensures r.finished ==> StepWith(r.node.ring, AvailableAsWritten(r.node.ring), env.ipAddress).Stop?
    decreases fuel
  {
    match StepWith(n.ring, AvailableAsWritten(n.ring), env.ipAddress)
    case Stop => Outcome(n, [], true)
    case Emit(p, next) =>
      if fuel == 0 then Outcome(n, [], false)
      else
        var (tick, events) := ProcessPackage(n.currentTick, env, p);
        var rest := ProcessBuffer(Node(next, tick), env, fuel - 1);
        PackageTicks(n.currentTick, env, p);
        TicksJoin(events + [PackageReceived(p)], rest.events, n.currentTick, tick, rest.node.currentTick);
        Outcome(rest.node, events + [PackageReceived(p)] + rest.events, rest.finished)
  }

  /** Rising ticks up to `mid`, then rising ticks above `mid`, rise throughout. */
  lemma TicksJoin(a: seq<Event>, b: seq<Event>, low: nat, mid: nat, high: nat)
    requires TicksRise(a, low, mid) && TicksRise(b, mid, high) && low <= mid <= high
    ensures TicksRise(a + b, low, high)
  {
    forall i | 0 <= i < |a + b| && (a + b)[i].Tick?
      ensures low < (a + b)[i].tick <= high
      ensures forall j :: i < j < |a + b| && (a + b)[j].Tick? ==> (a + b)[i].tick < (a + b)[j].tick
    {
      if i < |a| {
        assert (a + b)[i] == a[i];
        forall j | i < j < |a + b| && (a + b)[j].Tick?
          ensures (a + b)[i].tick < (a + b)[j].tick
        {
          if j >= |a| {
            assert (a + b)[j] == b[j - |a|];
          }
        }
      } else {
        assert (a + b)[i] == b[i - |a|];
        forall j | i < j < |a + b| && (a + b)[j].Tick?
          ensures (a + b)[i].tick < (a + b)[j].tick
        {
          assert (a + b)[j] == b[j - |a|];
        }
      }
    }
  }

  /**
   The loop with the count of available bytes taken around the ring
   (`Unread`): each package takes bytes that were really written, the
   count shrinks by what each package takes, and the loop always leaves,
   at a ring with fewer than 8 unread bytes or fewer than the next header
   declares.
   */
  function ProcessBufferCorrected(n: Node, env: Environment): (r: (Node, seq<Event>))
    requires Valid(n.ring)
    ensures Valid(r.0.ring) && r.0.ring.buffer == n.ring.buffer && r.0.ring.writePosition == n.ring.writePosition
    ensures r.0.currentTick >= n.currentTick
    ensures TicksRise(r.1, n.currentTick, r.0.currentTick)
    ensures Unread(r.0.ring) <= Unread(n.ring)
    ensures StepWith(r.0.ring, Unread(r.0.ring), env.ipAddress).Stop?
    decreases Unread(n.ring)
  {
    match StepWith(n.ring, Unread(n.ring), env.ipAddress)
    case Stop => (n, [])
    case Emit(p, next) =>
      UnreadAfter(n.ring, Consumed(p.header));
      var (tick, events) := ProcessPackage(n.currentTick, env, p);
      var rest := ProcessBufferCorrected(Node(next, tick), env);
      PackageTicks(n.currentTick, env, p);
      TicksJoin(events + [PackageReceived(p)], rest.1, n.currentTick, tick, rest.0.currentTick);
      (rest.0, events + [PackageReceived(p)] + rest.1)
  }

  /**
   `WriteBuffer(data)` in full: the chunk goes into the ring, then the loop
   as written runs over it. Every byte of the chunk that is not overwritten
   by a later one is where the write put it: the loop moves only the read
   cursor.
   */
  function Receive(n: Node, env: Environment, data: Bytes, fuel: nat): (r: Result<Outcome>)
    requires Valid(n.ring)
    ensures r.Failure? <==> n.ring.writePosition + |data| > 2 * |n.ring.buffer|
    ensures r.Success? ==> Valid(r.value.node.ring) && |r.value.node.ring.buffer| == |n.ring.buffer|
    ensures r.Success? ==> r.value.node.ring.writePosition == Advanced(n.ring.writePosition, |data|, |n.ring.buffer|)
    ensures r.Success? ==> Written(n.ring.buffer, n.ring.writePosition, data, r.value.node.ring.buffer)
    ensures r.Success? ==> r.value.node.currentTick >= n.currentTick && TicksRise(r.value.events, n.currentTick, r.value.node.currentTick)
  {
    var ring :- WriteBuffer(n.ring, data);
    Success(ProcessBuffer(Node(ring, n.currentTick), env, fuel))
  }

  /** `WriteBuffer(data)` with the corrected loop, which always leaves. */
  function ReceiveCorrected(n: Node, env: Environment, data: Bytes): (r: Result<(Node, seq<Event>)>)
    requires Valid(n.ring)
    ensures r.Failure? <==> n.ring.writePosition + |data| > 2 * |n.ring.buffer|
    ensures r.Success? ==> Valid(r.value.0.ring) && |r.value.0.ring.buffer| == |n.ring.buffer|
    ensures r.Success? ==> r.value.0.ring.writePosition == Advanced(n.ring.writePosition, |data|, |n.ring.buffer|)
    ensures r.Success? ==> Written(n.ring.buffer, n.ring.writePosition, data, r.value.0.ring.buffer)
    ensures r.Success? ==> r.value.0.currentTick >= n.currentTick && TicksRise(r.value.1, n.currentTick, r.value.0.currentTick)
    ensures r.Success? ==> StepWith(r.value.0.ring, Unread(r.value.0.ring), env.ipAddress).Stop?
  {
    var ring :- WriteBuffer(n.ring, data);
    Success(ProcessBufferCorrected(Node(ring, n.currentTick), env))
  }

  /**
   A node with nothing unread that receives one whole package, header bytes
   then payload, dispatches it and then reports it, and nothing else: the
   events are the dispatcher's for that package followed by
   `OnPackageReceived` with the same header and payload, and nothing is
   left unread.
   */
  lemma ReceiveOne(n: Node, env: Environment, h: RequestResponseHeader.Header, payload: Bytes)
    requires Valid(n.ring) && Unread(n.ring) == 0
    requires RequestResponseHeader.Encodable(h) && RequestResponseHeader.HEADER_SIZE <= h.size < |n.ring.buffer|
    requires |payload| == h.size - RequestResponseHeader.HEADER_SIZE
    ensures var r := ReceiveCorrected(n, env, RequestResponseHeader.Data(h).value + payload);
      var p := ReceivedPackage(h, env.ipAddress, payload);
      var (tick, events) := ProcessPackage(n.currentTick, env, p);
      r.Success? && r.value.1 == events + [PackageReceived(p)] && r.value.0.currentTick == tick
      && Unread(r.value.0.ring) == 0
  {
    var data := RequestResponseHeader.Data(h).value + payload;
    FrameWritten(n.ring, h, payload, env.ipAddress);
    var ring := WriteBuffer(n.ring, data).value;
    var s := StepWith(ring, Unread(ring), env.ipAddress);
    var tick := ProcessPackage(n.currentTick, env, s.package).0;
    assert StepWith(s.next, Unread(s.next), env.ipAddress).Stop?;
    assert ProcessBufferCorrected(Node(s.next, tick), env) == (Node(s.next, tick), []);
  }

  // What the two counts make of the same ring

  /** The size a header declares is the little-endian value of its first three bytes. */
  lemma DeclaredSize(g: Ring, size: nat)
    requires |g.buffer| > 0 && size < TWO_24
    requires Ahead(g, 3) == ToLE(size, 3)
    ensures PeekHeader(g).size == size
  {
    var h := PeekHeader(g);
    assert Ahead(g, RequestResponseHeader.HEADER_SIZE)[..3] == Ahead(g, 3);
    Pow256Values();
    UnsignedSlot(h.size, size, 3);
  }

  /**
   Stale bytes: the reader two bytes before the end of the array, the
   writer wrapped round to 3. Five bytes are unread, too few for a header,
   and the corrected loop waits; the count as written is the capacity minus
   five, so the loop cuts a header from the five fresh bytes and three
   bytes left over from an earlier pass, and emits a package.
   */
  lemma StaleEmission(g: Ring, ipAddress: string)
    requires Valid(g) && |g.buffer| == BUFFER_SIZE
    requires g.readPosition == BUFFER_SIZE - 2 && g.writePosition == 3 && g.buffer[0] == 0
    ensures Unread(g) == 5 && StepWith(g, Unread(g), ipAddress).Stop?
    ensures AvailableAsWritten(g) == BUFFER_SIZE - 5 && StepWith(g, AvailableAsWritten(g), ipAddress).Emit?
  {
    assert Ahead(g, 3)[2] == g.buffer[0];
    ShortSize(g);
  }

  /** A header whose top size byte is zero declares fewer than 2^16 bytes. */
  lemma ShortSize(g: Ring)
    requires |g.buffer| > 0 && Ahead(g, 3)[2] == 0
    ensures PeekHeader(g).size < TWO_16
  {
    var size := PeekHeader(g).size;
    var top := Ahead(g, 3);
    assert Ahead(g, RequestResponseHeader.HEADER_SIZE)[..3] == top;
    Pow256Values();
    FromLEToLE(size, 3);
    FromLEShort(top);
  }

  /** The width of a header's size field. */
  const SIZE_BYTES: nat := 3

  /** The ring of the endless loop: reader 1000 bytes before the end, writer at 5, two headers that lead round to each other. */
  predicate Spinning(g: Ring)
  {
    |g.buffer| == BUFFER_SIZE && g.writePosition == 5 && g.readPosition == BUFFER_SIZE - 1000
    && g.buffer[BUFFER_SIZE - 1000..BUFFER_SIZE - 997] == ToLE(1000, SIZE_BYTES)
    && g.buffer[..3] == ToLE(BUFFER_SIZE - 1000, SIZE_BYTES)
  }

  /**
   The first turn of the loop as written on a spinning ring: the header
   ahead declares 1000 bytes, so the package ends exactly at the end of the
   array and the reader rests there.
   */
  lemma SpinToEnd(g: Ring, ipAddress: string)
    requires Spinning(g)
    ensures Valid(g) && StepWith(g, AvailableAsWritten(g), ipAddress).Emit?
    ensures StepWith(g, AvailableAsWritten(g), ipAddress).next == g.(readPosition := BUFFER_SIZE)
  {
    assert Ahead(g, 3) == g.buffer[BUFFER_SIZE - 1000..BUFFER_SIZE - 997];
    DeclaredSize(g, 1000);
  }

  /**
   The second turn: with the reader at the end of the array the count is the
   capacity minus five, and the header at the start of the array declares a
   package of the capacity minus 1000 bytes, which takes the reader back to
   where it started.
   */
  lemma SpinBack(g: Ring, ipAddress: string)
    requires Spinning(g)
    ensures var atEnd := g.(readPosition := BUFFER_SIZE);
      Valid(atEnd) && StepWith(atEnd, AvailableAsWritten(atEnd), ipAddress).Emit?
      && StepWith(atEnd, AvailableAsWritten(atEnd), ipAddress).next == g
  {
    var atEnd := g.(readPosition := BUFFER_SIZE);
    assert Ahead(atEnd, 3) == g.buffer[..3] by {
      forall k | 0 <= k < 3
        ensures RingByte(atEnd, k) == g.buffer[k]
      {
        ModOnce(BUFFER_SIZE + k, BUFFER_SIZE);
      }
    }
    DeclaredSize(atEnd, BUFFER_SIZE - 1000);
  }

  /** The node the loop as written moves to after emitting the package ahead of it. */
  function AfterPackage(n: Node, env: Environment): (r: Node)
    requires Valid(n.ring) && StepWith(n.ring, AvailableAsWritten(n.ring), env.ipAddress).Emit?
    ensures Valid(r.ring) && r.currentTick >= n.currentTick
  {
    var s := StepWith(n.ring, AvailableAsWritten(n.ring), env.ipAddress);
    Node(s.next, ProcessPackage(n.currentTick, env, s.package).0)
  }

  /** One turn of the loop as written: a package out, then the rest of the loop on what follows it. */
  lemma Unroll(n: Node, env: Environment, fuel: nat, rest: nat)
    requires Valid(n.ring) && StepWith(n.ring, AvailableAsWritten(n.ring), env.ipAddress).Emit?
    requires fuel == rest + 1
    ensures ProcessBuffer(n, env, fuel).finished == ProcessBuffer(AfterPackage(n, env), env, rest).finished
  {
    assert ProcessBuffer(n, env, rest + 1).finished == ProcessBuffer(AfterPackage(n, env), env, rest).finished;
  }

  /** Out of turns with a package ahead, the loop as written reports that it has not finished. */
  lemma OutOfFuel(n: Node, env: Environment)
    requires Valid(n.ring) && StepWith(n.ring, AvailableAsWritten(n.ring), env.ipAddress).Emit?
    ensures !ProcessBuffer(n, env, 0).finished
  {
  }

  /** The two rings the loop as written alternates between on a spinning ring. */
  predicate OnCycle(g: Ring)
  {
    Spinning(g) || (g.readPosition == BUFFER_SIZE && Spinning(g.(readPosition := BUFFER_SIZE - 1000)))
  }

  /** From either ring of the cycle the loop as written emits a package and lands on the other. */
  lemma CycleStep(g: Ring, ipAddress: string)
    requires OnCycle(g)
    ensures Valid(g) && StepWith(g, AvailableAsWritten(g), ipAddress).Emit?
    ensures OnCycle(StepWith(g, AvailableAsWritten(g), ipAddress).next)
  {
    if Spinning(g) {
      SpinToEnd(g, ipAddress);
    } else {
      SpinBack(g.(readPosition := BUFFER_SIZE - 1000), ipAddress);
    }
  }

  /** On a spinning ring the loop as written never leaves, however many turns it is given. */
  lemma {:induction false} NeverFinishes(n: Node, env: Environment, fuel: nat)
    requires OnCycle(n.ring)
    ensures Valid(n.ring) && !ProcessBuffer(n, env, fuel).finished
    decreases fuel
  {
    CycleStep(n.ring, env.ipAddress);
    if fuel == 0 {
      OutOfFuel(n, env);
    } else {
      var rest: nat := fuel - 1;
      Unroll(n, env, fuel, rest);
      NeverFinishes(AfterPackage(n, env), env, rest);
    }
  }

  /** On the same ring the corrected loop takes the 1000-byte package and stops at the end of the array. */
  lemma SpinningCorrected(g: Ring, currentTick: nat, env: Environment)
    requires Spinning(g)
    ensures Valid(g) && Unread(g) == 1005
    ensures var after := ProcessBufferCorrected(Node(g, currentTick), env).0.ring;
      after.readPosition == BUFFER_SIZE && Unread(after) == 5
  {
    var atEnd := g.(readPosition := BUFFER_SIZE);
    assert Ahead(g, 3) == g.buffer[BUFFER_SIZE - 1000..BUFFER_SIZE - 997];
    DeclaredSize(g, 1000);
    var first := StepWith(g, Unread(g), env.ipAddress);
    assert first.Emit? && first.next == atEnd;
    assert StepWith(atEnd, Unread(atEnd), env.ipAddress).Stop?;
  }
}
