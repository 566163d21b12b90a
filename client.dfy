/**
 * The transport half of `Client`: the growable send and receive buffers,
 * framing outgoing messages into the send buffer (`send_msg`), cutting
 * complete frames off the front of the receive buffer (`recv_msg`), and the
 * non-blocking socket loops that fill and drain them (`net_tcp_recv`,
 * `net_tcp_send`).
 *
 * A buffer's live bytes are kept as a sequence whose length is the C struct's
 * `recvlen` / `sendlen`; its allocated size is `recvbuf_len` / `sendbuf_len`.
 * Each `read`/`write` the loops make is answered by the next entry of an event
 * script; a script that has run out answers like an empty non-blocking socket.
 */
module Transport {
  import opened Results
  import opened Bytes
  import opened MessageRegistry
  import opened Codec
  import opened SockAddr

  /** `kBlockSize`: buffers are allocated in whole blocks of this size. */
  const KBlockSize: int := 4096
  /** Both buffers grow once fewer than this many bytes would be left free. */
  const Headroom: int := 128

  predicate IsBlockMultiple(n: int) {
    n >= KBlockSize && n % KBlockSize == 0
  }

  /** C `/` on `int`: the quotient is truncated toward zero. */
  function TruncDiv(a: int, b: int): int
    requires b > 0
  {
    if a >= 0 then a / b else -((-a) / b)
  }

  /** `calc_buffer_size`: `needsize` rounded to whole blocks. */
  function CalcBufferSize(needsize: int): int {
    TruncDiv(needsize + KBlockSize - 1, KBlockSize) * KBlockSize
  }

  /** For every size a buffer can need, `calc_buffer_size` is the least block multiple that holds it. */
  lemma CalcBufferSizeIsLeastBlockMultiple(n: int)
    requires n >= 0
    ensures CalcBufferSize(n) % KBlockSize == 0
    ensures n <= CalcBufferSize(n) < n + KBlockSize
  {
    var q := (n + KBlockSize - 1) / KBlockSize;
    assert q * KBlockSize <= n + KBlockSize - 1 < q * KBlockSize + KBlockSize;
  }

  /** A buffer of whole blocks grows by exactly one block when asked for one more. */
  lemma CalcBufferSizeAddsOneBlock(cap: int)
    requires IsBlockMultiple(cap)
    ensures CalcBufferSize(cap + KBlockSize) == cap + KBlockSize
  {
    CalcBufferSizeIsLeastBlockMultiple(cap + KBlockSize);
  }

  /** The send buffer's size after `send_msg` appends `add` bytes to `len` live bytes held in `cap`. */
  function SendCapacity(len: int, add: int, cap: int): int {
    if len + add + Headroom >= cap then CalcBufferSize(cap + add) else cap
  }

  /** The receive buffer's size after `net_tcp_recv` has brought it to `len` live bytes in `cap`. */
  function RecvCapacity(len: int, cap: int): int {
    if len + Headroom >= cap then CalcBufferSize(cap + KBlockSize) else cap
  }

  /** Appending keeps the headroom invariant: the sized buffer is whole blocks and keeps 128 bytes free. */
  lemma SendCapacityKeepsHeadroom(len: int, add: int, cap: int)
    requires 0 <= len && len + Headroom < cap && IsBlockMultiple(cap) && add >= 0
    ensures IsBlockMultiple(SendCapacity(len, add, cap))
    ensures len + add + Headroom < SendCapacity(len, add, cap)
    ensures SendCapacity(len, add, cap) >= cap
  {
    if len + add + Headroom >= cap {
      CalcBufferSizeIsLeastBlockMultiple(cap + add);
    }
  }

  /** A read that leaves at most a full buffer keeps the headroom invariant after the growth check. */
  lemma RecvCapacityKeepsHeadroom(len: int, cap: int)
    requires 0 <= len <= cap && IsBlockMultiple(cap)
    ensures IsBlockMultiple(RecvCapacity(len, cap))
    ensures len + Headroom < RecvCapacity(len, cap)
    ensures RecvCapacity(len, cap) >= cap
  {
    if len + Headroom >= cap {
      CalcBufferSizeAddsOneBlock(cap);
    }
  }

  /** `struct Buffer`. */
  class Buffer {
    var recvlen: int
    var sendlen: int
    var recvbufLen: int
    var sendbufLen: int
    /** The live bytes `recvbuf[0..recvlen)`. */
    var recvbuf: seq<Byte>
    /** The live bytes `sendbuf[0..sendlen)`. */
    var sendbuf: seq<Byte>

    /** Lengths agree with the live bytes; each buffer is whole blocks and keeps its headroom free. */
    predicate Valid()
      reads this
    {
      && recvlen == |recvbuf| && sendlen == |sendbuf|
      && IsBlockMultiple(recvbufLen) && IsBlockMultiple(sendbufLen)
      && recvlen + Headroom < recvbufLen && sendlen + Headroom < sendbufLen
    }

    /** One block each way, both empty. */
    constructor()
      ensures Valid()
      ensures recvbuf == [] && sendbuf == []
      ensures recvbufLen == KBlockSize && sendbufLen == KBlockSize
    {
      recvlen, sendlen := 0, 0;
      recvbufLen, sendbufLen := KBlockSize, KBlockSize;
      recvbuf, sendbuf := [], [];
    }

    /**
     * The step of `net_tcp_recv` after a `read` placed `bytes` in the free
     * room: count them, then grow by a block if the headroom is used up.
     */
    method AppendReceived(bytes: seq<Byte>)
      requires Valid() && recvlen + |bytes| <= recvbufLen
      modifies this
      ensures Valid()
      ensures recvbuf == old(recvbuf) + bytes
      ensures recvbufLen == RecvCapacity(old(recvlen) + |bytes|, old(recvbufLen))
      ensures sendbuf == old(sendbuf) && sendbufLen == old(sendbufLen) && sendlen == old(sendlen)
    {
      RecvCapacityKeepsHeadroom(recvlen + |bytes|, recvbufLen);
      recvbuf := recvbuf + bytes;
      recvlen := recvlen + |bytes|;
      if recvlen + Headroom >= recvbufLen {
        recvbufLen := CalcBufferSize(recvbufLen + KBlockSize);
      }
    }

    /** `Clear`: drops the live bytes and keeps the allocations. */
    method Clear()
      requires Valid()
      modifies this
      ensures Valid()
      ensures recvbuf == [] && sendbuf == []
      ensures recvbufLen == old(recvbufLen) && sendbufLen == old(sendbufLen)
    {
      recvlen, sendlen := 0, 0;
      recvbuf, sendbuf := [], [];
    }
  }

  // ----- send_msg -----

  datatype SendError = NotConnected | EncodeFailed(error: EncodeError) | TooBig(size: int)

  /** What `send_msg` appends to the send buffer, or why it refuses. */
  function SendPackage(reg: Registry, hasChecksum: bool, maxPkgLen: int, connected: bool,
                       head: Message, body: Message): (r: Result<seq<Byte>, SendError>)
    ensures r.Success? <==>
      connected && Encode(reg, hasChecksum, head, body).Success?
      && |Encode(reg, hasChecksum, head, body).value| <= maxPkgLen
    ensures r.Success? ==> r.value == Encode(reg, hasChecksum, head, body).value
    ensures !connected ==> r == Failure(NotConnected)
  {
    if !connected then Failure(NotConnected)
    else match Encode(reg, hasChecksum, head, body)
      case Failure(e) => Failure(EncodeFailed(e))
      case Success(pkg) => if |pkg| > maxPkgLen then Failure(TooBig(|pkg|)) else Success(pkg)
  }

  // ----- recv_msg -----

  datatype RecvError = LengthOutOfRange(len: int) | DecodeFailed(error: DecodeError)

  /** `recv_msg`'s verdict: `complete == false` with `true`, a decoded pair, or `false`. */
  datatype RecvOutcome = Incomplete | Received(head: Message, body: Message) | RecvFailed(error: RecvError)

  /**
   * What `recv_msg` makes of the live receive bytes: the outcome and how many
   * bytes the frame it took occupied (0 unless a frame was received).
   */
  function RecvSpec(reg: Registry, hasChecksum: bool, maxPkgLen: int, data: seq<Byte>): (r: (RecvOutcome, int))
    requires HeadTypeName in reg.creatable
    ensures 0 <= r.1 <= |data|
    ensures r.0.Received? <==> r.1 > 0
    ensures r.0.Received? ==>
      && r.1 >= 8 && r.1 <= maxPkgLen && r.1 == ReadBeI32(data)
      && Decode(reg, hasChecksum, data[..r.1]) == Success((r.0.head, r.0.body))
  {
    if |data| < 4 then (Incomplete, 0)
    else
      var len := ReadBeI32(data);
      if len < 8 || len > maxPkgLen then (RecvFailed(LengthOutOfRange(len)), 0)
      else if |data| < len then (Incomplete, 0)
      else match Decode(reg, hasChecksum, data[..len])
        case Failure(e) => (RecvFailed(DecodeFailed(e)), 0)
        case Success(pair) => (Received(pair.0, pair.1), len)
  }

  /** `recv_msg` waits exactly while the length word, or the frame it announces, has not all arrived. */
  lemma RecvSpecIncomplete(reg: Registry, hasChecksum: bool, maxPkgLen: int, data: seq<Byte>)
    requires HeadTypeName in reg.creatable
    ensures RecvSpec(reg, hasChecksum, maxPkgLen, data).0 == Incomplete <==>
      |data| < 4 || (8 <= ReadBeI32(data) <= maxPkgLen && |data| < ReadBeI32(data))
  {
  }

  /** Only the first four bytes of a longer byte string are read for its length word. */
  lemma ReadBeI32Prefix(s: seq<Byte>, t: seq<Byte>)
    requires |s| >= 4
    ensures ReadBeI32(s + t) == ReadBeI32(s)
  {
    assert (s + t)[0] == s[0] && (s + t)[1] == s[1] && (s + t)[2] == s[2] && (s + t)[3] == s[3];
  }

  /**
   * What `send_msg` queues is what the peer's `recv_msg` takes: with the same
   * checksum setting and package limit, the frame at the front of the peer's
   * receive buffer is returned whole (head as the head type) and exactly its
   * bytes are consumed, whatever follows it.
   */
  lemma SentFrameIsReceived(reg: Registry, hasChecksum: bool, maxPkgLen: int,
                            head: Message, body: Message, rest: seq<Byte>)
    requires HeadTypeName in reg.creatable
    requires RoundTrips(reg, head, HeadTypeName) && RoundTrips(reg, body, body.typeName)
    requires HasField(reg, HeadTypeName, TypeNameField)
    requires StringField(head, TypeNameField) == body.typeName && body.typeName in reg.creatable
    requires maxPkgLen < TwoTo31
    requires SendPackage(reg, hasChecksum, maxPkgLen, true, head, body).Success?
    ensures var pkg := SendPackage(reg, hasChecksum, maxPkgLen, true, head, body).value;
      RecvSpec(reg, hasChecksum, maxPkgLen, pkg + rest) == (Received(Message(HeadTypeName, head.fields), body), |pkg|)
  {
    var pkg := SendPackage(reg, hasChecksum, maxPkgLen, true, head, body).value;
    DecodeEncode(reg, hasChecksum, head, body);
    EncodeLayout(reg, hasChecksum, head, body);
    ReadBeI32Prefix(pkg, rest);
    assert (pkg + rest)[..|pkg|] == pkg;
  }

  /** While only part of a queued frame has arrived, the peer's `recv_msg` keeps waiting. */
  lemma PartialFrameIsIncomplete(reg: Registry, hasChecksum: bool, maxPkgLen: int,
                                 head: Message, body: Message, k: nat)
    requires HeadTypeName in reg.creatable
    requires maxPkgLen < TwoTo31
    requires SendPackage(reg, hasChecksum, maxPkgLen, true, head, body).Success?
    requires k < |SendPackage(reg, hasChecksum, maxPkgLen, true, head, body).value|
    ensures var pkg := SendPackage(reg, hasChecksum, maxPkgLen, true, head, body).value;
      RecvSpec(reg, hasChecksum, maxPkgLen, pkg[..k]).0 == Incomplete
  {
    var pkg := SendPackage(reg, hasChecksum, maxPkgLen, true, head, body).value;
    EncodeLayout(reg, hasChecksum, head, body);
    if k >= 4 {
      ReadBeI32Prefix(pkg[..k], pkg[k..]);
      assert pkg[..k] + pkg[k..] == pkg;
    }
  }

  // ----- net_tcp_recv -----

  /** One `read` on the socket: bytes (none is end of file), EINTR, EAGAIN, or another error. */
  datatype ReadEvent = Chunk(data: seq<Byte>) | ReadInterrupted | ReadWouldBlock | ReadFailed

  /** Where a `net_tcp_recv` call leaves things: return value, live bytes, size, and the unread events. */
  datatype Pumped = Pumped(status: int, data: seq<Byte>, cap: int, rest: seq<ReadEvent>)

  function EventSize(e: ReadEvent): nat {
    if e.Chunk? then |e.data| else 0
  }

  /** Decreases with every `read`, including one that takes only part of a chunk. */
  function Weight(events: seq<ReadEvent>): nat {
    if |events| == 0 then 0 else 1 + EventSize(events[0]) + Weight(events[1..])
  }

  /** All bytes the events offer, in order. */
  function Stream(events: seq<ReadEvent>): seq<Byte> {
    if |events| == 0 then [] else (if events[0].Chunk? then events[0].data else []) + Stream(events[1..])
  }

  function Min(a: int, b: int): int {
    if a <= b then a else b
  }

  /** The events after a `read` took `n` bytes of the first chunk: its unread tail stays at the front. */
  function AfterRead(events: seq<ReadEvent>, n: int): (r: seq<ReadEvent>)
    requires |events| > 0 && events[0].Chunk? && 0 < n <= |events[0].data|
    ensures Weight(r) < Weight(events)
    ensures Stream(r) == events[0].data[n..] + Stream(events[1..])
    ensures n == |events[0].data| ==> r == events[1..]
    ensures n < |events[0].data| ==> r == [Chunk(events[0].data[n..])] + events[1..]
  {
    var d := events[0].data;
    if n < |d| then
      var r := [Chunk(d[n..])] + events[1..];
      assert r[1..] == events[1..];
      r
    else
      assert d[n..] == [];
      events[1..]
  }

  /**
   * The loop of `net_tcp_recv`: each `read` asks for the free room of the
   * buffer and gets at most that much of the next chunk (the rest stays
   * queued); the buffer grows by a block when its headroom is used up.
   * EINTR retries, EAGAIN (or no more events) returns 0, end of file and
   * other errors return -1.
   */
  function Pump(data: seq<Byte>, cap: int, events: seq<ReadEvent>): (p: Pumped)
    requires |data| + Headroom < cap && IsBlockMultiple(cap)
    ensures p.status == 0 || p.status == -1
    ensures |p.data| + Headroom < p.cap && IsBlockMultiple(p.cap) && p.cap >= cap
    ensures data <= p.data
    decreases Weight(events)
  {
    if |events| == 0 then Pumped(0, data, cap, [])
    else match events[0]
      case ReadWouldBlock => Pumped(0, data, cap, events[1..])
      case ReadFailed => Pumped(-1, data, cap, events[1..])
      case ReadInterrupted => Pump(data, cap, events[1..])
      case Chunk(d) =>
        if |d| == 0 then Pumped(-1, data, cap, events[1..])
        else
          var n := ReadCount(data, cap, d);
          var data' := data + d[..n];
          RecvCapacityKeepsHeadroom(|data'|, cap);
          Pump(data', RecvCapacity(|data'|, cap), AfterRead(events, n))
  }

  /** The buffer's free room bounds what one `read` takes of the next chunk. */
  function ReadCount(data: seq<Byte>, cap: int, d: seq<Byte>): int {
    Min(|d|, cap - |data|)
  }

  /** One `read` that returns bytes: append them, grow if needed, and carry on with the rest. */
  lemma PumpChunk(data: seq<Byte>, cap: int, events: seq<ReadEvent>)
    requires |data| + Headroom < cap && IsBlockMultiple(cap)
    requires |events| > 0 && events[0].Chunk? && |events[0].data| > 0
    ensures var n := ReadCount(data, cap, events[0].data);
      var data' := data + events[0].data[..n];
      && 0 < n <= |events[0].data|
      && |data'| + Headroom < RecvCapacity(|data'|, cap) && IsBlockMultiple(RecvCapacity(|data'|, cap))
      && Pump(data, cap, events) == Pump(data', RecvCapacity(|data'|, cap), AfterRead(events, n))
  {
    var n := ReadCount(data, cap, events[0].data);
    RecvCapacityKeepsHeadroom(|data + events[0].data[..n]|, cap);
  }

  /** No byte is lost, duplicated or reordered: what was read plus what is still queued is all that was offered. */
  lemma {:induction false} PumpConservesBytes(data: seq<Byte>, cap: int, events: seq<ReadEvent>)
    requires |data| + Headroom < cap && IsBlockMultiple(cap)
    ensures var p := Pump(data, cap, events); p.data + Stream(p.rest) == data + Stream(events)
    decreases Weight(events), 1
  {
    if |events| == 0 {
    } else if events[0].ReadInterrupted? {
      assert Weight(events[1..]) < Weight(events);
      assert Pump(data, cap, events) == Pump(data, cap, events[1..]);
      assert Stream(events) == Stream(events[1..]);
      PumpConservesBytes(data, cap, events[1..]);
    } else if events[0].Chunk? && |events[0].data| > 0 {
      PumpConservesChunk(data, cap, events);
    } else {
      assert Stream(events) == Stream(events[1..]);
    }
  }

  /** `PumpConservesBytes` when the next `read` returns bytes. */
  lemma {:induction false} PumpConservesChunk(data: seq<Byte>, cap: int, events: seq<ReadEvent>)
    requires |data| + Headroom < cap && IsBlockMultiple(cap)
    requires |events| > 0 && events[0].Chunk? && |events[0].data| > 0
    ensures var p := Pump(data, cap, events); p.data + Stream(p.rest) == data + Stream(events)
    decreases Weight(events), 0
  {
    var d := events[0].data;
    var n := ReadCount(data, cap, d);
    var data' := data + d[..n];
    PumpChunk(data, cap, events);
    PumpConservesBytes(data', RecvCapacity(|data'|, cap), AfterRead(events, n));
    SplitRead(data, d, n, Stream(events[1..]));
  }

  /** Reading `n` bytes of a chunk and leaving its tail queued keeps the byte order. */
  lemma SplitRead(data: seq<Byte>, d: seq<Byte>, n: int, later: seq<Byte>)
    requires 0 <= n <= |d|
    ensures (data + d[..n]) + (d[n..] + later) == data + (d + later)
  {
    assert d == d[..n] + d[n..];
  }

  /** An event offering bytes (or asking for a retry): it never stops the loop. */
  predicate Keeps(e: ReadEvent) {
    e.ReadInterrupted? || (e.Chunk? && |e.data| > 0)
  }

  /** While the socket only delivers data, one `net_tcp_recv` call reads all of it and returns 0. */
  lemma {:induction false} PumpDrainsData(data: seq<Byte>, cap: int, events: seq<ReadEvent>)
    requires |data| + Headroom < cap && IsBlockMultiple(cap)
    requires forall i :: 0 <= i < |events| ==> Keeps(events[i])
    ensures var p := Pump(data, cap, events); p.status == 0 && p.rest == [] && p.data == data + Stream(events)
    decreases Weight(events)
  {
    if |events| > 0 {
      match events[0]
      case ReadInterrupted =>
        PumpDrainsData(data, cap, events[1..]);
      case Chunk(d) =>
        var n := Min(|d|, cap - |data|);
        var data' := data + d[..n];
        var rest := AfterRead(events, n);
        assert forall i :: 0 <= i < |rest| ==> Keeps(rest[i]) by {
          forall i | 0 <= i < |rest| ensures Keeps(rest[i]) {
            if n < |d| && i > 0 { assert rest[i] == events[i]; }
            else if n >= |d| { assert rest[i] == events[i + 1]; }
          }
        }
        RecvCapacityKeepsHeadroom(|data'|, cap);
        PumpDrainsData(data', RecvCapacity(|data'|, cap), rest);
        PumpConservesBytes(data, cap, events);
    }
  }

  /** A failed read (end of file or error) ends the call with -1 and consumes nothing after it. */
  lemma PumpStopsAtFailure(data: seq<Byte>, cap: int, e: ReadEvent, later: seq<ReadEvent>)
    requires |data| + Headroom < cap && IsBlockMultiple(cap)
    requires e == ReadFailed || e == Chunk([])
    ensures Pump(data, cap, [e] + later) == Pumped(-1, data, cap, later)
  {
    assert ([e] + later)[1..] == later;
  }

  // ----- net_tcp_send -----

  /** One `write` on the socket: the count accepted (0 is end of file), EINTR, EAGAIN, or another error. */
  datatype WriteEvent = Accepted(count: nat) | WriteInterrupted | WriteWouldBlock | WriteFailed

  /** Return value, bytes written, and the unused events. */
  datatype Flushed = Flushed(status: int, sent: int, rest: seq<WriteEvent>)

  /**
   * The loop of `net_tcp_send` over `remaining` queued bytes: each `write`
   * offers all that is left and the kernel takes at most that; EINTR retries,
   * EAGAIN (or no more events) stops with 0, a zero count and other errors stop
   * with -1.
   */
  function Flush(remaining: int, events: seq<WriteEvent>): (f: Flushed)
    requires remaining >= 0
    ensures f.status == 0 || f.status == -1
    ensures 0 <= f.sent <= remaining
    decreases |events|
  {
    if remaining == 0 then Flushed(0, 0, events)
    else if |events| == 0 then Flushed(0, 0, [])
    else match events[0]
      case WriteWouldBlock => Flushed(0, 0, events[1..])
      case WriteFailed => Flushed(-1, 0, events[1..])
      case WriteInterrupted => Flush(remaining, events[1..])
      case Accepted(k) =>
        if k == 0 then Flushed(-1, 0, events[1..])
        else
          var n := Min(k, remaining);
          var f := Flush(remaining - n, events[1..]);
          Flushed(f.status, n + f.sent, f.rest)
  }

  /** The bytes written are the sum of the counts the kernel accepted, up to what was queued. */
  function AcceptedTotal(events: seq<WriteEvent>): nat {
    if |events| == 0 then 0 else (if events[0].Accepted? then events[0].count else 0) + AcceptedTotal(events[1..])
  }

  predicate Writes(e: WriteEvent) {
    e.WriteInterrupted? || (e.Accepted? && e.count > 0)
  }

  /** While the socket only accepts, or asks for a retry, everything queued is written once it has taken enough. */
  lemma {:induction false} FlushWritesAccepted(remaining: int, events: seq<WriteEvent>)
    requires remaining >= 0
    requires forall i :: 0 <= i < |events| ==> Writes(events[i])
    ensures Flush(remaining, events).status == 0
    ensures Flush(remaining, events).sent == Min(remaining, AcceptedTotal(events))
    decreases |events|
  {
    if remaining > 0 && |events| > 0 {
      assert forall i :: 0 <= i < |events[1..]| ==> Writes(events[1..][i]) by {
        forall i | 0 <= i < |events[1..]| ensures Writes(events[1..][i]) { assert events[1..][i] == events[i + 1]; }
      }
      assert Writes(events[0]);
      if events[0].Accepted? {
        FlushWritesAccepted(remaining - Min(events[0].count, remaining), events[1..]);
      } else {
        FlushWritesAccepted(remaining, events[1..]);
      }
    }
  }

  /**
   * A failed write (an error, or a zero count for end of file) while bytes
   * are still queued ends the call with -1, after whatever the earlier writes
   * took, and consumes nothing after it.
   */
  lemma {:induction false} FlushStopsAtFailure(remaining: int, pre: seq<WriteEvent>, e: WriteEvent, later: seq<WriteEvent>)
    requires remaining > AcceptedTotal(pre)
    requires forall i :: 0 <= i < |pre| ==> Writes(pre[i])
    requires e == WriteFailed || e == Accepted(0)
    ensures Flush(remaining, pre + [e] + later) == Flushed(-1, AcceptedTotal(pre), later)
    decreases |pre|
  {
    var events := pre + [e] + later;
    if |pre| == 0 {
      assert events == [e] + later;
      assert events[1..] == later;
    } else {
      assert events[0] == pre[0];
      assert events[1..] == pre[1..] + [e] + later;
      assert forall i :: 0 <= i < |pre[1..]| ==> Writes(pre[1..][i]) by {
        forall i | 0 <= i < |pre[1..]| ensures Writes(pre[1..][i]) { assert pre[1..][i] == pre[i + 1]; }
      }
      assert Writes(pre[0]);
      if pre[0].Accepted? {
        FlushStopsAtFailure(remaining - pre[0].count, pre[1..], e, later);
      } else {
        FlushStopsAtFailure(remaining, pre[1..], e, later);
      }
    }
  }

  /** `class Client` (its transport state; the head and body types come from the registry). */
  class Client {
    var connfd: int
    const maxPkgLen: int
    const hasChecksum: bool
    const buffer: Buffer

    predicate Valid()
      reads this, buffer
    {
      buffer.Valid()
    }

    /** `Client(max_pkg_len, has_checksum)`: not connected, empty buffers of one block. */
    constructor(maxPkgLen: int, hasChecksum: bool)
      ensures Valid() && connfd == -1
      ensures this.maxPkgLen == maxPkgLen && this.hasChecksum == hasChecksum
      ensures fresh(buffer) && buffer.recvbuf == [] && buffer.sendbuf == []
      ensures buffer.recvbufLen == KBlockSize && buffer.sendbufLen == KBlockSize
    {
      connfd := -1;
      this.maxPkgLen := maxPkgLen;
      this.hasChecksum := hasChecksum;
      buffer := new Buffer();
    }

    /** `is_connected`. */
    predicate IsConnected()
      reads this
    {
      connfd >= 0
    }

    /**
     * `try_connect_to_peer`: true at once when already connected, else the
     * result of `tcp_connect` becomes the descriptor.
     */
    method TryConnectToPeer(svraddr: string, pton: (Family, string) -> bool, sys: SocketOutcome) returns (ok: bool)
      modifies this
      ensures old(IsConnected()) ==> ok && connfd == old(connfd)
      ensures !old(IsConnected()) ==> connfd == TcpConnect(svraddr, pton, sys)
      ensures ok <==> IsConnected()
    {
      if IsConnected() { return true; }
      connfd := TcpConnect(svraddr, pton, sys);
      ok := connfd != -1;
    }

    /** `close_connection`: a connected client forgets its descriptor; otherwise nothing happens. */
    method CloseConnection()
      modifies this
      ensures !IsConnected()
      ensures !old(IsConnected()) ==> connfd == old(connfd)
      ensures old(IsConnected()) ==> connfd == -1
    {
      if !IsConnected() { return; }
      connfd := -1;
    }

    /** `clear_buffer`. */
    method ClearBuffer()
      requires Valid()
      modifies buffer
      ensures Valid()
      ensures buffer.recvbuf == [] && buffer.sendbuf == []
      ensures buffer.recvbufLen == old(buffer.recvbufLen) && buffer.sendbufLen == old(buffer.sendbufLen)
    {
      buffer.Clear();
    }

    /**
     * `send_msg`: the frame is appended to the send buffer, which first grows
     * to whole blocks when it would come within 128 bytes of full; on refusal
     * nothing changes.
     */
    method SendMsg(reg: Registry, head: Message, body: Message) returns (r: Outcome<SendError>)
      requires Valid()
      modifies buffer
      ensures Valid()
      ensures buffer.recvbuf == old(buffer.recvbuf) && buffer.recvbufLen == old(buffer.recvbufLen)
      ensures match SendPackage(reg, hasChecksum, maxPkgLen, IsConnected(), head, body)
        case Failure(e) => r == Fail(e) && buffer.sendbuf == old(buffer.sendbuf)
                           && buffer.sendbufLen == old(buffer.sendbufLen)
        case Success(pkg) => r == Pass && buffer.sendbuf == old(buffer.sendbuf) + pkg
                             && buffer.sendbufLen == SendCapacity(old(buffer.sendlen), |pkg|, old(buffer.sendbufLen))
    {
      if !IsConnected() { return Fail(NotConnected); }
      var pkg := Encode(reg, hasChecksum, head, body);
      if pkg.Failure? { return Fail(EncodeFailed(pkg.error)); }
      if |pkg.value| > maxPkgLen { return Fail(TooBig(|pkg.value|)); }
      SendCapacityKeepsHeadroom(buffer.sendlen, |pkg.value|, buffer.sendbufLen);
      if buffer.sendlen + |pkg.value| + Headroom >= buffer.sendbufLen {
        buffer.sendbufLen := CalcBufferSize(buffer.sendbufLen + |pkg.value|);
      }
      buffer.sendbuf := buffer.sendbuf + pkg.value;
      buffer.sendlen := buffer.sendlen + |pkg.value|;
      r := Pass;
    }

    /**
     * `recv_msg`: a complete, decodable frame at the front of the receive
     * buffer is returned and removed; a partial one is left waiting; a bad
     * length or an undecodable frame is an error and the bytes stay.
     */
    method RecvMsg(reg: Registry) returns (r: RecvOutcome)
      requires Valid() && HeadTypeName in reg.creatable
      modifies buffer
      ensures Valid()
      ensures r == RecvSpec(reg, hasChecksum, maxPkgLen, old(buffer.recvbuf)).0
      ensures buffer.recvbuf == old(buffer.recvbuf)[RecvSpec(reg, hasChecksum, maxPkgLen, old(buffer.recvbuf)).1..]
      ensures buffer.recvbufLen == old(buffer.recvbufLen)
      ensures buffer.sendbuf == old(buffer.sendbuf) && buffer.sendbufLen == old(buffer.sendbufLen)
    {
      if buffer.recvlen < 4 { return Incomplete; }
      var len := ReadBeI32(buffer.recvbuf);
      if len < 8 || len > maxPkgLen { return RecvFailed(LengthOutOfRange(len)); }
      if buffer.recvlen < len { return Incomplete; }
      var decoded := Decode(reg, hasChecksum, buffer.recvbuf[..len]);
      if decoded.Failure? { return RecvFailed(DecodeFailed(decoded.error)); }
      if buffer.recvlen == len {
        buffer.recvlen := 0;
        buffer.recvbuf := [];
      } else {
        buffer.recvbuf := buffer.recvbuf[len..];
        buffer.recvlen := buffer.recvlen - len;
      }
      r := Received(decoded.value.0, decoded.value.1);
    }

    /**
     * `net_tcp_recv`: reads until the socket would block, growing the receive
     * buffer as it fills; end of file or an error closes the connection and
     * returns -1 (the bytes read before stay).
     */
    method NetTcpRecv(events: seq<ReadEvent>) returns (status: int, rest: seq<ReadEvent>)
      requires Valid()
      modifies this, buffer
      ensures Valid()
      ensures Pumped(status, buffer.recvbuf, buffer.recvbufLen, rest)
              == Pump(old(buffer.recvbuf), old(buffer.recvbufLen), events)
      ensures connfd == (if status == -1 then -1 else old(connfd))
      ensures buffer.sendbuf == old(buffer.sendbuf) && buffer.sendbufLen == old(buffer.sendbufLen)
    {
      ghost var goal := Pump(buffer.recvbuf, buffer.recvbufLen, events);
      var ev := events;
      status, rest := 0, [];
      while true
        invariant Valid()
        invariant goal == Pump(buffer.recvbuf, buffer.recvbufLen, ev)
        invariant connfd == old(connfd)
        invariant buffer.sendbuf == old(buffer.sendbuf) && buffer.sendbufLen == old(buffer.sendbufLen)
        decreases Weight(ev)
      {
        if |ev| == 0 {
          rest := [];
          break;
        }
        var e := ev[0];
        if e.ReadInterrupted? {
          assert Weight(ev[1..]) < Weight(ev);
          ev := ev[1..];
        } else if e.ReadWouldBlock? {
          rest := ev[1..];
          break;
        } else if e.ReadFailed? || |e.data| == 0 {
          connfd := -1;
          status, rest := -1, ev[1..];
          break;
        } else {
          ev := ReadChunk(ev);
        }
      }
      assert goal == Pumped(status, buffer.recvbuf, buffer.recvbufLen, rest);
    }

    /** One `read` that returns bytes: as many as the buffer has room for are appended. */
    method ReadChunk(ev: seq<ReadEvent>) returns (ev': seq<ReadEvent>)
      requires Valid() && |ev| > 0 && ev[0].Chunk? && |ev[0].data| > 0
      modifies buffer
      ensures Valid() && Weight(ev') < Weight(ev)
      ensures Pump(buffer.recvbuf, buffer.recvbufLen, ev') == Pump(old(buffer.recvbuf), old(buffer.recvbufLen), ev)
      ensures buffer.sendbuf == old(buffer.sendbuf) && buffer.sendbufLen == old(buffer.sendbufLen)
    {
      PumpChunk(buffer.recvbuf, buffer.recvbufLen, ev);
      var n := ReadCount(buffer.recvbuf, buffer.recvbufLen, ev[0].data);
      ev' := AfterRead(ev, n);
      buffer.AppendReceived(ev[0].data[..n]);
    }

    /**
     * `net_tcp_send`: writes the queued bytes until all are out or the socket
     * would block, then drops what was written; end of file or an error closes
     * the connection and returns -1, leaving the send buffer as it was.
     */
    method NetTcpSend(events: seq<WriteEvent>) returns (status: int, rest: seq<WriteEvent>)
      requires Valid()
      modifies this, buffer
      ensures Valid()
      ensures var f := Flush(old(buffer.sendlen), events);
        && status == f.status && rest == f.rest
        && buffer.sendbuf == (if f.status == 0 then old(buffer.sendbuf)[f.sent..] else old(buffer.sendbuf))
        && connfd == (if f.status == -1 then -1 else old(connfd))
      ensures buffer.sendbufLen == old(buffer.sendbufLen)
      ensures buffer.recvbuf == old(buffer.recvbuf) && buffer.recvbufLen == old(buffer.recvbufLen)
    {
      if buffer.sendlen == 0 { return 0, events; }
      var totalSent := 0;
      var ev := events;
      while true
        invariant 0 <= totalSent <= buffer.sendlen
        invariant var f := Flush(buffer.sendlen - totalSent, ev);
          Flush(buffer.sendlen, events) == Flushed(f.status, totalSent + f.sent, f.rest)
        invariant connfd == old(connfd)
        invariant totalSent < buffer.sendlen
        decreases |ev|
      {
        if |ev| == 0 { break; }
        match ev[0]
        case WriteInterrupted =>
          ev := ev[1..];
        case WriteWouldBlock =>
          ev := ev[1..];
          break;
        case WriteFailed =>
          connfd := -1;
          return -1, ev[1..];
        case Accepted(k) =>
          if k == 0 {
            connfd := -1;
            return -1, ev[1..];
          }
          totalSent := totalSent + Min(k, buffer.sendlen - totalSent);
          ev := ev[1..];
          if totalSent == buffer.sendlen { break; }
      }
      if totalSent == buffer.sendlen {
        buffer.sendlen := 0;
        buffer.sendbuf := [];
      } else {
        buffer.sendbuf := buffer.sendbuf[totalSent..];
        buffer.sendlen := buffer.sendlen - totalSent;
      }
      return 0, ev;
    }
  }
}
