/** One proxied TCP connection: the session that answers VM segments, the queue to the forwarding
    task, and the task that writes to the server and reads from it. */
module TcpProxy {
  import opened Basics

  /** Differences of 2^30 and more are not taken as retransmissions. */
  const WINDOW: int := 0x4000_0000
  /** Capacity of the channel to the forwarding task. */
  const CHANNEL: nat := 64
  const MAX_TCP_PAYLOAD: nat := 1000

  function Wrap(x: int): U32 { x % TWO32 }
  /** Reinterpretation of a 32-bit word as signed. */
  function AsI32(x: U32): int { if x < 0x8000_0000 then x else x - TWO32 }

  datatype TcpState = SynSent | FinWait

  /** The fields of a TCP segment from the VM that the proxy reads. */
  datatype Segment = Segment(syn: bool, ack: bool, fin: bool, rst: bool, seqNum: U32, ackNum: U32, payload: seq<Byte>)

  /** The fields of a segment the proxy sends to the VM. */
  datatype Packet = Packet(seqNum: U32, ackNum: U32, flags: Byte, payload: seq<Byte>)

  /** A packet with no data that acknowledges up to `ackNum`. */
  predicate Acknowledges(p: Packet, fin: bool, syn: bool, ackNum: U32) {
    p.payload == [] && FlagsOf(p.flags) == Flags(fin, syn, false, false, true) && p.ackNum == ackNum
  }

  datatype Session = Session(state: TcpState, vmSeq: U32, vmAck: U32, serverSeq: U32, serverAck: U32)

  /** The forwarding task, with the bytes it wrote to the server and the packets it sent to the VM. */
  datatype Task = Task(running: bool, seqNum: U32, ackNum: U32, forwarded: seq<Byte>, sent: seq<Packet>)

  datatype Conn = Conn(session: Option<Session>, queue: seq<seq<Byte>>, task: Task)

  /** `handle_tcp_syn` after a successful connect. */
  function Opened(seqNum: U32, serverSeq: U32): Conn {
    Conn(Some(Session(SynSent, seqNum, 0, serverSeq, Wrap(seqNum + 1))), [],
         Task(true, Wrap(serverSeq + 1), Wrap(seqNum + 1), [], []))
  }

  /** `try_send` fails when the channel is full or its receiver is gone. */
  predicate Accepts(c: Conn) { c.task.running && |c.queue| < CHANNEL }

  function TrySend(c: Conn, msg: seq<Byte>): seq<seq<Byte>> {
    if Accepts(c) then c.queue + [msg] else c.queue
  }

  predicate StartsBehind(s: Session, seqNum: U32) {
    0 < AsI32(Wrap(s.serverAck - seqNum)) < WINDOW
  }

  predicate PureRetransmission(s: Session, seqNum: U32, len: nat) {
    var end := AsI32(Wrap(Wrap(seqNum + len) - s.serverAck));
    StartsBehind(s, seqNum) && (end <= 0 || end >= WINDOW)
  }

  /** Payload bytes already acknowledged, skipped before forwarding. */
  function Skip(s: Session, seqNum: U32): nat {
    if StartsBehind(s, seqNum) then AsI32(Wrap(s.serverAck - seqNum)) else 0
  }

  /** What is skipped of a segment that is not a pure retransmission lies inside its payload. */
  lemma SkipFits(s: Session, seqNum: U32, len: nat)
    requires len < TWO32 && !PureRetransmission(s, seqNum, len)
    ensures Skip(s, seqNum) <= len
  {
  }

  /** A data segment on an open session. */
  function Data(c: Conn, s: Session, seg: Segment): (Conn, Option<Packet>)
    requires |seg.payload| < TWO32
  {
    if PureRetransmission(s, seg.seqNum, |seg.payload|) then
      (c.(session := Some(s)), Some(Packet(Wrap(s.serverSeq + 1), s.serverAck, 0x10, [])))
    else
      SkipFits(s, seg.seqNum, |seg.payload|);
      var end := Wrap(seg.seqNum + |seg.payload|);
      (c.(session := Some(s.(serverAck := end)), queue := TrySend(c, seg.payload[Skip(s, seg.seqNum)..])),
       Some(Packet(Wrap(s.serverSeq + 1), end, 0x10, [])))
  }

  /** A FIN: its payload, if any, is not looked at. */
  function Finish(c: Conn, s: Session, seg: Segment): (Conn, Option<Packet>) {
    (c.(session := Some(s.(state := FinWait)), queue := TrySend(c, [])),
     Some(Packet(s.serverSeq, Wrap(seg.seqNum + 1), 0x11, [])))
  }

  /** `handle_tcp` on a connection that was opened: SYN again, RST, FIN, data or a bare ACK. */
  function Handle(c: Conn, seg: Segment): (Conn, Option<Packet>)
    requires |seg.payload| < TWO32
  {
    if c.session.None? then (c, None) else
    var s := c.session.value;
    if seg.syn && !seg.ack then (c, Some(Packet(s.serverSeq, Wrap(seg.seqNum + 1), 0x12, [])))
    else if seg.rst then (c.(session := None), None)
    else
      var s' := s.(vmSeq := seg.seqNum, vmAck := seg.ackNum);
      if seg.fin then Finish(c, s', seg)
      else if seg.payload != [] then Data(c, s', seg)
      else (c.(session := Some(s')), None)
  }

  /** The task takes one message: an empty one ends it, bytes go to the server. */
  function Forward(c: Conn): Conn
    requires c.task.running && c.queue != []
  {
    var msg := c.queue[0];
    c.(queue := c.queue[1..],
       task := if msg == [] then c.task.(running := false)
               else c.task.(ackNum := Wrap(c.task.ackNum + |msg|), forwarded := c.task.forwarded + msg))
  }

  /** The server connection breaks while a message is written: `k` bytes of it went out. */
  function ForwardBreaks(c: Conn, k: nat): Conn
    requires c.task.running && c.queue != [] && k <= |c.queue[0]|
  {
    c.(queue := c.queue[1..],
       task := c.task.(running := false, ackNum := Wrap(c.task.ackNum + |c.queue[0]|),
                       forwarded := c.task.forwarded + c.queue[0][..k]))
  }

  /** Reading from the server fails: the task ends without a word to the VM. */
  function ReadFails(c: Conn): Conn
    requires c.task.running
  {
    c.(task := c.task.(running := false))
  }

  /** `handle_tcp_syn`, when the connection to the server succeeds and when not. */
  function Answered(c: Conn, seqNum: U32, connect: Option<U32>): (Conn, Option<Packet>) {
    if connect.None? then (c, Some(Packet(0, Wrap(seqNum + 1), 0x14, [])))
    else (Opened(seqNum, connect.value), Some(Packet(connect.value, Wrap(seqNum + 1), 0x12, [])))
  }

  /** `handle_tcp` on any connection: a SYN without a session tries to connect, `connect` being the first
      sequence number towards the VM if that succeeds. */
  function Arrived(c: Conn, seg: Segment, connect: Option<U32>): (Conn, Option<Packet>)
    requires |seg.payload| < TWO32
  {
    if c.session.None? && seg.syn && !seg.ack then Answered(c, seg.seqNum, connect) else Handle(c, seg)
  }

  /** Cut into payloads of at most MAX_TCP_PAYLOAD, the last one pushed. */
  function Fragments(data: seq<Byte>, seqNum: U32, ackNum: U32): seq<Packet> {
    if data == [] then []
    else if |data| <= MAX_TCP_PAYLOAD then [Packet(seqNum, ackNum, 0x18, data)]
    else [Packet(seqNum, ackNum, 0x10, data[..MAX_TCP_PAYLOAD])]
         + Fragments(data[MAX_TCP_PAYLOAD..], Wrap(seqNum + MAX_TCP_PAYLOAD), ackNum)
  }

  /** The task reads bytes from the server, or its end of stream, and passes them to the VM. */
  function Receive(c: Conn, data: seq<Byte>): Conn
    requires c.task.running
  {
    var t := c.task;
    if data == [] then c.(task := t.(running := false, sent := t.sent + [Packet(t.seqNum, t.ackNum, 0x11, [])]))
    else c.(task := t.(seqNum := Wrap(t.seqNum + |data|), sent := t.sent + Fragments(data, t.seqNum, t.ackNum)))
  }

  // ---------------------------------------------------------------------------
  // Exactness of the forwarded stream
  // ---------------------------------------------------------------------------

  function Concat(q: seq<seq<Byte>>): seq<Byte> { if q == [] then [] else q[0] + Concat(q[1..]) }

  lemma {:induction false} ConcatAppend(q: seq<seq<Byte>>, m: seq<Byte>)
    ensures Concat(q + [m]) == Concat(q) + m
  {
    if q == [] {
      assert q + [m] == [m];
    } else {
      ConcatAppend(q[1..], m);
      assert (q + [m])[1..] == q[1..] + [m];
    }
  }

  /** Bytes written to the server followed by bytes on their way to it. */
  function Taken(c: Conn): seq<Byte> { c.task.forwarded + Concat(c.queue) }

  /** The VM sends `stream` from sequence number `isn + 1` on. Everything taken is a prefix of it,
      the session acknowledges its end, and the task's own counter the end of what it wrote. */
  ghost predicate InStep(c: Conn, stream: seq<Byte>, isn: U32) {
    && Taken(c) <= stream
    && (c.session.Some? ==> c.session.value.serverAck == Wrap(isn + 1 + |Taken(c)|))
    && c.task.ackNum == Wrap(isn + 1 + |c.task.forwarded|)
  }

  /** The server only ever receives a prefix of the VM's stream; a running task is in step. */
  ghost predicate Exact(c: Conn, stream: seq<Byte>, isn: U32) {
    c.task.forwarded <= stream && (c.task.running ==> InStep(c, stream, isn))
  }

  /** The segment will be treated as data. */
  predicate CarriesData(c: Conn, seg: Segment) {
    c.session.Some? && !(seg.syn && !seg.ack) && !seg.rst && !seg.fin && seg.payload != []
  }

  /** The segment carries the stream bytes from offset `o`. */
  ghost predicate CutFrom(seg: Segment, stream: seq<Byte>, isn: U32, o: nat) {
    && o + |seg.payload| <= |stream| && seg.payload == stream[o..o + |seg.payload|]
    && seg.seqNum == Wrap(isn + 1 + o)
  }

  lemma WrapDifference(a: int, b: int)
    ensures Wrap(Wrap(a) - Wrap(b)) == Wrap(a - b)
  {
  }

  lemma WrapSum(a: int, b: int)
    ensures Wrap(Wrap(a) + b) == Wrap(a + b)
  {
  }

  lemma WrapMinus(a: int, b: int)
    ensures Wrap(a - Wrap(b)) == Wrap(a - b)
  {
  }

  lemma SignedSmall(x: int)
    requires -0x8000_0000 <= x < 0x8000_0000
    ensures AsI32(Wrap(x)) == x
  {
  }

  lemma SeenStart(serverAck: U32, isn: U32, n: nat, o: nat)
    requires serverAck == Wrap(isn + 1 + n)
    ensures Wrap(serverAck - Wrap(isn + 1 + o)) == Wrap(n - o)
  {
    WrapDifference(isn + 1 + n, isn + 1 + o);
  }

  lemma SeenEnd(serverAck: U32, isn: U32, n: nat, o: nat, len: nat)
    requires serverAck == Wrap(isn + 1 + n)
    ensures Wrap(Wrap(Wrap(isn + 1 + o) + len) - serverAck) == Wrap(len - Wrap(n - o))
  {
    WrapSum(isn + 1 + o, len);
    WrapDifference(isn + 1 + o + len, isn + 1 + n);
    WrapMinus(len, n - o);
  }

  /** The session judges a segment by how far it starts behind the end of the stream taken, modulo 2^32. */
  lemma Judgement(s: Session, isn: U32, n: nat, o: nat, len: nat)
    requires s.serverAck == Wrap(isn + 1 + n) && len < WINDOW
    ensures var behind, seqNum := Wrap(n - o), Wrap(isn + 1 + o);
            && Skip(s, seqNum) == (if behind < WINDOW then behind else 0)
            && PureRetransmission(s, seqNum, len) == (0 < behind < WINDOW && len <= behind)
  {
    var behind := Wrap(n - o);
    SeenStart(s.serverAck, isn, n, o);
    SeenEnd(s.serverAck, isn, n, o, len);
    if behind < WINDOW {
      SignedSmall(len - behind);
    }
  }

  /** The segment starts at the end of what was taken, or less than 2^30 behind it modulo 2^32 and,
      if the distance is 2^30 or more, brings nothing past the distance the session sees. */
  predicate Tracked(n: nat, o: nat, len: nat) {
    || o == n
    || (o < n && 0 < Wrap(n - o) < WINDOW && (n - o < WINDOW || len <= Wrap(n - o)))
  }

  /** The effect a data segment should have: exactly its new bytes are taken and acknowledged. */
  ghost predicate TakesNewBytes(c: Conn, c': Conn, stream: seq<Byte>, isn: U32, o: nat, len: nat) {
    var n := |Taken(c)|;
    && c'.session.Some? && o + len <= |stream| && n <= |stream|
    && Taken(c') == stream[..if o + len > n then o + len else n]
    && c'.session.value.serverAck == Wrap(isn + 1 + |Taken(c')|)
  }

  /** Bytes of a data segment that get queued: all, all but the overlap, or none. */
  function Queued(n: nat, o: nat, payload: seq<Byte>): seq<Byte> {
    var behind := Wrap(n - o);
    if behind >= WINDOW then payload
    else if behind <= |payload| then payload[behind..]
    else []
  }

  lemma SendIsTaken(c: Conn, msg: seq<Byte>)
    requires Accepts(c)
    ensures c.task.forwarded + Concat(TrySend(c, msg)) == Taken(c) + msg
  {
    ConcatAppend(c.queue, msg);
    assert c.task.forwarded + (Concat(c.queue) + msg) == (c.task.forwarded + Concat(c.queue)) + msg;
  }

  /** What is queued of a data segment is taken, and if anything, acknowledged up to the end of the segment. */
  ghost predicate Takes(c: Conn, c': Conn, payload: seq<Byte>, isn: U32, o: nat)
    requires c.session.Some?
  {
    var queued := Queued(|Taken(c)|, o, payload);
    && c'.task == c.task && c'.session.Some?
    && Taken(c') == Taken(c) + queued
    && c'.session.value.serverAck == (if queued == [] then c.session.value.serverAck
                                      else Wrap(isn + 1 + o + |payload|))
  }

  lemma DataEffect(c: Conn, seg: Segment, stream: seq<Byte>, isn: U32, o: nat)
    requires InStep(c, stream, isn) && Accepts(c) && CarriesData(c, seg)
    requires CutFrom(seg, stream, isn, o) && |seg.payload| < WINDOW
    ensures Takes(c, Handle(c, seg).0, seg.payload, isn, o)
  {
    var n := |Taken(c)|;
    var s := c.session.value.(vmSeq := seg.seqNum, vmAck := seg.ackNum);
    assert Handle(c, seg) == Data(c, s, seg);
    Judgement(s, isn, n, o, |seg.payload|);
    SendIsTaken(c, Queued(n, o, seg.payload));
    WrapSum(isn + 1 + o, |seg.payload|);
  }

  /** Which segments leave exactly the bytes of the stream up to their end. */
  lemma QueuedIsRightIffTracked(stream: seq<Byte>, n: nat, o: nat, len: nat)
    requires n <= |stream| && o + len <= |stream| && 0 < len < WINDOW
    ensures var end := if o + len > n then o + len else n;
            stream[..n] + Queued(n, o, stream[o..o + len]) == stream[..end] <==> Tracked(n, o, len)
    ensures Tracked(n, o, len) && Queued(n, o, stream[o..o + len]) == [] ==> o + len <= n
    ensures Tracked(n, o, len) && Queued(n, o, stream[o..o + len]) != [] ==> o + len > n
  {
    var payload := stream[o..o + len];
    var queued, end := Queued(n, o, payload), if o + len > n then o + len else n;
    if Tracked(n, o, len) {
      if queued != [] {
        assert stream[..n] + queued == stream[..n] + stream[n..o + len];
      }
    } else {
      assert |stream[..n] + queued| != end;
    }
  }

  lemma EffectIsRightIffTracked(c: Conn, c': Conn, seg: Segment, stream: seq<Byte>, isn: U32, o: nat)
    requires InStep(c, stream, isn) && c.session.Some? && CutFrom(seg, stream, isn, o) && 0 < |seg.payload| < WINDOW
    requires Takes(c, c', seg.payload, isn, o)
    ensures TakesNewBytes(c, c', stream, isn, o, |seg.payload|) <==> Tracked(|Taken(c)|, o, |seg.payload|)
  {
    QueuedIsRightIffTracked(stream, |Taken(c)|, o, |seg.payload|);
    assert Taken(c) == stream[..|Taken(c)|] && seg.payload == stream[o..o + |seg.payload|];
  }

  /** A data segment of less than 2^30 bytes is handled right exactly when it is tracked. */
  lemma DataIsRightIffTracked(c: Conn, seg: Segment, stream: seq<Byte>, isn: U32, o: nat)
    requires InStep(c, stream, isn) && Accepts(c) && CarriesData(c, seg)
    requires CutFrom(seg, stream, isn, o) && |seg.payload| < WINDOW
    ensures TakesNewBytes(c, Handle(c, seg).0, stream, isn, o, |seg.payload|) <==> Tracked(|Taken(c)|, o, |seg.payload|)
  {
    DataEffect(c, seg, stream, isn, o);
    EffectIsRightIffTracked(c, Handle(c, seg).0, seg, stream, isn, o);
  }

  /** Of the tracked segments with new bytes, those that find the channel full lose them. */
  lemma DataIsRightIffRoom(c: Conn, seg: Segment, stream: seq<Byte>, isn: U32, o: nat)
    requires InStep(c, stream, isn) && c.task.running && CarriesData(c, seg)
    requires CutFrom(seg, stream, isn, o) && |seg.payload| < WINDOW
    requires Tracked(|Taken(c)|, o, |seg.payload|) && o + |seg.payload| > |Taken(c)|
    ensures TakesNewBytes(c, Handle(c, seg).0, stream, isn, o, |seg.payload|) <==> |c.queue| < CHANNEL
  {
    if Accepts(c) {
      DataIsRightIffTracked(c, seg, stream, isn, o);
    } else {
      assert Taken(Handle(c, seg).0) == Taken(c);
    }
  }

  /** A segment that leaves a gap is queued all the same, and the bytes taken are no prefix of the stream. */
  lemma GapIsForwarded()
    ensures var c, seg, stream := Opened(0, 0), Segment(false, true, false, false, 2, 0, [8]), [7, 8];
            && InStep(c, stream, 0) && Accepts(c) && CarriesData(c, seg) && CutFrom(seg, stream, 0, 1)
            && Taken(Handle(c, seg).0) == [8] && !(Taken(Handle(c, seg).0) <= stream)
  {
    var c, seg, stream := Opened(0, 0), Segment(false, true, false, false, 2, 0, [8]), [7, 8];
    DataEffect(c, seg, stream, 0, 1);
    assert Taken(c) == [];
    assert Queued(0, 1, [8]) == [8];
    assert Taken(Handle(c, seg).0) == [8];
    assert Taken(Handle(c, seg).0)[0] != stream[0];
  }

  function ZeroMessages(n: nat): seq<seq<Byte>> { seq(n, _ => [0]) }

  lemma {:induction false} ZerosConcat(n: nat)
    ensures Concat(ZeroMessages(n)) == Zeros(n)
  {
    if n > 0 {
      ZerosConcat(n - 1);
      assert ZeroMessages(n)[1..] == ZeroMessages(n - 1);
      assert [0] + Zeros(n - 1) == Zeros(n);
    }
  }

  // ---------------------------------------------------------------------------
  // Every interleaving of segments and the task
  // ---------------------------------------------------------------------------

  datatype Event =
    | Arrive(seg: Segment, o: nat)
    | TaskForward
    | TaskBreak(written: nat)
    | TaskRead(data: seq<Byte>)
    | TaskReadFails

  /** Segments shorter than 2^30; data for a running task comes from the stream, tracked, and finds room. */
  ghost predicate Legal(c: Conn, e: Event, stream: seq<Byte>, isn: U32) {
    match e
    case Arrive(seg, o) =>
      && |seg.payload| < WINDOW
      && (c.task.running && CarriesData(c, seg) ==>
            && |c.queue| < CHANNEL && CutFrom(seg, stream, isn, o)
            && Tracked(|Taken(c)|, o, |seg.payload|))
    case TaskForward => c.task.running && c.queue != []
    case TaskBreak(k) => c.task.running && c.queue != [] && k <= |c.queue[0]|
    case TaskRead(_) => c.task.running
    case TaskReadFails => c.task.running
  }

  function Apply(c: Conn, e: Event, ghost stream: seq<Byte>, ghost isn: U32): Conn
    requires Legal(c, e, stream, isn)
  {
    match e
    case Arrive(seg, _) => Handle(c, seg).0
    case TaskForward => Forward(c)
    case TaskBreak(k) => ForwardBreaks(c, k)
    case TaskRead(data) => Receive(c, data)
    case TaskReadFails => ReadFails(c)
  }

  lemma ArriveKeepsExact(c: Conn, seg: Segment, o: nat, stream: seq<Byte>, isn: U32)
    requires Exact(c, stream, isn) && Legal(c, Arrive(seg, o), stream, isn)
    ensures Exact(Handle(c, seg).0, stream, isn)
  {
    if c.task.running {
      if CarriesData(c, seg) {
        DataIsRightIffTracked(c, seg, stream, isn, o);
        DataEffect(c, seg, stream, isn, o);
      } else {
        ConcatAppend(c.queue, []);
        assert Taken(Handle(c, seg).0) == Taken(c);
      }
    }
  }

  lemma TaskKeepsExact(c: Conn, e: Event, stream: seq<Byte>, isn: U32)
    requires Exact(c, stream, isn) && Legal(c, e, stream, isn) && !e.Arrive?
    ensures Exact(Apply(c, e, stream, isn), stream, isn)
  {
    if !e.TaskRead? && !e.TaskReadFails? {
      var msg := c.queue[0];
      assert Taken(c) == c.task.forwarded + msg + Concat(c.queue[1..]);
      assert c.task.forwarded + msg <= stream;
      if e.TaskBreak? {
        assert msg == msg[..e.written] + msg[e.written..];
        assert c.task.forwarded + msg == c.task.forwarded + msg[..e.written] + msg[e.written..];
      } else {
        WrapSum(isn + 1 + |c.task.forwarded|, |msg|);
      }
    }
  }

  ghost predicate LegalRun(c: Conn, run: seq<Event>, stream: seq<Byte>, isn: U32)
    decreases |run|
  {
    run == [] || (Legal(c, run[0], stream, isn) && LegalRun(Apply(c, run[0], stream, isn), run[1..], stream, isn))
  }

  function Run(c: Conn, run: seq<Event>, ghost stream: seq<Byte>, ghost isn: U32): Conn
    requires LegalRun(c, run, stream, isn)
    decreases |run|
  {
    if run == [] then c else Run(Apply(c, run[0], stream, isn), run[1..], stream, isn)
  }

  /** The `k`-th byte of a stream of zeros, in a segment of its own. */
  function OneByte(k: nat): Segment
    requires k < CHANNEL + 1
  {
    Segment(false, true, false, false, 1 + k, 0, [0])
  }

  function BytesArrive(k: nat, n: nat): seq<Event>
    requires k <= n <= CHANNEL
    decreases n - k
  {
    if k == n then [] else [Arrive(OneByte(k), k)] + BytesArrive(k + 1, n)
  }

  /** The connection after `n` such segments. */
  function Waiting(n: nat): Conn {
    Opened(0, 0).(session := Some(Session(SynSent, Wrap(n), 0, 0, Wrap(1 + n))), queue := ZeroMessages(n))
  }

  lemma OneMoreWaits(k: nat, n: nat)
    requires k < n == CHANNEL
    ensures Legal(Waiting(k), Arrive(OneByte(k), k), Zeros(n + 1), 0)
    ensures Handle(Waiting(k), OneByte(k)).0 == Waiting(k + 1)
  {
    ZerosConcat(k);
    assert Taken(Waiting(k)) == Zeros(k);
    assert ZeroMessages(k) + [[0]] == ZeroMessages(k + 1) && [0][0..] == [0];
  }

  lemma {:induction false} SegmentsWait(k: nat, n: nat)
    requires k <= n == CHANNEL
    ensures LegalRun(Waiting(k), BytesArrive(k, n), Zeros(n + 1), 0)
    ensures Run(Waiting(k), BytesArrive(k, n), Zeros(n + 1), 0) == Waiting(n)
    decreases n - k
  {
    if k < n {
      OneMoreWaits(k, n);
      SegmentsWait(k + 1, n);
      assert BytesArrive(k, n)[1..] == BytesArrive(k + 1, n);
    }
  }

  /** With the queue full the next byte of the stream is acknowledged and lost. */
  ghost predicate Loses(c: Conn, seg: Segment, stream: seq<Byte>, n: nat) {
    && |seg.payload| == 1 && c.task.running && CarriesData(c, seg)
    && InStep(c, stream, 0) && CutFrom(seg, stream, 0, n)
    && Tracked(|Taken(c)|, n, 1)
    && Taken(Handle(c, seg).0) == Taken(c) && Handle(c, seg).0.session.value.serverAck == 2 + n
  }

  lemma WaitingLoses(n: nat)
    requires n == CHANNEL
    ensures Loses(Waiting(n), OneByte(n), Zeros(n + 1), n)
  {
    ZerosConcat(n);
    assert Taken(Waiting(n)) == Zeros(n);
  }

  /** So it is when 64 segments arrive before the task takes one. */
  lemma FullQueueLoses(n: nat)
    requires n == CHANNEL
    ensures LegalRun(Opened(0, 0), BytesArrive(0, n), Zeros(n + 1), 0)
    ensures Loses(Run(Opened(0, 0), BytesArrive(0, n), Zeros(n + 1), 0), OneByte(n), Zeros(n + 1), n)
  {
    assert Waiting(0) == Opened(0, 0);
    SegmentsWait(0, n);
    WaitingLoses(n);
  }

  lemma {:induction false} RunKeepsExact(c: Conn, run: seq<Event>, stream: seq<Byte>, isn: U32)
    requires Exact(c, stream, isn) && LegalRun(c, run, stream, isn)
    ensures Exact(Run(c, run, stream, isn), stream, isn)
    decreases |run|
  {
    if run != [] {
      ApplyKeepsExact(c, run[0], stream, isn);
      RunKeepsExact(Apply(c, run[0], stream, isn), run[1..], stream, isn);
    }
  }

  // ---------------------------------------------------------------------------
  // What the VM is answered
  // ---------------------------------------------------------------------------

  /** The session greeted the VM with this sequence number. */
  predicate Greeted(c: Conn, serverSeq: U32) { c.session.Some? ==> c.session.value.serverSeq == serverSeq }

  /** What the VM is answered to a segment: to data the end of all bytes taken by then, to a repeated SYN the SYN-ACK it
      was greeted with, to a FIN that follows all bytes taken the number behind it, and else nothing. */
  ghost predicate Answers(c: Conn, seg: Segment, isn: U32, serverSeq: U32)
    requires |seg.payload| < TWO32
  {
    var (c', reply) := Handle(c, seg);
    if CarriesData(c, seg) then
      && c'.session.Some? && reply.Some?
      && Acknowledges(reply.value, false, false, Wrap(isn + 1 + |Taken(c')|))
      && reply.value.ackNum == c'.session.value.serverAck && reply.value.seqNum == Wrap(serverSeq + 1)
    else if c.session.Some? && seg.syn && !seg.ack then
      && c' == c && reply.Some? && reply.value.seqNum == serverSeq
      && (seg.seqNum == isn ==> Acknowledges(reply.value, false, true, Wrap(isn + 1)))
    else if c.session.Some? && !seg.rst && seg.fin then
      && reply.Some? && reply.value.seqNum == serverSeq
      && (seg.seqNum == Wrap(isn + 1 + |Taken(c)|) ==>
            Acknowledges(reply.value, true, false, Wrap(isn + 1 + |Taken(c)| + 1)))
    else reply.None?
  }

  lemma ArriveAnswers(c: Conn, seg: Segment, o: nat, stream: seq<Byte>, isn: U32, serverSeq: U32)
    requires Exact(c, stream, isn) && c.task.running && Greeted(c, serverSeq) && Legal(c, Arrive(seg, o), stream, isn)
    ensures Answers(c, seg, isn, serverSeq)
  {
    if CarriesData(c, seg) {
      DataAnswers(c, seg, stream, isn, o);
    } else {
      WrapSum(isn + 1 + |Taken(c)|, 1);
    }
  }

  /** The reply to data carries the acknowledgement that the session keeps. */
  lemma ReplyIsKept(c: Conn, seg: Segment)
    requires |seg.payload| < TWO32 && CarriesData(c, seg)
    ensures var (c', reply) := Handle(c, seg);
            && c'.session.Some? && reply.Some? && reply.value.seqNum == Wrap(c.session.value.serverSeq + 1)
            && Acknowledges(reply.value, false, false, c'.session.value.serverAck)
  {
  }

  lemma DataAnswers(c: Conn, seg: Segment, stream: seq<Byte>, isn: U32, o: nat)
    requires InStep(c, stream, isn) && Accepts(c) && CarriesData(c, seg)
    requires CutFrom(seg, stream, isn, o) && |seg.payload| < WINDOW && Tracked(|Taken(c)|, o, |seg.payload|)
    ensures var (c', reply) := Handle(c, seg);
            && c'.session.Some? && reply.Some? && c'.session.value.serverAck == Wrap(isn + 1 + |Taken(c')|)
            && Acknowledges(reply.value, false, false, Wrap(isn + 1 + |Taken(c')|))
            && reply.value.seqNum == Wrap(c.session.value.serverSeq + 1)
  {
    ReplyIsKept(c, seg);
    DataIsRightIffTracked(c, seg, stream, isn, o);
  }

  /** Every segment that arrives while the task runs is answered so. */
  ghost predicate AllAnswered(c: Conn, run: seq<Event>, stream: seq<Byte>, isn: U32, serverSeq: U32)
    requires LegalRun(c, run, stream, isn)
    decreases |run|
  {
    run == [] || (&& (c.task.running && run[0].Arrive? ==> Answers(c, run[0].seg, isn, serverSeq))
                  && AllAnswered(Apply(c, run[0], stream, isn), run[1..], stream, isn, serverSeq))
  }

  lemma ApplyKeepsExact(c: Conn, e: Event, stream: seq<Byte>, isn: U32)
    requires Exact(c, stream, isn) && Legal(c, e, stream, isn)
    ensures Exact(Apply(c, e, stream, isn), stream, isn)
  {
    if e.Arrive? { ArriveKeepsExact(c, e.seg, e.o, stream, isn); } else { TaskKeepsExact(c, e, stream, isn); }
  }

  lemma {:induction false} RunAnswers(c: Conn, run: seq<Event>, stream: seq<Byte>, isn: U32, serverSeq: U32)
    requires Exact(c, stream, isn) && Greeted(c, serverSeq) && LegalRun(c, run, stream, isn)
    ensures AllAnswered(c, run, stream, isn, serverSeq)
    decreases |run|
  {
    if run != [] {
      if c.task.running && run[0].Arrive? { ArriveAnswers(c, run[0].seg, run[0].o, stream, isn, serverSeq); }
      ApplyKeepsExact(c, run[0], stream, isn);
      RunAnswers(Apply(c, run[0], stream, isn), run[1..], stream, isn, serverSeq);
    }
  }

  /** A FIN is acknowledged exactly if it carries no data, which is not looked at. */
  lemma FinIsAckedIffBare(c: Conn, seg: Segment, isn: U32, o: nat)
    requires c.session.Some? && seg.fin && !seg.rst && !(seg.syn && !seg.ack)
    requires seg.seqNum == Wrap(isn + 1 + o) && |seg.payload| < TWO32
    ensures var reply := Handle(c, seg).1;
            && reply.Some?
            && (reply.value.ackNum == Wrap(isn + 1 + o + |seg.payload| + 1) <==> seg.payload == [])
  {
    WrapSum(isn + 1 + o, 1);
    Shifted(isn + 2 + o, |seg.payload|);
  }

  lemma Shifted(a: int, n: nat)
    requires n < TWO32
    ensures Wrap(a) == Wrap(a + n) <==> n == 0
  {
  }

  /** An acknowledgement is numbered like the next byte to the VM exactly if none was sent yet, modulo 2^32. */
  lemma AckIsCurrentIff(c: Conn, seg: Segment, serverSeq: U32)
    requires |seg.payload| < TWO32 && CarriesData(c, seg)
    requires c.task.running && Greeted(c, serverSeq) && Numbered(c.task, serverSeq + 1)
    ensures Handle(c, seg).1.Some?
    ensures Handle(c, seg).1.value.seqNum == c.task.seqNum <==> |Payloads(c.task.sent)| % TWO32 == 0
  {
    var n := |Payloads(c.task.sent)|;
    ReplyIsKept(c, seg);
    WrapSum(n, serverSeq + 1);
    Shifted(serverSeq + 1, n % TWO32);
  }

  /** A FIN with one byte of data: the byte is not taken, and the acknowledgement is one short. */
  lemma FinDataIsLost()
    ensures var c, seg := Opened(0, 0), Segment(false, true, true, false, 1, 0, [7]);
            Taken(Handle(c, seg).0) == [] && Handle(c, seg).1 == Some(Packet(0, 2, 0x11, []))
  {
    var queue: seq<seq<Byte>> := [[]];
    assert Concat(queue) == [] by { assert queue[1..] == []; }
  }

  /** One byte came from the server and was passed on as number 1; data from the VM is then answered with number 1
      again. */
  lemma AckAfterDataIsStale()
    ensures var c, seg := Receive(Opened(0, 0), [5]), Segment(false, true, false, false, 1, 0, [7]);
            c.task.seqNum == 2 && Handle(c, seg).1 == Some(Packet(1, 2, 0x10, []))
  {
  }

  /** From the SYN on, in every legal interleaving: the server has received a prefix of the VM's stream;
      and while the task runs, that prefix plus the queued bytes ends at `serverAck`, which is the
      task's own acknowledgement plus the bytes still queued. Every acknowledgement sent meanwhile was for
      exactly the bytes taken at that moment. */
  lemma StreamIsForwarded(isn: U32, serverSeq: U32, run: seq<Event>, stream: seq<Byte>)
    requires LegalRun(Opened(isn, serverSeq), run, stream, isn)
    ensures AllAnswered(Opened(isn, serverSeq), run, stream, isn, serverSeq)
    ensures var c := Run(Opened(isn, serverSeq), run, stream, isn);
            && c.task.forwarded <= stream
            && (c.task.running ==> c.task.forwarded + Concat(c.queue) <= stream)
            && (c.task.running && c.session.Some? ==>
                  && c.session.value.serverAck == Wrap(isn + 1 + |c.task.forwarded + Concat(c.queue)|)
                  && c.session.value.serverAck == Wrap(c.task.ackNum + |Concat(c.queue)|))
  {
    var c := Run(Opened(isn, serverSeq), run, stream, isn);
    RunAnswers(Opened(isn, serverSeq), run, stream, isn, serverSeq);
    RunKeepsExact(Opened(isn, serverSeq), run, stream, isn);
    WrapSum(isn + 1 + |c.task.forwarded|, |Concat(c.queue)|);
  }

  // ---------------------------------------------------------------------------
  // From the server to the VM
  // ---------------------------------------------------------------------------

  function Payloads(packets: seq<Packet>): seq<Byte> {
    if packets == [] then [] else packets[0].payload + Payloads(packets[1..])
  }

  /** Each packet's sequence number is that of its first byte, counting on from `base` modulo 2^32. */
  ghost predicate Chained(packets: seq<Packet>, base: nat) {
    packets == [] || (packets[0].seqNum == Wrap(base) && Chained(packets[1..], base + |packets[0].payload|))
  }

  lemma {:induction false} ChainedAppend(p: seq<Packet>, q: seq<Packet>, base: nat)
    requires Chained(p, base) && Chained(q, base + |Payloads(p)|)
    ensures Chained(p + q, base) && Payloads(p + q) == Payloads(p) + Payloads(q)
    decreases |p|
  {
    if p == [] {
      assert p + q == q;
    } else {
      ChainedAppend(p[1..], q, base + |p[0].payload|);
      assert (p + q)[1..] == p[1..] + q;
    }
  }

  /** Fragmenting loses, repeats and reorders nothing, and no fragment exceeds the payload limit. */
  lemma {:induction false} FragmentsAreTheData(data: seq<Byte>, base: nat, ackNum: U32)
    ensures var f := Fragments(data, Wrap(base), ackNum);
            && Payloads(f) == data && Chained(f, base)
            && (forall p | p in f :: 0 < |p.payload| <= MAX_TCP_PAYLOAD && p.ackNum == ackNum)
            && forall i | 0 <= i < |f| :: FlagsOf(f[i].flags) == Flags(false, false, false, i == |f| - 1, true)
    decreases |data|
  {
    if |data| > MAX_TCP_PAYLOAD {
      WrapSum(base, MAX_TCP_PAYLOAD);
      FragmentsAreTheData(data[MAX_TCP_PAYLOAD..], base + MAX_TCP_PAYLOAD, ackNum);
      var first := data[..MAX_TCP_PAYLOAD];
      var rest := Fragments(data[MAX_TCP_PAYLOAD..], Wrap(base + MAX_TCP_PAYLOAD), ackNum);
      assert Fragments(data, Wrap(base), ackNum) == [Packet(Wrap(base), ackNum, 0x10, first)] + rest;
      assert rest != [] && data == first + data[MAX_TCP_PAYLOAD..];
    } else if data != [] {
      assert Payloads(Fragments(data, Wrap(base), ackNum)[1..]) == [];
    }
  }

  /** The task's packets start at `base`, and while it runs its counter is where the next one starts. */
  ghost predicate Numbered(t: Task, base: nat) {
    Chained(t.sent, base) && (t.running ==> t.seqNum == Wrap(base + |Payloads(t.sent)|))
  }

  lemma FinIsNumbered(t: Task, base: nat)
    requires t.running && Numbered(t, base)
    ensures var sent := t.sent + [Packet(t.seqNum, t.ackNum, 0x11, [])];
            Chained(sent, base) && Payloads(sent) == Payloads(t.sent)
  {
    var fin := [Packet(t.seqNum, t.ackNum, 0x11, [])];
    assert Payloads(fin) == [] && Chained(fin, base + |Payloads(t.sent)|) by { assert fin[1..] == []; }
    ChainedAppend(t.sent, fin, base);
    assert Payloads(t.sent) + [] == Payloads(t.sent);
  }

  lemma FragmentsAreNumbered(t: Task, data: seq<Byte>, base: nat)
    requires t.running && Numbered(t, base)
    ensures var sent := t.sent + Fragments(data, t.seqNum, t.ackNum);
            Chained(sent, base) && Payloads(sent) == Payloads(t.sent) + data
  {
    FragmentsAreTheData(data, base + |Payloads(t.sent)|, t.ackNum);
    ChainedAppend(t.sent, Fragments(data, t.seqNum, t.ackNum), base);
  }

  lemma ReceiveIsNumbered(c: Conn, data: seq<Byte>, base: nat)
    requires c.task.running && Numbered(c.task, base)
    ensures Numbered(Receive(c, data).task, base)
    ensures Payloads(Receive(c, data).task.sent) == Payloads(c.task.sent) + data
  {
    if data == [] {
      FinIsNumbered(c.task, base);
    } else {
      FragmentsAreNumbered(c.task, data, base);
      WrapSum(base + |Payloads(c.task.sent)|, |data|);
    }
  }

  /** Bytes read from the server, by one event and over a run. */
  function BytesOf(e: Event): seq<Byte> { if e.TaskRead? then e.data else [] }

  function ReadBytes(run: seq<Event>): seq<Byte> {
    if run == [] then [] else BytesOf(run[0]) + ReadBytes(run[1..])
  }

  lemma ApplyIsNumbered(c: Conn, e: Event, stream: seq<Byte>, isn: U32, base: nat)
    requires Legal(c, e, stream, isn) && Numbered(c.task, base)
    ensures Numbered(Apply(c, e, stream, isn).task, base)
    ensures Payloads(Apply(c, e, stream, isn).task.sent) == Payloads(c.task.sent) + BytesOf(e)
  {
    if e.TaskRead? {
      ReceiveIsNumbered(c, e.data, base);
    } else {
      var t' := Apply(c, e, stream, isn).task;
      assert t'.sent == c.task.sent && t'.seqNum == c.task.seqNum && (t'.running ==> c.task.running);
    }
  }

  lemma Associates(a: seq<Byte>, b: seq<Byte>, c: seq<Byte>)
    ensures (a + b) + c == a + (b + c)
  {
  }

  /** The packets sent to the VM carry the server's bytes in order, with consecutive sequence numbers. */
  lemma {:induction false} ServerStreamIsDelivered(c: Conn, run: seq<Event>, stream: seq<Byte>, isn: U32, base: nat)
    requires LegalRun(c, run, stream, isn) && Numbered(c.task, base)
    ensures var sent := Run(c, run, stream, isn).task.sent;
            Chained(sent, base) && Payloads(sent) == Payloads(c.task.sent) + ReadBytes(run)
    decreases |run|
  {
    if run != [] {
      var c' := Apply(c, run[0], stream, isn);
      ApplyIsNumbered(c, run[0], stream, isn, base);
      ServerStreamIsDelivered(c', run[1..], stream, isn, base);
      Associates(Payloads(c.task.sent), BytesOf(run[0]), ReadBytes(run[1..]));
    }
  }

  // ---------------------------------------------------------------------------
  // The end of a connection
  // ---------------------------------------------------------------------------

  /** Packets with the FIN bit. */
  function Fins(sent: seq<Packet>): nat {
    if sent == [] then 0 else Fins(sent[1..]) + if FlagsOf(sent[0].flags).fin then 1 else 0
  }

  lemma {:induction false} FinsAppend(p: seq<Packet>, q: seq<Packet>)
    ensures Fins(p + q) == Fins(p) + Fins(q)
    decreases |p|
  {
    if p == [] {
      assert p + q == q;
    } else {
      FinsAppend(p[1..], q);
      assert (p + q)[1..] == p[1..] + q;
    }
  }

  lemma {:induction false} NoFins(p: seq<Packet>)
    requires forall i | 0 <= i < |p| :: !FlagsOf(p[i].flags).fin
    ensures Fins(p) == 0
    decreases |p|
  {
    if p != [] { NoFins(p[1..]); }
  }

  predicate Closes(e: Event) { e.TaskRead? && e.data == [] }

  /** The server closed its side during the run. */
  predicate ServerCloses(run: seq<Event>) { run != [] && (Closes(run[0]) || ServerCloses(run[1..])) }

  /** The packets end in a FIN without data, the only one. */
  ghost predicate EndsInFin(sent: seq<Packet>) {
    && Fins(sent) == 1 && sent != []
    && var last := sent[|sent| - 1];
       last.payload == [] && FlagsOf(last.flags) == Flags(true, false, false, false, true)
  }

  lemma ReceiveFins(c: Conn, data: seq<Byte>)
    requires c.task.running && Fins(c.task.sent) == 0
    ensures var t := Receive(c, data).task;
            if data == [] then !t.running && EndsInFin(t.sent) else t.running && Fins(t.sent) == 0
  {
    var t := c.task;
    if data == [] {
      var fin := [Packet(t.seqNum, t.ackNum, 0x11, [])];
      assert Fins(fin) == 1 by { assert fin[1..] == []; }
      FinsAppend(t.sent, fin);
    } else {
      FragmentsAreTheData(data, t.seqNum, t.ackNum);
      NoFins(Fragments(data, t.seqNum, t.ackNum));
      FinsAppend(t.sent, Fragments(data, t.seqNum, t.ackNum));
    }
  }

  /** Whatever the task sends acknowledges exactly the bytes it has written to the server. */
  lemma SentAcknowledgesForwarded(c: Conn, data: seq<Byte>, stream: seq<Byte>, isn: U32)
    requires c.task.running && Exact(c, stream, isn)
    ensures var sent := Receive(c, data).task.sent;
            && c.task.sent <= sent
            && forall i | |c.task.sent| <= i < |sent| :: sent[i].ackNum == Wrap(isn + 1 + |c.task.forwarded|)
  {
    var t := c.task;
    if data != [] {
      var f := Fragments(data, t.seqNum, t.ackNum);
      FragmentsAreTheData(data, t.seqNum, t.ackNum);
      forall i | |t.sent| <= i < |t.sent + f| ensures (t.sent + f)[i].ackNum == t.ackNum {
        assert (t.sent + f)[i] == f[i - |t.sent|] && f[i - |t.sent|] in f;
      }
    }
  }

  lemma {:induction false} StoppedSendsNothing(c: Conn, run: seq<Event>, stream: seq<Byte>, isn: U32)
    requires !c.task.running && LegalRun(c, run, stream, isn)
    ensures Run(c, run, stream, isn).task == c.task && !ServerCloses(run)
    decreases |run|
  {
    if run != [] {
      assert Apply(c, run[0], stream, isn).task == c.task;
      StoppedSendsNothing(Apply(c, run[0], stream, isn), run[1..], stream, isn);
    }
  }

  /** The VM gets a FIN from the server exactly if the server closed, one, and after everything else. */
  lemma {:induction false} FinIffServerCloses(c: Conn, run: seq<Event>, stream: seq<Byte>, isn: U32)
    requires c.task.running && Fins(c.task.sent) == 0 && LegalRun(c, run, stream, isn)
    ensures var t := Run(c, run, stream, isn).task;
            if ServerCloses(run) then !t.running && EndsInFin(t.sent) else Fins(t.sent) == 0
    decreases |run|
  {
    if run != [] {
      var c' := Apply(c, run[0], stream, isn);
      if run[0].TaskRead? {
        ReceiveFins(c, run[0].data);
      } else {
        assert c'.task.sent == c.task.sent;
      }
      if c'.task.running {
        FinIffServerCloses(c', run[1..], stream, isn);
      } else {
        StoppedSendsNothing(c', run[1..], stream, isn);
      }
    }
  }

  /** No message in the queue asks the task to end. */
  ghost predicate Open(queue: seq<seq<Byte>>) { [] !in queue }

  /** What may end the task: a broken write, a failed read, the server's close, or a FIN from the VM. */
  predicate MayEnd(e: Event) {
    e.TaskBreak? || e.TaskReadFails? || Closes(e) || (e.Arrive? && e.seg.fin)
  }

  lemma DataIsNotEmpty(c: Conn, seg: Segment, stream: seq<Byte>, isn: U32, o: nat)
    requires InStep(c, stream, isn) && CarriesData(c, seg) && CutFrom(seg, stream, isn, o) && |seg.payload| < WINDOW
    requires Open(c.queue)
    ensures Open(Handle(c, seg).0.queue)
  {
    var s := c.session.value.(vmSeq := seg.seqNum, vmAck := seg.ackNum);
    Judgement(s, isn, |Taken(c)|, o, |seg.payload|);
  }

  lemma StepStaysOpen(c: Conn, e: Event, stream: seq<Byte>, isn: U32)
    requires Exact(c, stream, isn) && c.task.running && Open(c.queue) && Legal(c, e, stream, isn) && !MayEnd(e)
    ensures var c' := Apply(c, e, stream, isn); c'.task.running && Open(c'.queue)
  {
    if e.Arrive? && CarriesData(c, e.seg) { DataIsNotEmpty(c, e.seg, stream, isn, e.o); }
  }

  /** Nothing else ends the task. */
  lemma {:induction false} RunsUntilEnded(c: Conn, run: seq<Event>, stream: seq<Byte>, isn: U32)
    requires Exact(c, stream, isn) && c.task.running && Open(c.queue) && LegalRun(c, run, stream, isn)
    requires forall e | e in run :: !MayEnd(e)
    ensures Run(c, run, stream, isn).task.running
    decreases |run|
  {
    if run != [] {
      StepStaysOpen(c, run[0], stream, isn);
      ApplyKeepsExact(c, run[0], stream, isn);
      RunsUntilEnded(Apply(c, run[0], stream, isn), run[1..], stream, isn);
    }
  }

  /** The task's turns until its queue is empty or it ends. */
  function Drained(c: Conn): Conn
    decreases |c.queue|
  {
    if c.task.running && c.queue != [] then Drained(Forward(c)) else c
  }

  /** A FIN from the VM ends the task once it has written all bytes taken before it. */
  lemma FinEndsTask(c: Conn, seg: Segment)
    requires Accepts(c) && Open(c.queue) && c.session.Some?
    requires seg.fin && !seg.rst && !(seg.syn && !seg.ack) && |seg.payload| < TWO32
    ensures var t := Drained(Handle(c, seg).0).task; !t.running && t.forwarded == Taken(c)
  {
    DrainsToFin(Handle(c, seg).0, c.queue);
  }

  lemma {:induction false} DrainsToFin(c: Conn, queue: seq<seq<Byte>>)
    requires c.task.running && c.queue == queue + [[]] && Open(queue)
    ensures !Drained(c).task.running && Drained(c).task.forwarded == c.task.forwarded + Concat(queue)
    decreases |queue|
  {
    if queue != [] {
      assert Forward(c).queue == queue[1..] + [[]];
      DrainsToFin(Forward(c), queue[1..]);
      Associates(c.task.forwarded, queue[0], Concat(queue[1..]));
    }
  }

  // ---------------------------------------------------------------------------
  // The session over a run
  // ---------------------------------------------------------------------------

  /** A segment the session takes note of: any but an opening SYN. */
  predicate Heard(e: Event) { e.Arrive? && !(e.seg.syn && !e.seg.ack) }

  predicate Resets(e: Event) { Heard(e) && e.seg.rst }

  /** The numbers of the last segment heard. */
  function LastHeard(run: seq<Event>, seqNum: U32, ackNum: U32): (U32, U32) {
    if run == [] then (seqNum, ackNum)
    else if Heard(run[|run| - 1]) then (run[|run| - 1].seg.seqNum, run[|run| - 1].seg.ackNum)
    else LastHeard(run[..|run| - 1], seqNum, ackNum)
  }

  lemma {:induction false} LastHeardAfter(e: Event, run: seq<Event>, seqNum: U32, ackNum: U32)
    ensures var (a, b) := LastHeard([e], seqNum, ackNum); LastHeard([e] + run, seqNum, ackNum) == LastHeard(run, a, b)
    decreases |run|
  {
    var n := |run|;
    if n == 0 {
      assert [e] + run == [e];
    } else {
      assert ([e] + run)[..n] == [e] + run[..n - 1] && ([e] + run)[n] == run[n - 1];
      LastHeardAfter(e, run[..n - 1], seqNum, ackNum);
    }
  }

  lemma {:induction false} NoSessionStays(c: Conn, run: seq<Event>, stream: seq<Byte>, isn: U32)
    requires c.session.None? && LegalRun(c, run, stream, isn)
    ensures Run(c, run, stream, isn).session.None?
    decreases |run|
  {
    if run != [] { NoSessionStays(Apply(c, run[0], stream, isn), run[1..], stream, isn); }
  }

  lemma SessionStep(c: Conn, e: Event, stream: seq<Byte>, isn: U32)
    requires c.session.Some? && Legal(c, e, stream, isn)
    ensures var (s, s') := (c.session.value, Apply(c, e, stream, isn).session);
            if Resets(e) then s'.None?
            else && s'.Some? && (s'.value.state.FinWait? <==> s.state.FinWait? || (Heard(e) && e.seg.fin))
                 && (s'.value.vmSeq, s'.value.vmAck) == LastHeard([e], s.vmSeq, s.vmAck)
                 && s'.value.serverSeq == s.serverSeq
  {
    assert [e][..0] == [];
  }

  /** A session ends exactly with a reset from the VM. Until then it is closing exactly if the VM sent a FIN, knows
      the numbers of the last segment heard, and keeps the number its server's bytes start from. */
  lemma {:induction false} SessionLives(c: Conn, run: seq<Event>, stream: seq<Byte>, isn: U32)
    requires c.session.Some? && LegalRun(c, run, stream, isn)
    ensures var (s, s') := (c.session.value, Run(c, run, stream, isn).session);
            && (s'.None? <==> exists e | e in run :: Resets(e))
            && (s'.Some? ==>
                  && (s'.value.state.FinWait? <==> s.state.FinWait? || exists e | e in run :: Heard(e) && e.seg.fin)
                  && (s'.value.vmSeq, s'.value.vmAck) == LastHeard(run, s.vmSeq, s.vmAck)
                  && s'.value.serverSeq == s.serverSeq)
    decreases |run|
  {
    if run != [] {
      var e, rest := run[0], run[1..];
      assert run == [e] + rest;
      var c' := Apply(c, e, stream, isn);
      SessionStep(c, e, stream, isn);
      LastHeardAfter(e, rest, c.session.value.vmSeq, c.session.value.vmAck);
      if Resets(e) {
        NoSessionStays(c', rest, stream, isn);
      } else {
        SessionLives(c', rest, stream, isn);
      }
    }
  }
}
