/** The session handler and forwarding task as they run, proved against the steps of `TcpProxy`. */
module TcpConnection {
  import opened Basics
  import opened TcpProxy

  class Connection {
    var session: Option<Session>
    var queue: seq<seq<Byte>>
    var task: Task

    function View(): Conn reads this { Conn(session, queue, task) }

    /** After a successful connect to the server. */
    constructor (seqNum: U32, serverSeq: U32)
      ensures View() == Opened(seqNum, serverSeq)
    {
      session := Some(Session(SynSent, seqNum, 0, serverSeq, Wrap(seqNum + 1)));
      queue := [];
      task := Task(true, Wrap(serverSeq + 1), Wrap(seqNum + 1), [], []);
    }

    method TrySendTo(msg: seq<Byte>)
      modifies this`queue
      ensures queue == TrySend(old(View()), msg)
    {
      if task.running && |queue| < CHANNEL { queue := queue + [msg]; }
    }

    /** `handle_tcp` once the frame is parsed; `connect` is what a new connection to the server would give. */
    method OnSegment(seg: Segment, connect: Option<U32>) returns (reply: Option<Packet>)
      requires |seg.payload| < TWO32
      modifies this
      ensures (View(), reply) == Arrived(old(View()), seg, connect)
    {
      if session.None? {
        if seg.syn && !seg.ack { reply := OnSyn(seg.seqNum, connect); } else { reply := None; }
        return;
      }
      var s := session.value;
      if seg.syn && !seg.ack {
        return Some(Packet(s.serverSeq, Wrap(seg.seqNum + 1), 0x12, []));
      }
      if seg.rst {
        session := None;
        return None;
      }
      s := s.(vmSeq := seg.seqNum, vmAck := seg.ackNum);
      session := Some(s);
      if seg.fin {
        session := Some(s.(state := FinWait));
        TrySendTo([]);
        return Some(Packet(s.serverSeq, Wrap(seg.seqNum + 1), 0x11, []));
      }
      if |seg.payload| > 0 {
        reply := OnData(s, seg);
        return;
      }
      return None;
    }

    /** `handle_tcp_syn`: a reset if the server cannot be reached, else a session and its task that are in step with
        whatever the VM will send, and number the server's bytes from the reply on. */
    method OnSyn(seqNum: U32, connect: Option<U32>) returns (reply: Option<Packet>)
      modifies this
      ensures (View(), reply) == Answered(old(View()), seqNum, connect)
      ensures connect.None? ==> unchanged(this)
      ensures connect.Some? ==> && (forall stream: seq<Byte> :: Exact(View(), stream, seqNum))
                                && Numbered(task, connect.value + 1) && Payloads(task.sent) == [] && Accepts(View())
      ensures reply.Some? && reply.value.payload == [] && reply.value.ackNum == Wrap(seqNum + 1)
      ensures FlagsOf(reply.value.flags) == Flags(false, connect.Some?, connect.None?, false, true)
      ensures connect.Some? ==> && session.Some? && session.value.serverAck == reply.value.ackNum
                                && task.seqNum == Wrap(reply.value.seqNum + 1)
    {
      if connect.None? { return Some(Packet(0, Wrap(seqNum + 1), 0x14, [])); }
      var serverSeq: int := connect.value;
      queue := [];
      session := Some(Session(SynSent, seqNum, 0, serverSeq, Wrap(seqNum + 1)));
      task := Task(true, Wrap(serverSeq + 1), Wrap(seqNum + 1), [], []);
      return Some(Packet(serverSeq, Wrap(seqNum + 1), 0x12, []));
    }

    method OnData(s: Session, seg: Segment) returns (reply: Option<Packet>)
      requires 0 < |seg.payload| < TWO32 && session == Some(s)
      modifies this
      ensures (View(), reply) == Data(old(View()), s, seg)
    {
      var packetEnd := Wrap(seg.seqNum + |seg.payload|);
      var diffStart := AsI32(Wrap(s.serverAck - seg.seqNum));
      var diffEnd := AsI32(Wrap(packetEnd - s.serverAck));
      if 0 < diffStart < WINDOW && (diffEnd <= 0 || diffEnd >= WINDOW) {
        return Some(Packet(Wrap(s.serverSeq + 1), s.serverAck, 0x10, []));
      }
      SkipFits(s, seg.seqNum, |seg.payload|);
      var payload := if 0 < diffStart < WINDOW then seg.payload[diffStart..] else seg.payload;
      TrySendTo(payload);
      session := Some(s.(serverAck := packetEnd));
      return Some(Packet(Wrap(s.serverSeq + 1), packetEnd, 0x10, []));
    }

    /** The task's turn with a message from the VM; `broken` bytes go out before a write that fails. */
    method OnMessage(broken: Option<nat>)
      requires task.running && queue != [] && (broken.Some? ==> broken.value <= |queue[0]|)
      modifies this
      ensures View() == if broken.None? then Forward(old(View())) else ForwardBreaks(old(View()), broken.value)
    {
      var data := queue[0];
      queue := queue[1..];
      if data == [] {
        task := task.(running := false);
        return;
      }
      task := task.(ackNum := Wrap(task.ackNum + |data|));
      if broken.None? {
        task := task.(forwarded := task.forwarded + data);
      } else {
        task := task.(forwarded := task.forwarded + data[..broken.value], running := false);
      }
    }

    /** The task's turn with a failed read: it stops, with the VM's stream and the packets sent as they were, and
        takes nothing more. */
    method OnServerError()
      requires task.running
      modifies this`task
      ensures View() == ReadFails(old(View()))
      ensures !Accepts(View()) && Taken(View()) == old(Taken(View())) && task.sent == old(task.sent)
      ensures forall stream: seq<Byte>, isn: U32 | old(Exact(View(), stream, isn)) :: Exact(View(), stream, isn)
      ensures forall base: nat | old(Numbered(task, base)) :: Numbered(task, base)
    {
      task := task.(running := false);
    }

    /** The task's turn with bytes from the server, sent on in fragments; none means end of stream. */
    method OnServerBytes(data: seq<Byte>)
      requires task.running
      modifies this`task
      ensures View() == Receive(old(View()), data)
    {
      if data == [] {
        task := task.(running := false, sent := task.sent + [Packet(task.seqNum, task.ackNum, 0x11, [])]);
        return;
      }
      var offset := 0;
      ghost var t := task;
      while offset < |data|
        invariant offset <= |data|
        invariant task == t.(seqNum := Wrap(t.seqNum + offset), sent := task.sent)
        invariant task.sent + Fragments(data[offset..], task.seqNum, task.ackNum)
               == t.sent + Fragments(data, t.seqNum, t.ackNum)
      {
        var chunkEnd := if offset + MAX_TCP_PAYLOAD < |data| then offset + MAX_TCP_PAYLOAD else |data|;
        var chunk := data[offset..chunkEnd];
        var flags: Byte := if chunkEnd == |data| then 0x18 else 0x10;
        NextFragment(data, offset, chunkEnd, task.seqNum, task.ackNum);
        ghost var rest := Fragments(data[chunkEnd..], Wrap(task.seqNum + |chunk|), task.ackNum);
        assert task.sent + ([Packet(task.seqNum, task.ackNum, flags, chunk)] + rest)
            == (task.sent + [Packet(task.seqNum, task.ackNum, flags, chunk)]) + rest;
        WrapSum(t.seqNum + offset, |chunk|);
        task := task.(seqNum := Wrap(task.seqNum + |chunk|),
                      sent := task.sent + [Packet(task.seqNum, task.ackNum, flags, chunk)]);
        offset := chunkEnd;
      }
      assert data[offset..] == [];
    }
  }

  /** The fragment cut at `offset` is the first of those of the remaining data. */
  lemma NextFragment(data: seq<Byte>, offset: nat, chunkEnd: nat, seqNum: U32, ackNum: U32)
    requires offset < |data|
    requires chunkEnd == if offset + MAX_TCP_PAYLOAD < |data| then offset + MAX_TCP_PAYLOAD else |data|
    ensures Fragments(data[offset..], seqNum, ackNum)
         == [Packet(seqNum, ackNum, if chunkEnd == |data| then 0x18 else 0x10, data[offset..chunkEnd])]
            + Fragments(data[chunkEnd..], Wrap(seqNum + (chunkEnd - offset)), ackNum)
  {
    var rest := data[offset..];
    if chunkEnd < |data| {
      assert rest[..MAX_TCP_PAYLOAD] == data[offset..chunkEnd] && rest[MAX_TCP_PAYLOAD..] == data[chunkEnd..];
    } else {
      assert data[chunkEnd..] == [] && rest == data[offset..chunkEnd];
    }
  }
}
