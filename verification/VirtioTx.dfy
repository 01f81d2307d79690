/** The transmit side of the network driver: a buffer slot for every descriptor in flight. */
module VirtioTx {
  import opened Basics
  import opened VirtQueue

  const HEADER: nat := 12
  const MAX_PACKET: nat := 1514

  datatype TxBuffer = TxBuffer(desc: nat, data: seq<Byte>)
  type Slots = s: seq<Option<TxBuffer>> | |s| == QUEUE_SIZE witness seq(QUEUE_SIZE, _ => None)

  datatype SendError = PacketTooLarge | NoDescriptors | NoSlots

  /** Occupied slots and descriptors that are not free correspond one to one. */
  ghost predicate Backed(place: Places, slots: Slots, slotOf: seq<nat>) {
    && |slotOf| == QUEUE_SIZE
    && (forall d | 0 <= d < QUEUE_SIZE && !place[d].Free? ::
          slotOf[d] < QUEUE_SIZE && slots[slotOf[d]].Some? && slots[slotOf[d]].value.desc == d)
    && forall i | 0 <= i < QUEUE_SIZE && slots[i].Some? ::
         slots[i].value.desc < QUEUE_SIZE && !place[slots[i].value.desc].Free? && slotOf[slots[i].value.desc] == i
  }

  lemma BackedMoves(place: Places, slots: Slots, slotOf: seq<nat>, d: nat, q: Place)
    requires Backed(place, slots, slotOf) && d < QUEUE_SIZE && !place[d].Free? && !q.Free?
    ensures Backed(place[d := q], slots, slotOf)
  {
  }

  lemma BackedGrows(place: Places, slots: Slots, slotOf: seq<nat>, d: nat, q: Place, i: nat, b: TxBuffer)
    requires Backed(place, slots, slotOf) && d < QUEUE_SIZE && place[d].Free? && !q.Free?
    requires i < QUEUE_SIZE && slots[i].None? && b.desc == d
    ensures Backed(place[d := q], slots[i := Some(b)], slotOf[d := i])
  {
  }

  lemma BackedShrinks(place: Places, slots: Slots, slotOf: seq<nat>, d: nat, k: nat)
    requires Backed(place, slots, slotOf) && d < QUEUE_SIZE && !place[d].Free?
    ensures slotOf[d] < QUEUE_SIZE && Backed(place[d := Free(k)], slots[slotOf[d] := None], slotOf)
  {
  }

  /** Occupied slots from `i` on. */
  function Occupied(slots: Slots, i: nat): (n: nat)
    ensures i <= QUEUE_SIZE ==> n <= QUEUE_SIZE - i
    decreases QUEUE_SIZE - i, |slots|
  {
    if i >= QUEUE_SIZE then 0 else (if slots[i].Some? then 1 else 0) + Occupied(slots, i + 1)
  }

  lemma {:induction false} OccupiedAfter(slots: Slots, j: nat, b: Option<TxBuffer>, i: nat)
    requires j < QUEUE_SIZE
    ensures Occupied(slots[j := b], i)
         == Occupied(slots, i) + if i <= j then (if b.Some? then 1 else 0) - (if slots[j].Some? then 1 else 0) else 0
    decreases QUEUE_SIZE - i
  {
    if i < QUEUE_SIZE { OccupiedAfter(slots, j, b, i + 1); }
  }

  lemma {:induction false} NoneOccupied(slots: Slots, i: nat)
    requires i <= QUEUE_SIZE && forall j | i <= j < QUEUE_SIZE :: slots[j].None?
    ensures Occupied(slots, i) == 0
    decreases QUEUE_SIZE - i
  {
    if i < QUEUE_SIZE { NoneOccupied(slots, i + 1); }
  }

  lemma {:induction false} AllOccupied(slots: Slots, i: nat)
    requires i <= QUEUE_SIZE && forall j | i <= j < QUEUE_SIZE :: slots[j].Some?
    ensures Occupied(slots, i) == QUEUE_SIZE - i
    decreases QUEUE_SIZE - i
  {
    if i < QUEUE_SIZE { AllOccupied(slots, i + 1); }
  }

  /** The packet behind an all-zero header, in a buffer of fixed size. */
  function Framed(data: seq<Byte>): seq<Byte>
    requires |data| <= MAX_PACKET
  {
    seq(HEADER, _ => 0) + data + seq(MAX_PACKET - |data|, _ => 0)
  }

  // ---------------------------------------------------------------------------
  // The packet behind each descriptor
  // ---------------------------------------------------------------------------

  /** The bytes of the packet in a buffer whose descriptor has this length. */
  function PacketIn(data: seq<Byte>, len: int): seq<Byte>
    requires HEADER <= len <= |data|
  {
    data[HEADER..len]
  }

  /** A buffer of 1526 bytes: twelve zeros, then the packet up to the descriptor's length. */
  ghost predicate Holds(b: TxBuffer, len: int, packet: seq<Byte>) {
    && |b.data| == 1526 && (forall i | 0 <= i < 12 :: b.data[i] == 0)
    && HEADER <= len <= |b.data| && PacketIn(b.data, len) == packet
  }

  lemma FramedHolds(d: nat, data: seq<Byte>)
    requires |data| <= MAX_PACKET
    ensures Holds(TxBuffer(d, Framed(data)), HEADER + |data|, data)
  {
  }

  /** The slot of each descriptor in flight holds the packet it was last sent with. */
  ghost predicate Loaded(place: Places, slots: Slots, slotOf: seq<nat>, len: seq<int>, packetOf: seq<seq<Byte>>) {
    && |slotOf| == |len| == |packetOf| == QUEUE_SIZE
    && forall d | 0 <= d < QUEUE_SIZE && !place[d].Free? ::
         && slotOf[d] < QUEUE_SIZE && slots[slotOf[d]].Some?
         && Holds(slots[slotOf[d]].value, len[d], packetOf[d])
  }

  /** What the device has not taken yet are the last packets, in the order of the sends. */
  ghost predicate InTurn(sent: seq<int>, seen: nat, packets: seq<seq<Byte>>, packetOf: seq<seq<Byte>>) {
    && |packets| == |sent| && |packetOf| == QUEUE_SIZE
    && forall k | seen <= k < |sent| :: 0 <= sent[k] < QUEUE_SIZE && packetOf[sent[k]] == packets[k]
  }

  lemma LoadedGrows(place: Places, slots: Slots, slotOf: seq<nat>, len: seq<int>, packetOf: seq<seq<Byte>>, d: nat,
      q: Place, i: nat, b: TxBuffer, n: int, packet: seq<Byte>)
    requires Loaded(place, slots, slotOf, len, packetOf) && d < QUEUE_SIZE && i < QUEUE_SIZE && slots[i].None?
    requires Holds(b, n, packet)
    ensures Loaded(place[d := q], slots[i := Some(b)], slotOf[d := i], len[d := n], packetOf[d := packet])
  {
  }

  lemma LoadedShrinks(place: Places, slots: Slots, slotOf: seq<nat>, len: seq<int>, packetOf: seq<seq<Byte>>, d: nat,
      k: nat)
    requires Loaded(place, slots, slotOf, len, packetOf) && Backed(place, slots, slotOf)
    requires d < QUEUE_SIZE && slotOf[d] < QUEUE_SIZE && slots[slotOf[d]].Some? && slots[slotOf[d]].value.desc == d
    ensures Loaded(place[d := Free(k)], slots[slotOf[d] := None], slotOf, len, packetOf)
  {
  }

  lemma LoadedMoves(place: Places, slots: Slots, slotOf: seq<nat>, len: seq<int>, packetOf: seq<seq<Byte>>, d: nat,
      q: Place)
    requires Loaded(place, slots, slotOf, len, packetOf) && d < QUEUE_SIZE && !place[d].Free?
    ensures Loaded(place[d := q], slots, slotOf, len, packetOf)
  {
  }

  lemma InTurnGrows(l: Ledger, packets: seq<seq<Byte>>, packetOf: seq<seq<Byte>>, d: nat, packet: seq<Byte>)
    requires InTurn(l.sent, l.seen, packets, packetOf) && d < QUEUE_SIZE
    requires InLog(l.place, l.sent, l.seen, false) && !l.place[d].Queued?
    ensures InTurn(l.sent + [d], l.seen, packets + [packet], packetOf[d := packet])
  {
  }

  /** What publishing a held descriptor with its buffer in a free slot adds up to. */
  lemma Publishes(before: Places, l: Ledger, slots: Slots, slotOf: seq<nat>, d: nat, i: nat, b: TxBuffer)
    requires d < QUEUE_SIZE && i < QUEUE_SIZE && slots[i].None? && b.desc == d && l.held == {d}
    requires before[d].Free? && l.place == before[d := Held] && Backed(before, slots, slotOf)
    ensures Backed(l.Published(d).place, slots[i := Some(b)], slotOf[d := i]) && l.Published(d).held == {}
    ensures Occupied(slots[i := Some(b)], 0) == Occupied(slots, 0) + 1
  {
    BackedGrows(before, slots, slotOf, d, Queued(false, |l.sent|), i, b);
    OccupiedAfter(slots, i, Some(b), 0);
    assert l.Published(d).place == before[d := Queued(false, |l.sent|)];
  }

  /** What popping and freeing a returned descriptor and emptying its slot add up to. */
  lemma Reaps(l: Ledger, slots: Slots, slotOf: seq<nat>)
    requires l.Ok() && l.popped < |l.done| && l.held == {} && Backed(l.place, slots, slotOf)
    ensures var d := l.done[l.popped];
            && 0 <= d < QUEUE_SIZE && !l.place[d].Free? && slotOf[d] < QUEUE_SIZE
            && slots[slotOf[d]].Some? && slots[slotOf[d]].value.desc == d
            && var l', slots' := l.Popped().Freed(d), slots[slotOf[d] := None];
            && Backed(l'.place, slots', slotOf) && l'.held == {}
            && Occupied(slots', 0) == Occupied(slots, 0) - 1
  {
    var d := l.done[l.popped];
    BackedShrinks(l.place, slots, slotOf, d, |l.free|);
    OccupiedAfter(slots, slotOf[d], None, 0);
    assert l.Popped().Freed(d).place == l.place[d := Free(|l.free|)];
  }

  /** The packet of a send is in its slot and last in the order. */
  lemma Loads(before: Places, l: Ledger, slots: Slots, slotOf: seq<nat>, len: seq<int>, packetOf: seq<seq<Byte>>,
      packets: seq<seq<Byte>>, d: nat, i: nat, data: seq<Byte>)
    requires d < QUEUE_SIZE && i < QUEUE_SIZE && slots[i].None? && |data| <= MAX_PACKET && l.Ok()
    requires before[d].Free? && l.place == before[d := Held] && Loaded(before, slots, slotOf, len, packetOf)
    requires InTurn(l.sent, l.seen, packets, packetOf)
    ensures Loaded(l.Published(d).place, slots[i := Some(TxBuffer(d, Framed(data)))], slotOf[d := i],
                   len[d := HEADER + |data|], packetOf[d := data])
    ensures InTurn(l.Published(d).sent, l.seen, packets + [data], packetOf[d := data])
    ensures l.seen <= |packets| ==> (packets + [data])[..l.seen] == packets[..l.seen]
  {
    FramedHolds(d, data);
    LoadedGrows(before, slots, slotOf, len, packetOf, d, Queued(false, |l.sent|), i, TxBuffer(d, Framed(data)),
                HEADER + |data|, data);
    InTurnGrows(l, packets, packetOf, d, data);
    assert l.Published(d).place == before[d := Queued(false, |l.sent|)];
  }

  /** Reaping a descriptor leaves the packets of the others where they are. */
  lemma Unloads(l: Ledger, slots: Slots, slotOf: seq<nat>, len: seq<int>, packetOf: seq<seq<Byte>>)
    requires l.Ok() && l.popped < |l.done| && Backed(l.place, slots, slotOf)
    requires Loaded(l.place, slots, slotOf, len, packetOf)
    ensures var d := l.done[l.popped];
            && 0 <= d < QUEUE_SIZE && slotOf[d] < QUEUE_SIZE
            && var l' := l.Popped().Freed(d);
               && Loaded(l'.place, slots[slotOf[d] := None], slotOf, len, packetOf)
               && l'.sent == l.sent && l'.seen == l.seen
  {
    var d := l.done[l.popped];
    LoadedShrinks(l.place, slots, slotOf, len, packetOf, d, |l.free|);
    assert l.Popped().Freed(d).place == l.place[d := Free(|l.free|)];
  }

  /** The next packet for the device is the one its descriptor's slot holds. */
  lemma Fetches(l: Ledger, slots: Slots, slotOf: seq<nat>, len: seq<int>, packetOf: seq<seq<Byte>>,
      packets: seq<seq<Byte>>)
    requires l.Ok() && l.seen < |l.sent| && Loaded(l.place, slots, slotOf, len, packetOf)
    requires InTurn(l.sent, l.seen, packets, packetOf)
    ensures var d := l.sent[l.seen];
            && 0 <= d < QUEUE_SIZE && slotOf[d] < QUEUE_SIZE && slots[slotOf[d]].Some?
            && Holds(slots[slotOf[d]].value, len[d], packets[l.seen])
            && Loaded(l.Seen().place, slots, slotOf, len, packetOf)
            && InTurn(l.Seen().sent, l.Seen().seen, packets, packetOf)
            && packets[..l.seen] + [packets[l.seen]] == packets[..l.seen + 1]
  {
    LoadedMoves(l.place, slots, slotOf, len, packetOf, l.sent[l.seen], Taken);
  }

  class Net {
    const tx: Queue
    var slots: Slots
    ghost var slotOf: seq<nat>
    /** The packets sent, in order, the last one sent with each descriptor, and those the device fetched. */
    ghost var packets: seq<seq<Byte>>
    ghost var packetOf: seq<seq<Byte>>
    ghost var wire: seq<seq<Byte>>

    ghost predicate Valid()
      reads this, tx
    {
      && tx.Valid() && tx.ledger.held == {} && Backed(tx.ledger.place, slots, slotOf)
      && tx.numFree + Occupied(slots, 0) == QUEUE_SIZE
      && Loaded(tx.ledger.place, slots, slotOf, tx.len, packetOf) && Orderly(tx.ledger)
    }

    /** What the device fetched are the first packets sent, and the next ones are in their slots. */
    ghost predicate Orderly(l: Ledger)
      reads this
    {
      InTurn(l.sent, l.seen, packets, packetOf) && l.seen <= |packets| && wire == packets[..l.seen]
    }

    constructor ()
      ensures Valid() && fresh(tx) && tx.numFree == QUEUE_SIZE && tx.ledger.sent == [] && tx.ledger.done == []
      ensures packets == [] && wire == []
    {
      tx := new Queue();
      slots := seq(QUEUE_SIZE, _ => None);
      slotOf := seq(QUEUE_SIZE, _ => 0);
      packets, packetOf, wire := [], seq(QUEUE_SIZE, _ => []), [];
      new;
      NoneOccupied(slots, 0);
    }

    /** The first free slot. */
    method FindSlot() returns (r: Option<nat>)
      ensures r.Some? ==> r.value < QUEUE_SIZE && slots[r.value].None? && forall j | 0 <= j < r.value :: slots[j].Some?
      ensures r.None? ==> forall j | 0 <= j < QUEUE_SIZE :: slots[j].Some?
    {
      for i := 0 to QUEUE_SIZE
        invariant forall j | 0 <= j < i :: slots[j].Some?
      {
        if slots[i].None? { return Some(i); }
      }
      return None;
    }

    /** Fills the slot and publishes the descriptor. */
    method Publish(d: nat, i: nat, data: seq<Byte>, ghost before: Places)
      requires tx.Valid() && tx.ledger.held == {d} && |data| <= MAX_PACKET && d < QUEUE_SIZE && i < QUEUE_SIZE
               && slots[i].None?
      requires before[d].Free? && tx.ledger.place == before[d := Held] && Backed(before, slots, slotOf)
      requires tx.numFree + 1 + Occupied(slots, 0) == QUEUE_SIZE
      requires Loaded(before, slots, slotOf, tx.len, packetOf) && Orderly(tx.ledger)
      modifies this, tx
      ensures Valid() && tx.numFree == old(tx.numFree) && tx.ledger == old(tx.ledger).Published(d)
      ensures slots == old(slots)[i := Some(TxBuffer(d, Framed(data)))] && tx.len[d] == HEADER + |data|
      ensures packets == old(packets) + [data] && wire == old(wire)
    {
      var b := TxBuffer(d, Framed(data));
      Publishes(before, tx.ledger, slots, slotOf, d, i, b);
      Loads(before, tx.ledger, slots, slotOf, tx.len, packetOf, packets, d, i, data);
      tx.SetupDesc(d, HEADER + |data|);
      slots := slots[i := Some(b)];
      slotOf := slotOf[d := i];
      packets := packets + [data];
      packetOf := packetOf[d := data];
      tx.PushAvail(d);
    }

    /** `send` succeeds exactly when the packet fits and a descriptor is free; it never lacks a slot. */
    method Send(data: seq<Byte>) returns (r: Option<SendError>, ghost d: nat, ghost i: nat)
      requires Valid()
      modifies this, tx
      ensures Valid() && d < QUEUE_SIZE && i < QUEUE_SIZE
      ensures r == if |data| > MAX_PACKET then Some(PacketTooLarge)
                else if old(tx.numFree) == 0 then Some(NoDescriptors) else None
      ensures r.Some? ==> tx.ledger == old(tx.ledger) && slots == old(slots) && tx.numFree == old(tx.numFree)
      ensures r.None? ==> && tx.numFree == old(tx.numFree) - 1 && old(tx.ledger.free) != []
                          && d == old(tx.ledger.free[|tx.ledger.free| - 1])
                          && tx.ledger == old(tx.ledger).Allocated().Published(d)
                          && old(slots)[i].None? && slots == old(slots)[i := Some(TxBuffer(d, Framed(data)))]
                          && |tx.len| == QUEUE_SIZE && Holds(slots[i].value, tx.len[d], data)
      ensures packets == old(packets) + (if r.None? then [data] else []) && wire == old(wire)
    {
      r, d, i := Some(NoSlots), 0, 0;
      if |data| > MAX_PACKET { return Some(PacketTooLarge), 0, 0; }
      var desc := tx.AllocDesc();
      if desc.None? { return Some(NoDescriptors), 0, 0; }
      var slot := FindSlot();
      if slot.None? {
        AllOccupied(slots, 0);
        return;
      }
      Publish(desc.value, slot.value, data, old(tx.ledger.place));
      FramedHolds(desc.value, data);
      return None, desc.value, slot.value;
    }

    /** Empties the slot of a descriptor: the first, and only, slot that names it. */
    method ClearSlot(id: int, ghost place: Places)
      requires 0 <= id < QUEUE_SIZE && Backed(place, slots, slotOf) && !place[id].Free?
      modifies this`slots
      ensures slotOf[id] < QUEUE_SIZE && old(slots)[slotOf[id]].Some? && slots == old(slots)[slotOf[id] := None]
    {
      for i := 0 to QUEUE_SIZE
        invariant slots == old(slots) && i <= slotOf[id]
      {
        if slots[i].Some? && slots[i].value.desc == id {
          slots := slots[i := None];
          return;
        }
      }
    }

    /** One round of `process_tx`: pops a returned descriptor, empties its slot and frees it. */
    method ReapOne() returns (more: bool, ghost d: int, ghost i: nat)
      requires Valid()
      modifies this`slots, tx
      ensures Valid() && more == (old(tx.ledger.popped) < |old(tx.ledger.done)|)
      ensures more ==> && 0 <= d < QUEUE_SIZE && d == old(tx.ledger.done[tx.ledger.popped])
                       && tx.ledger == old(tx.ledger).Popped().Freed(d)
                       && tx.numFree == old(tx.numFree) + 1 && i < QUEUE_SIZE && slots == old(slots)[i := None]
                       && old(slots)[i].Some? && old(slots)[i].value.desc == d
      ensures !more ==> tx.ledger == old(tx.ledger) && slots == old(slots) && tx.numFree == old(tx.numFree)
    {
      ghost var l := tx.ledger;
      var id := tx.PopUsed();
      if id.None? { return false, 0, 0; }
      Reaps(l, slots, slotOf);
      Unloads(l, slots, slotOf, tx.len, packetOf);
      ClearSlot(id.value, l.place);
      tx.FreeDesc(id.value);
      return true, id.value, slotOf[id.value];
    }

    /** The device goes on: any of its steps. */
    method DeviceRuns(steps: seq<Event>)
      requires Valid()
      modifies this`wire, tx
      ensures Valid() && tx.numFree == old(tx.numFree)
      ensures tx.ledger.sent == old(tx.ledger.sent) && tx.ledger.popped == old(tx.ledger.popped)
              && old(tx.ledger.done) <= tx.ledger.done
      ensures steps == [] ==> tx.ledger == old(tx.ledger)
    {
      for k := 0 to |steps|
        invariant Valid() && tx.numFree == old(tx.numFree)
        invariant tx.ledger.sent == old(tx.ledger.sent) && tx.ledger.popped == old(tx.ledger.popped)
                  && old(tx.ledger.done) <= tx.ledger.done
        invariant k == 0 ==> tx.ledger == old(tx.ledger)
      {
        match steps[k]
        case Take => Take();
        case Return(id) => if id in tx.deviceHas { Return(id); }
        case _ =>
      }
    }

    /** `process_tx`, while the device goes on between its rounds: it frees exactly what the device has returned when
        it stops. */
    method ProcessTx(device: seq<seq<Event>>)
      requires Valid()
      modifies this`slots, this`wire, tx
      ensures Valid() && tx.ledger.popped == |tx.ledger.done| && old(tx.ledger.done) <= tx.ledger.done
              && tx.ledger.sent == old(tx.ledger.sent)
      ensures tx.numFree - old(tx.numFree) == |tx.ledger.done| - old(tx.ledger.popped)
      ensures device == [] ==> tx.ledger.done == old(tx.ledger.done)
    {
      var more, round := true, 0;
      while more
        invariant Valid() && old(tx.ledger.done) <= tx.ledger.done && tx.ledger.sent == old(tx.ledger.sent)
        invariant tx.numFree - tx.ledger.popped == old(tx.numFree - tx.ledger.popped)
        invariant !more ==> tx.ledger.popped == |tx.ledger.done|
        invariant device == [] ==> tx.ledger.done == old(tx.ledger.done)
        decreases |tx.ledger.sent| - tx.ledger.popped, more
      {
        DeviceRuns(if round < |device| then device[round] else []);
        ghost var d, i;
        more, d, i := ReapOne();
        round := round + 1;
      }
    }

    /** The device takes the next published descriptor, if any, and fetches the packet from its buffer. */
    method Take()
      requires Valid()
      modifies this`wire, tx
      ensures Valid() && tx.numFree == old(tx.numFree)
      ensures tx.ledger == if old(tx.ledger.seen < |tx.ledger.sent|) then old(tx.ledger).Seen() else old(tx.ledger)
    {
      ghost var l := tx.ledger;
      var id := tx.DeviceTake();
      if id.Some? {
        BackedMoves(l.place, slots, slotOf, id.value, Taken);
        Fetches(l, slots, slotOf, tx.len, packetOf, packets);
        wire := wire + [PacketIn(slots[slotOf[id.value]].value.data, tx.len[id.value])];
      }
    }

    /** The device returns a descriptor it has. */
    method Return(id: int)
      requires Valid() && id in tx.deviceHas
      modifies tx
      ensures Valid() && tx.numFree == old(tx.numFree) && 0 <= id < QUEUE_SIZE
              && tx.ledger == old(tx.ledger).Returned(id)
    {
      BackedMoves(tx.ledger.place, slots, slotOf, id, Queued(true, |tx.ledger.done|));
      LoadedMoves(tx.ledger.place, slots, slotOf, tx.len, packetOf, id, Queued(true, |tx.ledger.done|));
      tx.DeviceReturn(id);
    }

    /** Any interleaving of sends, rounds of `process_tx` and device steps keeps the driver valid: the free
        list, the slots and the rings stay consistent, no send ever lacks a slot, and the descriptors in
        flight are those of the packets sent and not yet reaped. What the device fetches from the buffers are
        the packets of the sends that succeeded, in order and each once. */
    method Run(events: seq<Event>) returns (results: seq<Option<SendError>>)
      requires Valid()
      modifies this, tx
      ensures Valid() && Some(NoSlots) !in results && |results| == |SendsOf(events)|
      ensures packets == old(packets) + Successful(SendsOf(events), results) && |packets| == |tx.ledger.sent|
      ensures tx.ledger.seen <= |packets| && wire == packets[..tx.ledger.seen]
      ensures tx.numFree + |tx.ledger.sent| - tx.ledger.popped == QUEUE_SIZE
    {
      results := [];
      ghost var start := packets;
      for k := 0 to |events|
        invariant Valid() && Some(NoSlots) !in results && |results| == |SendsOf(events[..k])|
        invariant packets == start + Successful(SendsOf(events[..k]), results)
      {
        var result := Perform(events[k]);
        StepSends(events, k, results, result, start);
        if result.Some? { results := results + [result.value]; }
      }
      assert events[..|events|] == events;
    }

    /** One event; the result is that of a send. */
    method Perform(e: Event) returns (result: Option<Option<SendError>>)
      requires Valid()
      modifies this, tx
      ensures Valid() && (result.Some? <==> e.Send?) && result != Some(Some(NoSlots))
      ensures packets == old(packets) + if e.Send? && result == Some(None) then [e.data] else []
    {
      result := None;
      match e
      case Send(data) =>
        var r := Submit(data);
        result := Some(r);
      case Reap => Reap();
      case Take => Take();
      case Return(id) => if id in tx.deviceHas { Return(id); }
    }

    method Submit(data: seq<Byte>) returns (r: Option<SendError>)
      requires Valid()
      modifies this, tx
      ensures Valid() && r != Some(NoSlots) && packets == old(packets) + if r.None? then [data] else []
    {
      ghost var d, i;
      r, d, i := Send(data);
    }

    method Reap()
      requires Valid()
      modifies this`slots, tx
      ensures Valid()
    {
      ghost var d, i;
      var more;
      more, d, i := ReapOne();
    }
  }

  datatype Event = Send(data: seq<Byte>) | Reap | Take | Return(id: int)

  /** The packets the events ask to send. */
  function SendsOf(events: seq<Event>): seq<seq<Byte>> {
    if events == [] then []
    else
      var last := events[|events| - 1];
      SendsOf(events[..|events| - 1]) + if last.Send? then [last.data] else []
  }

  /** Those that were accepted. */
  function Successful(sends: seq<seq<Byte>>, results: seq<Option<SendError>>): seq<seq<Byte>>
    requires |sends| == |results|
  {
    if sends == [] then []
    else
      var n := |sends| - 1;
      Successful(sends[..n], results[..n]) + if results[n].None? then [sends[n]] else []
  }

  lemma SuccessfulGrows(sends: seq<seq<Byte>>, results: seq<Option<SendError>>, data: seq<Byte>, r: Option<SendError>)
    requires |sends| == |results|
    ensures Successful(sends + [data], results + [r]) == Successful(sends, results) + if r.None? then [data] else []
  {
    assert (sends + [data])[..|sends|] == sends && (results + [r])[..|results|] == results;
  }

  /** What one event adds to the packets asked for, the results and the packets accepted. */
  lemma StepSends(events: seq<Event>, k: nat, results: seq<Option<SendError>>, result: Option<Option<SendError>>,
      start: seq<seq<Byte>>)
    requires k < |events| && |results| == |SendsOf(events[..k])| && (result.Some? <==> events[k].Send?)
    ensures var e, before := events[k], Successful(SendsOf(events[..k]), results);
            var results' := if result.Some? then results + [result.value] else results;
            && |results'| == |SendsOf(events[..k + 1])|
            && start + Successful(SendsOf(events[..k + 1]), results')
               == start + before + if e.Send? && result == Some(None) then [e.data] else []
  {
    var before := Successful(SendsOf(events[..k]), results);
    assert events[..k + 1][..k] == events[..k];
    if result.Some? {
      SuccessfulGrows(SendsOf(events[..k]), results, events[k].data, result.value);
      var more: seq<seq<Byte>> := if result.value.None? then [events[k].data] else [];
      assert start + (before + more) == start + before + more;
    } else {
      assert SendsOf(events[..k]) + [] == SendsOf(events[..k]) && start + before + [] == start + before;
    }
  }
}
