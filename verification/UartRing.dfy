/** The shared UART ring between one producer and one consumer thread, as interleaved steps:
    one per atomic load, atomic store or byte access. Both the output and the input ring run this code. */
module UartRing {
  import opened Basics


  /** Region size minus the two index words. */
  const CAPACITY: nat := 4096 - 8

  /** Where the producer stands inside `write_byte` (single) or `write_bytes`. */
  datatype Producer =
    | Resting
    | Called(bytes: seq<Byte>, single: bool)
    | LoadedWrite(bytes: seq<Byte>, single: bool, w: nat)
    | Writing(bytes: seq<Byte>, count: nat, done: nat, cursor: nat)

  /** Where the consumer stands inside `read_byte` (single) or `read_bytes`. */
  datatype Consumer =
    | Waiting
    | Asked(max: nat, single: bool)
    | SawWrite(max: nat, single: bool, w: nat, seen: nat) // `seen`: bytes accepted when `w` was loaded
    | Reading(count: nat, got: seq<Byte>, cursor: nat)

  /** The shared words, both threads, and the history of bytes accepted and consumed. */
  datatype Ring = Ring(buf: seq<Byte>, writeIdx: nat, readIdx: nat,
                       producer: Producer, consumer: Consumer,
                       accepted: seq<Byte>, consumed: seq<Byte>)

  datatype Action =
    | Write(bytes: seq<Byte>)
    | WriteOne(byte: Byte)
    | Read(max: nat)
    | ReadOne
    | ProducerStep
    | ConsumerStep

  ghost predicate Initial(r: Ring) {
    && |r.buf| == CAPACITY && r.writeIdx == 0 && r.readIdx == 0
    && r.producer == Resting && r.consumer == Waiting && r.accepted == [] && r.consumed == []
  }

  // ---------------------------------------------------------------------------
  // The invariant
  // ---------------------------------------------------------------------------

  /** Byte number `j` of the whole stream lives in this slot, `j` modulo the capacity. */
  function Slot(j: nat): (s: nat)
    ensures s < CAPACITY
  {
    if j < CAPACITY then j else Slot(j - CAPACITY)
  }

  /** Stream bytes `c` to `p` stand in their slots. */
  ghost predicate Stored(buf: seq<Byte>, accepted: seq<Byte>, c: nat, p: nat) {
    && |buf| == CAPACITY && c <= p <= |accepted|
    && forall j | c <= j < p :: buf[Slot(j)] == accepted[j]
  }

  /** Consumed bytes are a prefix of the accepted ones; the rest, at most CAPACITY - 1, is in the buffer. */
  ghost predicate Shared(r: Ring) {
    && |r.consumed| <= |r.accepted| < |r.consumed| + CAPACITY && r.consumed == r.accepted[..|r.consumed|]
    && r.writeIdx == Slot(|r.accepted|) && r.readIdx == Slot(|r.consumed|)
    && Stored(r.buf, r.accepted, |r.consumed|, |r.accepted|)
  }

  /** The producer, of a ring with `p` bytes accepted and `c` consumed. */
  ghost predicate ProducerOk(prod: Producer, buf: seq<Byte>, accepted: seq<Byte>, c: nat) {
    match prod
    case Resting => true
    case Called(bytes, single) => single ==> |bytes| == 1
    case LoadedWrite(bytes, single, w) => bytes != [] && (single ==> |bytes| == 1) && w == Slot(|accepted|)
    case Writing(bytes, count, done, cursor) =>
      && done <= count <= |bytes| && |accepted| + count < c + CAPACITY && cursor == Slot(|accepted| + done)
      && c <= |accepted| && Stored(buf, accepted + bytes[..count], c, |accepted| + done)
  }

  ghost predicate ConsumerOk(cons: Consumer, accepted: seq<Byte>, c: nat) {
    match cons
    case Waiting => true
    case Asked(_, _) => true
    case SawWrite(_, _, w, seen) => c <= seen <= |accepted| && w == Slot(seen)
    case Reading(count, got, cursor) =>
      && |got| <= count && c + count <= |accepted| && cursor == Slot(c + |got|)
      && got == accepted[c..c + |got|]
  }

  ghost predicate Inv(r: Ring) {
    && Shared(r)
    && ProducerOk(r.producer, r.buf, r.accepted, |r.consumed|)
    && ConsumerOk(r.consumer, r.accepted, |r.consumed|)
  }

  lemma {:induction false} SlotNext(j: nat)
    ensures Slot(j + 1) == (Slot(j) + 1) % CAPACITY
  {
    if j >= CAPACITY { SlotNext(j - CAPACITY); }
  }

  /** The distance of two slots tells the distance of stream positions less than a ring apart. */
  lemma {:induction false} SlotDistance(c: nat, p: nat)
    requires c <= p < c + CAPACITY
    ensures p - c == if Slot(p) >= Slot(c) then Slot(p) - Slot(c) else Slot(p) - Slot(c) + CAPACITY
    decreases p
  {
    if c >= CAPACITY { SlotDistance(c - CAPACITY, p - CAPACITY); }
  }

  /** Stream positions less than a ring apart never share a slot. */
  lemma SlotsDiffer(i: nat, j: nat)
    requires i < j < i + CAPACITY
    ensures Slot(i) != Slot(j)
  {
    SlotDistance(i, j);
  }

  // ---------------------------------------------------------------------------
  // The steps
  // ---------------------------------------------------------------------------

  /** How many bytes a call stores, from the two indices it loaded. */
  function ToWrite(bytes: seq<Byte>, single: bool, w: nat, r: nat): int {
    if single then (if (w + 1) % CAPACITY == r then 0 else 1)
    else
      var available := if w >= r then CAPACITY - (w - r) - 1 else r - w - 1;
      var len := |bytes| % 0x1_0000_0000;
      if len < available then len else available
  }

  /** How many bytes a call fetches, from the two indices it loaded. */
  function ToRead(max: nat, single: bool, w: nat, r: nat): int {
    if single then 1
    else
      var available := if w >= r then w - r else CAPACITY - r + w;
      if available < max then available else max
  }

  /** The producer never takes more than is free, and finds no room only when the ring is full. */
  lemma RoomIsExact(r: Ring)
    requires Inv(r) && r.producer.LoadedWrite?
    ensures
      var n := ToWrite(r.producer.bytes, r.producer.single, r.producer.w, r.readIdx);
      var free := CAPACITY - 1 - (|r.accepted| - |r.consumed|);
      free >= 0 && n == Min(|r.producer.bytes| % 0x1_0000_0000, free) && n <= |r.producer.bytes|
  {
    SlotDistance(|r.consumed|, |r.accepted|);
  }

  /** The consumer never takes more than was published when it looked. */
  lemma SupplyIsExact(r: Ring)
    requires Inv(r) && r.consumer.SawWrite?
    ensures r.consumer.w == r.readIdx <==> r.consumer.seen == |r.consumed|
    ensures
      r.consumer.w != r.readIdx ==>
        ToRead(r.consumer.max, r.consumer.single, r.consumer.w, r.readIdx)
          == if r.consumer.single then 1 else Min(r.consumer.max, r.consumer.seen - |r.consumed|)
  {
    SlotDistance(|r.consumed|, r.consumer.seen);
  }

  function ProducerNext(r: Ring): Ring
    requires Inv(r)
  {
    match r.producer
    case Resting => r
    case Called(bytes, single) =>
      if bytes == [] then r.(producer := Resting) else r.(producer := LoadedWrite(bytes, single, r.writeIdx))
    case LoadedWrite(bytes, single, w) =>
      RoomIsExact(r);
      var n := ToWrite(bytes, single, w, r.readIdx);
      r.(producer := if n == 0 then Resting else Writing(bytes, n, 0, w))
    case Writing(bytes, count, done, cursor) =>
      if done < count then
        r.(buf := r.buf[cursor := bytes[done]], producer := Writing(bytes, count, done + 1, (cursor + 1) % CAPACITY))
      else
        r.(writeIdx := cursor, producer := Resting, accepted := r.accepted + bytes[..count])
  }

  function Fetched(buf: seq<Byte>, c: Consumer): Consumer
    requires c.Reading? && c.cursor < |buf|
  {
    Reading(c.count, c.got + [buf[c.cursor]], (c.cursor + 1) % CAPACITY)
  }

  function ConsumerNext(r: Ring): Ring
    requires Inv(r)
  {
    match r.consumer
    case Waiting => r
    case Asked(max, single) => r.(consumer := SawWrite(max, single, r.writeIdx, |r.accepted|))
    case SawWrite(max, single, w, _) =>
      SupplyIsExact(r);
      r.(consumer := if w == r.readIdx then Waiting else Reading(ToRead(max, single, w, r.readIdx), [], r.readIdx))
    case Reading(count, got, cursor) =>
      if |got| < count then r.(consumer := Fetched(r.buf, r.consumer))
      else r.(readIdx := cursor, consumer := Waiting, consumed := r.consumed + got)
  }

  /** The slot a byte store hits belongs to no byte still to be consumed. */
  lemma StoreKeepsOthers(buf: seq<Byte>, accepted: seq<Byte>, c: nat, p: nat, at: nat, byte: Byte)
    requires Stored(buf, accepted, c, p) && p <= at < c + CAPACITY
    ensures Stored(buf[Slot(at) := byte], accepted, c, p)
  {
    forall j | c <= j < p
      ensures Slot(j) != Slot(at)
    {
      SlotsDiffer(j, at);
    }
  }

  /** The next byte of a call in its slot. */
  lemma StoreMovesOn(buf: seq<Byte>, accepted: seq<Byte>, c: nat, bytes: seq<Byte>, count: nat, done: nat, cursor: nat)
    requires ProducerOk(Writing(bytes, count, done, cursor), buf, accepted, c) && done < count
    ensures ProducerOk(Writing(bytes, count, done + 1, (cursor + 1) % CAPACITY), buf[cursor := bytes[done]], accepted,
                       c)
  {
    var stream, at := accepted + bytes[..count], |accepted| + done;
    StoreKeepsOthers(buf, stream, c, at, at, bytes[done]);
    assert stream[at] == bytes[done];
    SlotNext(at);
  }

  lemma StoreKeepsInv(r: Ring)
    requires Inv(r) && r.producer.Writing? && r.producer.done < r.producer.count
    ensures Inv(ProducerNext(r))
  {
    match r.producer
    case Writing(bytes, count, done, cursor) =>
      StoreMovesOn(r.buf, r.accepted, |r.consumed|, bytes, count, done, cursor);
      StoreKeepsOthers(r.buf, r.accepted, |r.consumed|, |r.accepted|, |r.accepted| + done, bytes[done]);
  }

  lemma ConsumerKeepsUp(cons: Consumer, accepted: seq<Byte>, more: seq<Byte>, c: nat)
    requires ConsumerOk(cons, accepted, c)
    ensures ConsumerOk(cons, accepted + more, c)
  {
    if cons.Reading? {
      assert (accepted + more)[c..c + |cons.got|] == accepted[c..c + |cons.got|];
    }
  }

  lemma PublishKeepsInv(r: Ring)
    requires Inv(r) && r.producer.Writing? && r.producer.done == r.producer.count
    ensures Inv(ProducerNext(r))
  {
    ConsumerKeepsUp(r.consumer, r.accepted, r.producer.bytes[..r.producer.count], |r.consumed|);
  }

  lemma ProducerKeepsInv(r: Ring)
    requires Inv(r)
    ensures Inv(ProducerNext(r))
  {
    if r.producer.LoadedWrite? {
      RoomIsExact(r);
    } else if r.producer.Writing? {
      if r.producer.done < r.producer.count { StoreKeepsInv(r); } else { PublishKeepsInv(r); }
    }
  }

  /** The byte fetched is the next of the stream. */
  lemma FetchIsNext(r: Ring)
    requires Shared(r) && ConsumerOk(r.consumer, r.accepted, |r.consumed|)
    requires r.consumer.Reading? && |r.consumer.got| < r.consumer.count
    ensures r.consumer.cursor < |r.buf|
    ensures r.buf[r.consumer.cursor] == r.accepted[|r.consumed| + |r.consumer.got|]
  {
  }

  lemma FetchMovesOn(accepted: seq<Byte>, c: nat, count: nat, got: seq<Byte>, cursor: nat)
    requires ConsumerOk(Reading(count, got, cursor), accepted, c) && |got| < count
    ensures ConsumerOk(Reading(count, got + [accepted[c + |got|]], (cursor + 1) % CAPACITY), accepted, c)
  {
    SlotNext(c + |got|);
    assert accepted[c..c + |got| + 1] == accepted[c..c + |got|] + [accepted[c + |got|]];
  }

  lemma FetchKeepsInv(r: Ring)
    requires Shared(r) && ConsumerOk(r.consumer, r.accepted, |r.consumed|)
    requires r.consumer.Reading? && |r.consumer.got| < r.consumer.count
    ensures r.consumer.cursor < |r.buf|
    ensures ConsumerOk(Fetched(r.buf, r.consumer), r.accepted, |r.consumed|)
  {
    FetchIsNext(r);
    var count, got, cursor := r.consumer.count, r.consumer.got, r.consumer.cursor;
    FetchMovesOn(r.accepted, |r.consumed|, count, got, cursor);
    var after := Reading(count, got + [r.accepted[|r.consumed| + |got|]], (cursor + 1) % CAPACITY);
    assert Fetched(r.buf, r.consumer) == after;
  }

  lemma StoredKeepsUp(buf: seq<Byte>, accepted: seq<Byte>, c: nat, c': nat, p: nat)
    requires Stored(buf, accepted, c, p) && c <= c' <= p
    ensures Stored(buf, accepted, c', p)
  {
  }

  lemma ProducerKeepsUp(prod: Producer, buf: seq<Byte>, accepted: seq<Byte>, c: nat, c': nat)
    requires ProducerOk(prod, buf, accepted, c) && c <= c' <= |accepted|
    ensures ProducerOk(prod, buf, accepted, c')
  {
    if prod.Writing? {
      StoredKeepsUp(buf, accepted + prod.bytes[..prod.count], c, c', |accepted| + prod.done);
    }
  }

  lemma ReleaseKeepsInv(r: Ring)
    requires Inv(r) && r.consumer.Reading? && |r.consumer.got| == r.consumer.count
    ensures Inv(ConsumerNext(r))
  {
    var c, got := |r.consumed|, r.consumer.got;
    assert r.accepted[..c + |got|] == r.consumed + got;
    StoredKeepsUp(r.buf, r.accepted, c, c + |got|, |r.accepted|);
    ProducerKeepsUp(r.producer, r.buf, r.accepted, c, c + |got|);
  }

  lemma ConsumerKeepsInv(r: Ring)
    requires Inv(r)
    ensures Inv(ConsumerNext(r))
  {
    if r.consumer.SawWrite? {
      SupplyIsExact(r);
    } else if r.consumer.Reading? {
      if |r.consumer.got| < r.consumer.count { FetchKeepsInv(r); } else { ReleaseKeepsInv(r); }
    }
  }

  function Step(r: Ring, a: Action): (r': Ring)
    requires Inv(r)
    ensures Inv(r')
  {
    match a
    case Write(bytes) => if r.producer.Resting? then r.(producer := Called(bytes, false)) else r
    case WriteOne(byte) => if r.producer.Resting? then r.(producer := Called([byte], true)) else r
    case Read(max) => if r.consumer.Waiting? then r.(consumer := Asked(max, false)) else r
    case ReadOne => if r.consumer.Waiting? then r.(consumer := Asked(1, true)) else r
    case ProducerStep => ProducerKeepsInv(r); ProducerNext(r)
    case ConsumerStep => ConsumerKeepsInv(r); ConsumerNext(r)
  }

  // ---------------------------------------------------------------------------
  // Every interleaving
  // ---------------------------------------------------------------------------

  /** Bytes readable from the shared words alone. */
  function Published(r: Ring): seq<Byte>
    requires |r.buf| == CAPACITY
  {
    seq(Distance(r.readIdx, r.writeIdx), k requires k >= 0 => r.buf[(r.readIdx + k) % CAPACITY])
  }

  function Distance(from: nat, to: nat): (d: nat)
    ensures d < CAPACITY
  {
    (to - from) % CAPACITY
  }

  lemma DistanceOfSlots(c: nat, p: nat)
    requires c <= p < c + CAPACITY
    ensures Distance(Slot(c), Slot(p)) == p - c
    ensures (Slot(c) + (p - c)) % CAPACITY == Slot(p)
  {
    SlotDistance(c, p);
  }

  lemma PublishedIsUnconsumed(r: Ring)
    requires Shared(r)
    ensures Published(r) == r.accepted[|r.consumed|..]
  {
    var c, p := |r.consumed|, |r.accepted|;
    DistanceOfSlots(c, p);
    forall k | 0 <= k < p - c
      ensures Published(r)[k] == r.accepted[c + k]
    {
      DistanceOfSlots(c, c + k);
    }
  }

  function Run(r: Ring, actions: seq<Action>): (r': Ring)
    requires Inv(r)
    ensures Inv(r')
    decreases |actions|
  {
    if actions == [] then r else Run(Step(r, actions[0]), actions[1..])
  }

  /** In every interleaving, bytes consumed followed by bytes published are the bytes accepted, in
      order, and the ring holds at most CAPACITY - 1 of them. */
  lemma StreamIsPreserved(r: Ring, actions: seq<Action>)
    requires Initial(r)
    ensures Inv(r)
    ensures var r' := Run(r, actions);
            |r'.buf| == CAPACITY && r'.consumed + Published(r') == r'.accepted && |Published(r')| <= CAPACITY - 1
  {
    PublishedIsUnconsumed(Run(r, actions));
  }

  /** A step never changes a byte that is published and not yet consumed: storing a byte leaves the
      published bytes as they were, and a fetched byte is the next one not fetched yet. */
  lemma BytesAreStable(r: Ring)
    requires Inv(r)
    ensures r.producer.Writing? && r.producer.done < r.producer.count ==> Published(ProducerNext(r)) == Published(r)
    ensures r.consumer.Reading? && |r.consumer.got| < r.consumer.count ==>
              && |r.consumer.got| < |Published(r)|
              && r.buf[r.consumer.cursor] == Published(r)[|r.consumer.got|]
  {
    ProducerKeepsInv(r);
    PublishedIsUnconsumed(r);
    PublishedIsUnconsumed(ProducerNext(r));
  }
}
