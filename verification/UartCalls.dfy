/** The ring's four calls as each thread runs them, access by access, while the other thread goes on. */
module UartCalls {
  import opened Basics
  import opened UartRing

  /** What the other thread does before each access of a call. */
  type Schedule = seq<seq<Action>>

  predicate OfConsumer(a: Action) { a.Read? || a.ReadOne? || a.ConsumerStep? }

  lemma ConsumerOnly(r: Ring, a: Action)
    requires Inv(r) && OfConsumer(a)
    ensures var r' := Step(r, a);
            && r' == r.(readIdx := r'.readIdx, consumed := r'.consumed, consumer := r'.consumer)
            && r.consumed <= r'.consumed
  {
  }

  lemma ProducerOnly(r: Ring, a: Action)
    requires Inv(r) && !OfConsumer(a)
    ensures var r' := Step(r, a);
            && r' == r.(buf := r'.buf, writeIdx := r'.writeIdx, accepted := r'.accepted, producer := r'.producer)
            && r.accepted <= r'.accepted
  {
  }

  class SharedUart {
    /** The shared words, where each thread stands, and the history. */
    var ring: Ring

    ghost predicate Valid()
      reads this
    {
      Inv(ring)
    }

    /** Bytes in the ring. */
    ghost function Pending(): int
      reads this
    {
      |ring.accepted| - |ring.consumed|
    }

    /** Shared memory starts zeroed. */
    constructor ()
      ensures Valid() && Initial(ring)
    {
      ring := Ring(seq(CAPACITY, _ => 0), 0, 0, Resting, Waiting, [], []);
    }

    method ConsumerRuns(actions: seq<Action>)
      requires Valid()
      modifies this
      ensures Valid() && old(ring.consumed) <= ring.consumed
      ensures ring == old(ring).(readIdx := ring.readIdx, consumed := ring.consumed, consumer := ring.consumer)
    {
      for k := 0 to |actions|
        invariant Valid() && old(ring.consumed) <= ring.consumed
        invariant ring == old(ring).(readIdx := ring.readIdx, consumed := ring.consumed, consumer := ring.consumer)
      {
        if OfConsumer(actions[k]) {
          ConsumerOnly(ring, actions[k]);
          ring := Step(ring, actions[k]);
        }
      }
    }

    method ProducerRuns(actions: seq<Action>)
      requires Valid()
      modifies this
      ensures Valid() && old(ring.accepted) <= ring.accepted
      ensures ring == old(ring).(buf := ring.buf, writeIdx := ring.writeIdx, accepted := ring.accepted,
                                 producer := ring.producer)
    {
      for k := 0 to |actions|
        invariant Valid() && old(ring.accepted) <= ring.accepted
        invariant ring == old(ring).(buf := ring.buf, writeIdx := ring.writeIdx, accepted := ring.accepted,
                                     producer := ring.producer)
      {
        if !OfConsumer(actions[k]) {
          ProducerOnly(ring, actions[k]);
          ring := Step(ring, actions[k]);
        }
      }
    }

    /** The two loads every write starts with. */
    method LoadForWrite(bytes: seq<Byte>, single: bool, others: Schedule) returns (w: nat, r: nat)
      requires Valid() && ring.producer.Resting? && bytes != [] && (single ==> |bytes| == 1)
      modifies this
      ensures Valid() && ring == old(ring).(readIdx := r, consumed := ring.consumed, consumer := ring.consumer,
                                            producer := LoadedWrite(bytes, single, w))
      ensures old(ring.consumed) <= ring.consumed && w == ring.writeIdx
    {
      ConsumerRuns(Turn(others, 0));
      w := ring.writeIdx;
      ring := ring.(producer := LoadedWrite(bytes, single, w));
      ConsumerRuns(Turn(others, 1));
      r := ring.readIdx;
    }

    /** The copying loop and the index store: every turn is a producer step. */
    method StoreAndPublish(bytes: seq<Byte>, n: nat, others: Schedule)
      requires Valid() && ring.producer == Writing(bytes, n, 0, ring.writeIdx)
      modifies this
      ensures Valid() && ring.producer.Resting? && ring.accepted == old(ring.accepted) + bytes[..n]
              && old(ring.consumed) <= ring.consumed
    {
      var cursor: nat := ring.writeIdx;
      for k := 0 to n
        invariant Valid() && ring.producer == Writing(bytes, n, k, cursor)
        invariant ring.accepted == old(ring.accepted) && old(ring.consumed) <= ring.consumed
      {
        ConsumerRuns(Turn(others, 2 + k));
        Stores(ring, bytes, n, k, cursor);
        var next := (cursor + 1) % CAPACITY;
        ring := ring.(buf := ring.buf[cursor := bytes[k]], producer := Writing(bytes, n, k + 1, next));
        cursor := next;
      }
      ConsumerRuns(Turn(others, 2 + n));
      Publishes(ring, bytes, n, cursor);
      ring := ring.(writeIdx := cursor, producer := Resting, accepted := ring.accepted + bytes[..n]);
    }

    /** `write_byte`: true whenever there was room at the start; false only if the ring was full when it looked. */
    method WriteByte(byte: Byte, others: Schedule) returns (ok: bool)
      requires Valid() && ring.producer.Resting?
      modifies this
      ensures Valid() && ring.producer.Resting? && old(ring.consumed) <= ring.consumed
      ensures ring.accepted == old(ring.accepted) + if ok then [byte] else []
      ensures old(Pending()) < CAPACITY - 1 ==> ok
      ensures !ok ==> Pending() == CAPACITY - 1
    {
      var w, r := LoadForWrite([byte], true, others);
      Room(ring);
      Begins(ring, [byte], true, 1);
      if (w + 1) % CAPACITY == r {
        ring := ring.(producer := Resting);
        return false;
      }
      ring := ring.(producer := Writing([byte], 1, 0, w));
      StoreAndPublish([byte], 1, others);
      assert [byte][..1] == [byte];
      return true;
    }

    /** `write_bytes`: a prefix of the bytes, at least as long as the room at the start; the length is cut to
        32 bits. */
    method WriteBytes(bytes: seq<Byte>, others: Schedule) returns (n: nat)
      requires Valid() && ring.producer.Resting?
      modifies this
      ensures Valid() && ring.producer.Resting? && old(ring.consumed) <= ring.consumed
      ensures n <= |bytes| && ring.accepted == old(ring.accepted) + bytes[..n]
      ensures Min(|bytes| % TWO32, CAPACITY - 1 - old(Pending())) <= n <= Min(|bytes| % TWO32, CAPACITY - 1)
    {
      if bytes == [] { return 0; }
      var w, r := LoadForWrite(bytes, false, others);
      Room(ring);
      var available := if w >= r then CAPACITY - (w - r) - 1 else r - w - 1;
      n := Min(|bytes| % 0x1_0000_0000, available);
      Begins(ring, bytes, false, n);
      if n == 0 {
        ring := ring.(producer := Resting);
        return;
      }
      ring := ring.(producer := Writing(bytes, n, 0, w));
      StoreAndPublish(bytes, n, others);
    }

    /** The two loads every read starts with. */
    method LoadForRead(max: nat, single: bool, others: Schedule) returns (w: nat, r: nat)
      requires Valid() && ring.consumer.Waiting?
      modifies this
      ensures Valid() && ring.consumer.SawWrite? && ring.consumer.max == max && ring.consumer.single == single
              && ring.consumer.w == w
      ensures ring.consumed == old(ring.consumed) && r == ring.readIdx && old(ring.accepted) <= ring.accepted
      ensures |old(ring.accepted)| <= ring.consumer.seen <= |ring.accepted|
    {
      ProducerRuns(Turn(others, 0));
      w := ring.writeIdx;
      ring := ring.(consumer := SawWrite(max, single, w, |ring.accepted|));
      ProducerRuns(Turn(others, 1));
      r := ring.readIdx;
    }

    /** The copying loop and the index store: every turn is a consumer step. */
    method FetchAndRelease(n: nat, others: Schedule) returns (got: seq<Byte>)
      requires Valid() && ring.consumer == Reading(n, [], ring.readIdx)
      modifies this
      ensures Valid() && ring.consumer.Waiting? && |got| == n && old(ring.accepted) <= ring.accepted
      ensures ring.consumed == old(ring.consumed) + got
    {
      got := [];
      var cursor: nat := ring.readIdx;
      for k := 0 to n
        invariant Valid() && |got| == k && ring.consumer == Reading(n, got, cursor)
        invariant ring.consumed == old(ring.consumed) && old(ring.accepted) <= ring.accepted
      {
        ProducerRuns(Turn(others, 2 + k));
        Fetches(ring, n, got, cursor);
        got := got + [ring.buf[cursor]];
        cursor := (cursor + 1) % CAPACITY;
        ring := ring.(consumer := Reading(n, got, cursor));
      }
      ProducerRuns(Turn(others, 2 + n));
      Releases(ring, n, got, cursor);
      ring := ring.(readIdx := cursor, consumer := Waiting, consumed := ring.consumed + got);
    }

    /** `read_byte`: the oldest byte; None only if the ring was empty when it looked. */
    method ReadByte(others: Schedule) returns (r: Option<Byte>)
      requires Valid() && ring.consumer.Waiting?
      modifies this
      ensures Valid() && ring.consumer.Waiting? && old(ring.accepted) <= ring.accepted
      ensures ring.consumed == old(ring.consumed) + if r.Some? then [r.value] else []
      ensures old(Pending()) > 0 ==> r.Some?
    {
      var w, rd := LoadForRead(1, true, others);
      Supply(ring);
      BeginsRead(ring, 1);
      if w == rd {
        ring := ring.(consumer := Waiting);
        return None;
      }
      ring := ring.(consumer := Reading(1, [], rd));
      var got := FetchAndRelease(1, others);
      assert got == [got[0]];
      return Some(got[0]);
    }

    /** `read_bytes`: the oldest bytes, at least as many of those asked for as were there at the start. */
    method ReadBytes(max: nat, others: Schedule) returns (bytes: seq<Byte>)
      requires Valid() && ring.consumer.Waiting?
      modifies this
      ensures Valid() && ring.consumer.Waiting? && old(ring.accepted) <= ring.accepted
      ensures ring.consumed == old(ring.consumed) + bytes && Min(max, old(Pending())) <= |bytes| <= max
    {
      var w, r := LoadForRead(max, false, others);
      Supply(ring);
      if w == r {
        BeginsRead(ring, 0);
        ring := ring.(consumer := Waiting);
        return [];
      }
      var available := if w >= r then w - r else CAPACITY - r + w;
      var n := Min(available, max);
      BeginsRead(ring, n);
      ring := ring.(consumer := Reading(n, [], r));
      bytes := FetchAndRelease(n, others);
    }
  }

  /** Both ways of finding the room from the two indices are exact. */
  lemma Room(r: Ring)
    requires Inv(r)
    ensures (r.writeIdx + 1) % CAPACITY == r.readIdx <==> |r.accepted| - |r.consumed| == CAPACITY - 1
    ensures (if r.writeIdx >= r.readIdx then CAPACITY - (r.writeIdx - r.readIdx) - 1 else r.readIdx - r.writeIdx - 1)
         == CAPACITY - 1 - (|r.accepted| - |r.consumed|)
  {
    SlotDistance(|r.consumed|, |r.accepted|);
  }

  /** The consumer's count is that of the bytes published when it loaded the write index. */
  lemma Supply(r: Ring)
    requires Inv(r) && r.consumer.SawWrite?
    ensures r.consumer.w == r.readIdx <==> r.consumer.seen == |r.consumed|
    ensures r.consumer.w != r.readIdx ==>
              (if r.consumer.w >= r.readIdx then r.consumer.w - r.readIdx else CAPACITY - r.readIdx + r.consumer.w)
              == r.consumer.seen - |r.consumed|
  {
    SlotDistance(|r.consumed|, r.consumer.seen);
  }

  // ---------------------------------------------------------------------------
  // The steps of a call keep the invariant
  // ---------------------------------------------------------------------------

  /** A write of at most as many bytes as there is room for may begin, or be given up. */
  lemma Begins(r: Ring, bytes: seq<Byte>, single: bool, n: nat)
    requires Inv(r) && r.producer == LoadedWrite(bytes, single, r.writeIdx) && n <= |bytes|
    ensures Inv(r.(producer := Resting))
    ensures |r.accepted| + n < |r.consumed| + CAPACITY ==> Inv(r.(producer := Writing(bytes, n, 0, r.writeIdx)))
  {
    if |r.accepted| + n < |r.consumed| + CAPACITY {
      StoredAhead(r.buf, r.accepted, bytes[..n], |r.consumed|);
    }
  }

  /** A read of at most as many bytes as were seen may begin, or be given up. */
  lemma BeginsRead(r: Ring, n: nat)
    requires Inv(r)
    ensures Inv(r.(consumer := Waiting))
    ensures |r.consumed| + n <= |r.accepted| ==> Inv(r.(consumer := Reading(n, [], r.readIdx)))
  {
    assert |r.consumed| <= |r.accepted| ==> r.accepted[|r.consumed|..|r.consumed| + 0] == [];
  }

  lemma StoredAhead(buf: seq<Byte>, accepted: seq<Byte>, more: seq<Byte>, c: nat)
    requires Stored(buf, accepted, c, |accepted|)
    ensures Stored(buf, accepted + more, c, |accepted|)
  {
  }

  lemma Stores(r: Ring, bytes: seq<Byte>, n: nat, k: nat, cursor: nat)
    requires Inv(r) && r.producer == Writing(bytes, n, k, cursor) && k < n
    ensures cursor < CAPACITY
    ensures Inv(r.(buf := r.buf[cursor := bytes[k]], producer := Writing(bytes, n, k + 1, (cursor + 1) % CAPACITY)))
  {
    StoreKeepsInv(r);
  }

  lemma Publishes(r: Ring, bytes: seq<Byte>, n: nat, cursor: nat)
    requires Inv(r) && r.producer == Writing(bytes, n, n, cursor)
    ensures Inv(r.(writeIdx := cursor, producer := Resting, accepted := r.accepted + bytes[..n]))
  {
    PublishKeepsInv(r);
  }

  lemma Fetches(r: Ring, n: nat, got: seq<Byte>, cursor: nat)
    requires Inv(r) && r.consumer == Reading(n, got, cursor) && |got| < n
    ensures cursor < CAPACITY
    ensures Inv(r.(consumer := Reading(n, got + [r.buf[cursor]], (cursor + 1) % CAPACITY)))
  {
    FetchKeepsInv(r);
  }

  lemma Releases(r: Ring, n: nat, got: seq<Byte>, cursor: nat)
    requires Inv(r) && r.consumer == Reading(n, got, cursor) && |got| == n
    ensures Inv(r.(readIdx := cursor, consumer := Waiting, consumed := r.consumed + got))
  {
    ReleaseKeepsInv(r);
  }
}
