/** One virtqueue: a free list threaded through the descriptor table and two rings shared with the
    device (section 2.6 of VirtIO 1.1). Ring indices are 16-bit and wrap. */
module VirtQueue {
  import opened Basics

  const QUEUE_SIZE: nat := 16
  const WRAP: nat := 0x1_0000

  // ---------------------------------------------------------------------------
  // Where each descriptor is
  // ---------------------------------------------------------------------------

  /** In the free list, held by the driver between two steps, in the available or used ring, or with
      the device. Positions make the place of each list entry unique. */
  datatype Place = Free(pos: nat) | Held | Queued(used: bool, pos: nat) | Taken

  type Places = p: seq<Place> | |p| == QUEUE_SIZE witness seq(QUEUE_SIZE, _ => Held)

  /** The list holds exactly the free descriptors. */
  ghost predicate InFree(place: Places, free: seq<int>) {
    && (forall k | 0 <= k < |free| :: 0 <= free[k] < QUEUE_SIZE && place[free[k]] == Free(k))
    && forall d | 0 <= d < QUEUE_SIZE :: place[d].Free? ==> place[d].pos < |free| && free[place[d].pos] == d
  }

  /** The log from `first` on holds exactly the descriptors queued in that ring. */
  ghost predicate InLog(place: Places, log: seq<int>, first: nat, used: bool) {
    && first <= |log|
    && (forall k | first <= k < |log| :: 0 <= log[k] < QUEUE_SIZE && place[log[k]] == Queued(used, k))
    && forall d | 0 <= d < QUEUE_SIZE ::
         place[d].Queued? && place[d].used == used ==> first <= place[d].pos < |log| && log[place[d].pos] == d
  }

  /** The set holds exactly the descriptors at that place. */
  ghost predicate At(place: Places, s: set<int>, p: Place) {
    && (forall d | d in s :: 0 <= d < QUEUE_SIZE)
    && forall d | 0 <= d < QUEUE_SIZE :: d in s <==> place[d] == p
  }

  lemma FreeKeeps(place: Places, free: seq<int>, d: int, q: Place)
    requires InFree(place, free) && 0 <= d < QUEUE_SIZE && !place[d].Free? && !q.Free?
    ensures InFree(place[d := q], free)
  {
  }

  lemma FreeShrinks(place: Places, free: seq<int>, q: Place)
    requires InFree(place, free) && free != [] && !q.Free?
    ensures InFree(place[free[|free| - 1] := q], free[..|free| - 1])
  {
  }

  lemma FreeGrows(place: Places, free: seq<int>, d: int)
    requires InFree(place, free) && 0 <= d < QUEUE_SIZE && !place[d].Free?
    ensures InFree(place[d := Free(|free|)], free + [d])
  {
  }

  lemma AtKeeps(place: Places, s: set<int>, p: Place, d: int, q: Place)
    requires At(place, s, p) && 0 <= d < QUEUE_SIZE && place[d] != p && q != p
    ensures At(place[d := q], s, p)
  {
  }

  lemma AtGains(place: Places, s: set<int>, p: Place, d: int)
    requires At(place, s, p) && 0 <= d < QUEUE_SIZE && place[d] != p
    ensures At(place[d := p], s + {d}, p) && d !in s && |s + {d}| == |s| + 1
  {
  }

  lemma AtLoses(place: Places, s: set<int>, p: Place, d: int, q: Place)
    requires At(place, s, p) && d in s && q != p
    ensures 0 <= d < QUEUE_SIZE && place[d] == p && At(place[d := q], s - {d}, p) && |s - {d}| == |s| - 1
  {
  }

  lemma LogKeeps(place: Places, log: seq<int>, first: nat, used: bool, d: int, q: Place)
    requires InLog(place, log, first, used) && 0 <= d < QUEUE_SIZE
    requires !(place[d].Queued? && place[d].used == used) && !(q.Queued? && q.used == used)
    ensures InLog(place[d := q], log, first, used)
  {
  }

  lemma LogGrows(place: Places, log: seq<int>, first: nat, used: bool, d: int)
    requires InLog(place, log, first, used) && 0 <= d < QUEUE_SIZE && !place[d].Queued?
    ensures InLog(place[d := Queued(used, |log|)], log + [d], first, used)
  {
  }

  lemma LogShrinks(place: Places, log: seq<int>, first: nat, used: bool, q: Place)
    requires InLog(place, log, first, used) && first < |log| && !q.Queued?
    ensures InLog(place[log[first] := q], log, first + 1, used)
  {
  }

  /** Who has which descriptor, and everything ever published and returned. */
  datatype Ledger = Ledger(place: Places, free: seq<int>, sent: seq<int>, seen: nat, done: seq<int>, popped: nat,
                           held: set<int>, taken: set<int>)
  {
    /** Each descriptor is in exactly one place. What the device took is with it or returned, and what was
        published and not popped is, with the free and held descriptors, all sixteen. */
    ghost predicate Ok() {
      && InFree(place, free) && InLog(place, sent, seen, false) && InLog(place, done, popped, true)
      && At(place, held, Held) && At(place, taken, Taken)
      && |taken| + |done| == seen && |free| + |held| + |sent| - popped == QUEUE_SIZE
    }

    ghost function Allocated(): Ledger
      requires free != [] && 0 <= free[|free| - 1] < QUEUE_SIZE
    {
      var d := free[|free| - 1];
      this.(place := place[d := Held], free := free[..|free| - 1], held := held + {d})
    }

    lemma AllocatedIsOk()
      requires Ok() && free != []
      ensures Allocated().Ok() && free[|free| - 1] !in held
    {
      var d := free[|free| - 1];
      FreeShrinks(place, free, Held);
      LogKeeps(place, sent, seen, false, d, Held);
      LogKeeps(place, done, popped, true, d, Held);
      AtGains(place, held, Held, d);
      AtKeeps(place, taken, Taken, d, Held);
    }

    ghost function Freed(d: int): Ledger
      requires 0 <= d < QUEUE_SIZE
    {
      this.(place := place[d := Free(|free|)], free := free + [d], held := held - {d})
    }

    lemma FreedIsOk(d: int)
      requires Ok() && d in held
      ensures Freed(d).Ok()
    {
      AtLoses(place, held, Held, d, Free(|free|));
      FreeGrows(place, free, d);
      LogKeeps(place, sent, seen, false, d, Free(|free|));
      LogKeeps(place, done, popped, true, d, Free(|free|));
      AtKeeps(place, taken, Taken, d, Free(|free|));
    }

    ghost function Published(d: int): Ledger
      requires 0 <= d < QUEUE_SIZE
    {
      this.(place := place[d := Queued(false, |sent|)], sent := sent + [d], held := held - {d})
    }

    lemma PublishedIsOk(d: int)
      requires Ok() && d in held
      ensures Published(d).Ok() && |sent| - seen < QUEUE_SIZE
    {
      AtLoses(place, held, Held, d, Queued(false, |sent|));
      AtKeeps(place, taken, Taken, d, Queued(false, |sent|));
      FreeKeeps(place, free, d, Queued(false, |sent|));
      LogGrows(place, sent, seen, false, d);
      LogKeeps(place, done, popped, true, d, Queued(false, |sent|));
    }

    ghost function Popped(): Ledger
      requires popped < |done| && 0 <= done[popped] < QUEUE_SIZE
    {
      var d := done[popped];
      this.(place := place[d := Held], popped := popped + 1, held := held + {d})
    }

    lemma PoppedIsOk()
      requires Ok() && popped < |done|
      ensures Popped().Ok() && done[popped] !in held
    {
      AtGains(place, held, Held, done[popped]);
      AtKeeps(place, taken, Taken, done[popped], Held);
      FreeKeeps(place, free, done[popped], Held);
      LogKeeps(place, sent, seen, false, done[popped], Held);
      LogShrinks(place, done, popped, true, Held);
    }

    ghost function Seen(): Ledger
      requires seen < |sent| && 0 <= sent[seen] < QUEUE_SIZE
    {
      var d := sent[seen];
      this.(place := place[d := Taken], seen := seen + 1, taken := taken + {d})
    }

    lemma SeenIsOk()
      requires Ok() && seen < |sent|
      ensures Seen().Ok() && sent[seen] !in taken
    {
      AtGains(place, taken, Taken, sent[seen]);
      AtKeeps(place, held, Held, sent[seen], Taken);
      FreeKeeps(place, free, sent[seen], Taken);
      LogShrinks(place, sent, seen, false, Taken);
      LogKeeps(place, done, popped, true, sent[seen], Taken);
    }

    ghost function Returned(d: int): Ledger
      requires 0 <= d < QUEUE_SIZE
    {
      this.(place := place[d := Queued(true, |done|)], done := done + [d], taken := taken - {d})
    }

    lemma ReturnedIsOk(d: int)
      requires Ok() && d in taken
      ensures Returned(d).Ok() && |done| - popped < QUEUE_SIZE
    {
      AtLoses(place, taken, Taken, d, Queued(true, |done|));
      AtKeeps(place, held, Held, d, Queued(true, |done|));
      FreeKeeps(place, free, d, Queued(true, |done|));
      LogKeeps(place, sent, seen, false, d, Queued(true, |done|));
      LogGrows(place, done, popped, true, d);
    }
  }

  /** All descriptors free, the first one at the head. */
  ghost const INITIAL: Ledger := Ledger(
    seq(QUEUE_SIZE, i requires 0 <= i < QUEUE_SIZE => Free(QUEUE_SIZE - 1 - i)),
    seq(QUEUE_SIZE, i => QUEUE_SIZE - 1 - i), [], 0, [], 0, {}, {})

  lemma InitialIsOk()
    ensures INITIAL.Ok()
  {
  }

  // ---------------------------------------------------------------------------
  // Wrapping rings
  // ---------------------------------------------------------------------------

  /** `wrapping_add(1)` on 16 bits. */
  function Increment(idx: nat): nat { if idx == WRAP - 1 then 0 else idx + 1 }

  /** A 16-bit index after `n` increments. */
  ghost function Wrapped(n: nat): nat { if n == 0 then 0 else Increment(Wrapped(n - 1)) }

  lemma {:induction false} WrappedIsRemainder(n: nat)
    ensures Wrapped(n) == n % WRAP
  {
    if n > 0 {
      WrappedIsRemainder(n - 1);
      NextRemainder(n - 1);
    }
  }

  lemma NextRemainder(n: nat)
    ensures (n + 1) % WRAP == Increment(n % WRAP)
  {
  }

  lemma WrappedSlot(n: nat)
    ensures Wrapped(n) % QUEUE_SIZE == n % QUEUE_SIZE
  {
    WrappedIsRemainder(n);
    SlotsRepeat(Wrapped(n), 4096 * (n / WRAP));
  }

  lemma {:induction false} SlotsRepeat(r: nat, q: nat)
    ensures (r + 16 * q) % QUEUE_SIZE == r % QUEUE_SIZE
    decreases q
  {
    if q > 0 { SlotsRepeat(r + 16, q - 1); }
  }

  lemma WrappedEqual(m: nat, n: nat)
    requires m <= n < m + WRAP
    ensures Wrapped(m) == Wrapped(n) <==> m == n
  {
    WrappedIsRemainder(m);
    WrappedIsRemainder(n);
  }

  lemma SlotsDiffer(k: nat, n: nat)
    requires k < n < k + QUEUE_SIZE
    ensures k % QUEUE_SIZE != n % QUEUE_SIZE
  {
  }

  /** The ring holds the log's entries from `first` on, and the wrapped index is the log's end. */
  ghost predicate RingShows(ring: seq<int>, idx: nat, log: seq<int>, first: nat) {
    && |ring| == QUEUE_SIZE && idx == Wrapped(|log|) && first <= |log|
    && forall k | first <= k < |log| :: ring[k % QUEUE_SIZE] == log[k]
  }

  /** Writing at the wrapped index never hits an entry still to be read. */
  lemma RingGrows(ring: seq<int>, idx: nat, log: seq<int>, first: nat, d: int)
    requires RingShows(ring, idx, log, first) && |log| - first < QUEUE_SIZE
    ensures RingShows(ring[idx % QUEUE_SIZE := d], Increment(idx), log + [d], first)
  {
    WrappedSlot(|log|);
    forall k | first <= k < |log| ensures ring[idx % QUEUE_SIZE := d][k % QUEUE_SIZE] == log[k] {
      SlotsDiffer(k, |log|);
    }
  }

  /** Reading at the reader's wrapped index gives the oldest unread entry, and the indices agree exactly
      when there is none. */
  lemma RingReads(ring: seq<int>, idx: nat, log: seq<int>, first: nat)
    requires RingShows(ring, idx, log, first) && |log| - first <= QUEUE_SIZE
    ensures idx == Wrapped(first) <==> first == |log|
    ensures first < |log| ==> ring[Wrapped(first) % QUEUE_SIZE] == log[first] && RingShows(ring, idx, log, first + 1)
  {
    WrappedSlot(first);
    WrappedEqual(first, |log|);
  }

  // ---------------------------------------------------------------------------
  // The queue
  // ---------------------------------------------------------------------------

  /** Following `next` from the head visits the free descriptors from the last freed on. */
  ghost predicate FreeChain(next: seq<int>, head: int, count: nat, free: seq<int>) {
    && |next| == QUEUE_SIZE && count == |free|
    && (free != [] ==> head == free[|free| - 1])
    && forall k | 0 < k < |free| :: 0 <= free[k] < QUEUE_SIZE && next[free[k]] == free[k - 1]
  }

  lemma ChainAvoidsHeld(next: seq<int>, head: int, count: nat, l: Ledger, d: int, x: int)
    requires l.Ok() && d in l.held && FreeChain(next, head, count, l.free)
    ensures FreeChain(next[d := x], head, count, l.free)
  {
  }

  lemma ChainGrows(next: seq<int>, head: int, count: nat, l: Ledger, d: int)
    requires l.Ok() && d in l.held && FreeChain(next, head, count, l.free)
    ensures FreeChain(next[d := head], d, count + 1, l.free + [d])
  {
    ChainAvoidsHeld(next, head, count, l, d, head);
  }

  lemma ChainShrinks(next: seq<int>, head: int, count: nat, l: Ledger)
    requires l.Ok() && count > 0 && FreeChain(next, head, count, l.free)
    ensures 0 <= head < QUEUE_SIZE && FreeChain(next, next[head], count - 1, l.free[..|l.free| - 1])
  {
  }

  /** What allocating does to the free chain and to everything else. */
  lemma Allocates(next: seq<int>, head: int, count: nat, l: Ledger)
    requires l.Ok() && count > 0 && FreeChain(next, head, count, l.free)
    ensures l.free != [] && 0 <= head < QUEUE_SIZE && head == l.free[|l.free| - 1]
    ensures var l' := l.Allocated();
            && l'.Ok() && FreeChain(next, next[head], count - 1, l'.free)
            && l'.sent == l.sent && l'.seen == l.seen && l'.done == l.done && l'.popped == l.popped
            && l'.taken == l.taken
  {
    l.AllocatedIsOk();
    ChainShrinks(next, head, count, l);
  }

  /** What the device taking the oldest published descriptor does to the available ring and everything else. */
  lemma Takes(ring: seq<int>, idx: nat, l: Ledger)
    requires l.Ok() && RingShows(ring, idx, l.sent, l.seen)
    ensures idx == Wrapped(l.seen) <==> l.seen == |l.sent|
    ensures l.seen < |l.sent| ==>
              var d, l' := l.sent[l.seen], l.Seen();
              && ring[Wrapped(l.seen) % QUEUE_SIZE] == d && l'.Ok() && RingShows(ring, idx, l'.sent, l'.seen)
              && Wrapped(l'.seen) == Increment(Wrapped(l.seen)) && l'.taken == l.taken + {d}
              && l'.free == l.free && l'.done == l.done && l'.popped == l.popped
  {
    RingReads(ring, idx, l.sent, l.seen);
    if l.seen < |l.sent| { l.SeenIsOk(); }
  }

  /** What popping the oldest returned descriptor does to the used ring and everything else. */
  lemma Pops(ring: seq<int>, idx: nat, l: Ledger)
    requires l.Ok() && RingShows(ring, idx, l.done, l.popped)
    ensures idx == Wrapped(l.popped) <==> l.popped == |l.done|
    ensures l.popped < |l.done| ==>
              var d, l' := l.done[l.popped], l.Popped();
              && ring[Wrapped(l.popped) % QUEUE_SIZE] == d && l'.Ok() && RingShows(ring, idx, l'.done, l'.popped)
              && Wrapped(l'.popped) == Increment(Wrapped(l.popped)) && l'.taken == l.taken
              && l'.free == l.free && l'.sent == l.sent && l'.seen == l.seen
  {
    RingReads(ring, idx, l.done, l.popped);
    if l.popped < |l.done| { l.PoppedIsOk(); }
  }

  lemma InitialChain()
    ensures FreeChain(seq(QUEUE_SIZE, i => i + 1), 0, QUEUE_SIZE, INITIAL.free)
  {
  }

  class Queue {
    // Shared with the device.
    var next: seq<int>
    var len: seq<int>
    var availIdx: nat
    var availRing: seq<int>
    var usedIdx: nat
    var usedRing: seq<int>
    // The driver's.
    var freeHead: int
    var numFree: nat
    var lastUsedIdx: nat
    // The device's.
    var lastAvailIdx: nat
    var deviceHas: set<int>

    ghost var ledger: Ledger

    ghost predicate Valid()
      reads this
    {
      && |len| == QUEUE_SIZE && ledger.Ok() && FreeChain(next, freeHead, numFree, ledger.free)
      && RingShows(availRing, availIdx, ledger.sent, ledger.seen) && lastAvailIdx == Wrapped(ledger.seen)
      && deviceHas == ledger.taken
      && RingShows(usedRing, usedIdx, ledger.done, ledger.popped) && lastUsedIdx == Wrapped(ledger.popped)
    }

    constructor ()
      ensures Valid() && numFree == QUEUE_SIZE && ledger.held == {} && ledger.taken == {} && ledger.sent == []
              && ledger.done == []
    {
      next, len := seq(QUEUE_SIZE, i => i + 1), seq(QUEUE_SIZE, _ => 0);
      availIdx, availRing, usedIdx, usedRing := 0, seq(QUEUE_SIZE, _ => 0), 0, seq(QUEUE_SIZE, _ => 0);
      freeHead, numFree, lastUsedIdx, lastAvailIdx, deviceHas := 0, QUEUE_SIZE, 0, 0, {};
      InitialIsOk();
      InitialChain();
      ledger := INITIAL;
    }

    method AllocDesc() returns (r: Option<int>)
      requires Valid()
      modifies this`freeHead, this`numFree, this`ledger
      ensures Valid() && r.Some? == (old(numFree) > 0)
      ensures r.None? ==> ledger == old(ledger) && numFree == old(numFree)
      ensures r.Some? ==> && old(ledger.free) != [] && 0 <= r.value == old(ledger.free[|ledger.free| - 1]) < QUEUE_SIZE
                          && ledger == old(ledger).Allocated() && numFree == old(numFree) - 1
    {
      if numFree == 0 { return None; }
      Allocates(next, freeHead, numFree, ledger);
      var idx := freeHead;
      freeHead := next[idx];
      numFree := numFree - 1;
      ledger := ledger.Allocated();
      return Some(idx);
    }

    method FreeDesc(idx: int)
      requires Valid() && idx in ledger.held
      modifies this`next, this`freeHead, this`numFree, this`ledger
      ensures Valid() && 0 <= idx < QUEUE_SIZE && ledger == old(ledger).Freed(idx) && numFree == old(numFree) + 1
    {
      ledger.FreedIsOk(idx);
      ChainGrows(next, freeHead, numFree, ledger, idx);
      next := next[idx := freeHead];
      freeHead := idx;
      numFree := numFree + 1;
      ledger := ledger.Freed(idx);
    }

    /** Fills in a descriptor the driver holds; the free list does not pass through it. */
    method SetupDesc(idx: int, bytes: nat)
      requires Valid() && idx in ledger.held
      modifies this`next, this`len
      ensures Valid() && 0 <= idx < QUEUE_SIZE && len == old(len)[idx := bytes] && next == old(next)[idx := 0]
    {
      ChainAvoidsHeld(next, freeHead, numFree, ledger, idx, 0);
      len := len[idx := bytes];
      next := next[idx := 0];
    }

    method PushAvail(idx: int)
      requires Valid() && idx in ledger.held
      modifies this`availRing, this`availIdx, this`ledger
      ensures Valid() && 0 <= idx < QUEUE_SIZE && ledger == old(ledger).Published(idx)
    {
      ledger.PublishedIsOk(idx);
      RingGrows(availRing, availIdx, ledger.sent, ledger.seen, idx);
      availRing := availRing[availIdx % QUEUE_SIZE := idx];
      availIdx := Increment(availIdx);
      ledger := ledger.Published(idx);
    }

    /** Pops the oldest returned descriptor; None exactly when there is none, at every wrap of the indices. */
    method PopUsed() returns (r: Option<int>)
      requires Valid()
      modifies this`lastUsedIdx, this`ledger
      ensures Valid() && r.Some? == (old(ledger.popped) < |old(ledger.done)|)
      ensures r.None? ==> ledger == old(ledger)
      ensures r.Some? ==> 0 <= r.value == old(ledger.done[ledger.popped]) < QUEUE_SIZE && ledger == old(ledger).Popped()
    {
      Pops(usedRing, usedIdx, ledger);
      if lastUsedIdx == usedIdx { return None; }
      var id := usedRing[lastUsedIdx % QUEUE_SIZE];
      lastUsedIdx := Increment(lastUsedIdx);
      ledger := ledger.Popped();
      return Some(id);
    }

    /** The device takes the oldest published descriptor. */
    method DeviceTake() returns (r: Option<int>)
      requires Valid()
      modifies this`lastAvailIdx, this`deviceHas, this`ledger
      ensures Valid() && r.Some? == (old(ledger.seen) < |old(ledger.sent)|)
      ensures r.None? ==> ledger == old(ledger)
      ensures r.Some? ==> 0 <= r.value == old(ledger.sent[ledger.seen]) < QUEUE_SIZE && ledger == old(ledger).Seen()
    {
      Takes(availRing, availIdx, ledger);
      if lastAvailIdx == availIdx { return None; }
      var id := availRing[lastAvailIdx % QUEUE_SIZE];
      lastAvailIdx := Increment(lastAvailIdx);
      deviceHas := deviceHas + {id};
      ledger := ledger.Seen();
      return Some(id);
    }

    /** The device returns a descriptor it has, in any order and once. */
    method DeviceReturn(id: int)
      requires Valid() && id in deviceHas
      modifies this`usedRing, this`usedIdx, this`deviceHas, this`ledger
      ensures Valid() && 0 <= id < QUEUE_SIZE && ledger == old(ledger).Returned(id)
    {
      ledger.ReturnedIsOk(id);
      RingGrows(usedRing, usedIdx, ledger.done, ledger.popped, id);
      usedRing := usedRing[usedIdx % QUEUE_SIZE := id];
      usedIdx := Increment(usedIdx);
      deviceHas := deviceHas - {id};
      ledger := ledger.Returned(id);
    }
  }
}
