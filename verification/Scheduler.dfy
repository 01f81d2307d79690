/** Per-hart run queues with work stealing. A run is any sequence of critical sections of the source's locks, by
    any harts; a call made of several runs with those of other harts in between. */
module Scheduler {
  import opened Basics

  /** A task object, by its spawn number, with its priority from 0 (idle) to 4 (realtime). */
  datatype Task = Task(number: nat, priority: nat)

  // ---------------------------------------------------------------------------
  // One queue
  // ---------------------------------------------------------------------------

  /** Higher priorities first; equal ones in the order in which they were enqueued. */
  ghost predicate Ordered(q: seq<Task>, arrival: seq<nat>) {
    |q| == |arrival| && forall i, j | 0 <= i < j < |q| :: Precedes(q[i], arrival[i], q[j], arrival[j])
  }

  predicate Precedes(t: Task, arrival: nat, u: Task, arrival': nat) {
    t.priority > u.priority || (t.priority == u.priority && arrival < arrival')
  }

  function Insert<T>(s: seq<T>, i: nat, x: T): seq<T>
    requires i <= |s|
  {
    s[..i] + [x] + s[i..]
  }

  function Remove<T>(s: seq<T>, i: nat): seq<T>
    requires i < |s|
  {
    s[..i] + s[i + 1..]
  }

  lemma InsertKeepsOrder(q: seq<Task>, arrival: seq<nat>, i: nat, t: Task, now: nat)
    requires Ordered(q, arrival) && i <= |q| && forall k | 0 <= k < |q| :: arrival[k] < now
    requires forall k | 0 <= k < i :: q[k].priority >= t.priority
    requires i < |q| ==> q[i].priority < t.priority
    ensures Ordered(Insert(q, i, t), Insert(arrival, i, now))
  {
    var (q', a') := (Insert(q, i, t), Insert(arrival, i, now));
    forall m, n | 0 <= m < n < |q'| ensures Precedes(q'[m], a'[m], q'[n], a'[n]) {
      InsertedAt(q, i, t, m);
      InsertedAt(q, i, t, n);
      InsertedAt(arrival, i, now, m);
      InsertedAt(arrival, i, now, n);
      assert m == i < n - 1 ==> Precedes(q[i], arrival[i], q[n - 1], arrival[n - 1]);
    }
  }

  lemma InsertedAt<T>(s: seq<T>, i: nat, x: T, k: nat)
    requires i <= |s| && k <= |s|
    ensures Insert(s, i, x)[k] == if k < i then s[k] else if k == i then x else s[k - 1]
  {
  }

  lemma RemoveKeepsOrder(q: seq<Task>, arrival: seq<nat>, i: nat)
    requires Ordered(q, arrival) && i < |q|
    ensures Ordered(Remove(q, i), Remove(arrival, i))
  {
    var (q', a') := (Remove(q, i), Remove(arrival, i));
    assert forall k | 0 <= k < i :: q'[k] == q[k] && a'[k] == arrival[k];
    assert forall k | i <= k < |q'| :: q'[k] == q[k + 1] && a'[k] == arrival[k + 1];
  }

  lemma InsertAdds(q: seq<Task>, i: nat, t: Task)
    requires i <= |q|
    ensures multiset(Insert(q, i, t)) == multiset(q) + multiset{t}
  {
    assert q == q[..i] + q[i..];
  }

  lemma RemoveTakes(q: seq<Task>, i: nat)
    requires i < |q|
    ensures multiset(q) == multiset(Remove(q, i)) + multiset{q[i]}
  {
    assert q == q[..i] + [q[i]] + q[i + 1..];
  }

  /** Position behind all tasks of at least this priority: the loop of `enqueue`. */
  method InsertPosition(q: seq<Task>, priority: nat) returns (pos: nat)
    ensures pos <= |q| && (forall k | 0 <= k < pos :: q[k].priority >= priority)
            && (pos < |q| ==> q[pos].priority < priority)
  {
    for i := 0 to |q|
      invariant forall k | 0 <= k < i :: q[k].priority >= priority
    {
      if q[i].priority < priority { return i; }
    }
    return |q|;
  }

  /** Position of the first runnable task: the loop of `dequeue`. */
  method FirstRunnable(q: seq<Task>, ready: set<Task>) returns (r: Option<nat>)
    ensures r.Some? ==> r.value < |q| && q[r.value] in ready && forall k | 0 <= k < r.value :: q[k] !in ready
    ensures r.None? ==> forall k | 0 <= k < |q| :: q[k] !in ready
  {
    for i := 0 to |q|
      invariant forall k | 0 <= k < i :: q[k] !in ready
    {
      if q[i] in ready { return Some(i); }
    }
    return None;
  }

  /** The first runnable task has the highest priority of all runnable ones, and is the oldest of those. */
  lemma FirstIsBest(q: seq<Task>, arrival: seq<nat>, i: nat, ready: set<Task>, k: nat)
    requires Ordered(q, arrival) && i < |q| && k < |q| && k != i && q[k] in ready
             && forall j | 0 <= j < i :: q[j] !in ready
    ensures Precedes(q[i], arrival[i], q[k], arrival[k])
  {
    assert i < k;
  }

  // ---------------------------------------------------------------------------
  // All queues
  // ---------------------------------------------------------------------------

  /** The tasks in the first `n` queues. */
  function Queued(queues: seq<seq<Task>>, n: nat): multiset<Task>
    requires n <= |queues|
  {
    if n == 0 then multiset{} else Queued(queues, n - 1) + multiset(queues[n - 1])
  }

  lemma {:induction false} QueuedElsewhere(queues: seq<seq<Task>>, h: nat, q: seq<Task>, n: nat)
    requires n <= h < |queues|
    ensures Queued(queues[h := q], n) == Queued(queues, n)
  {
    if n > 0 { QueuedElsewhere(queues, h, q, n - 1); }
  }

  lemma {:induction false} QueuedGains(queues: seq<seq<Task>>, h: nat, q: seq<Task>, t: Task, n: nat)
    requires h < n <= |queues| && multiset(q) == multiset(queues[h]) + multiset{t}
    ensures Queued(queues[h := q], n) == Queued(queues, n) + multiset{t}
  {
    if h < n - 1 {
      QueuedGains(queues, h, q, t, n - 1);
      MovesLast(Queued(queues, n - 1), multiset{t}, multiset(queues[n - 1]));
    } else {
      QueuedElsewhere(queues, h, q, h);
    }
  }

  lemma MovesLast(a: multiset<Task>, b: multiset<Task>, c: multiset<Task>)
    ensures (a + b) + c == (a + c) + b
  {
  }

  lemma QueuedLoses(queues: seq<seq<Task>>, h: nat, q: seq<Task>, t: Task, n: nat)
    requires h < n <= |queues| && multiset(queues[h]) == multiset(q) + multiset{t}
    ensures Queued(queues, n) == Queued(queues[h := q], n) + multiset{t}
  {
    QueuedGains(queues[h := q], h, queues[h], t, n);
    assert queues[h := q][h := queues[h]] == queues;
  }

  lemma {:induction false} NoneQueued(queues: seq<seq<Task>>, n: nat)
    requires n <= |queues| && forall h | 0 <= h < n :: queues[h] == []
    ensures Queued(queues, n) == multiset{}
  {
    if n > 0 { NoneQueued(queues, n - 1); }
  }

  /** Every task spawned, those not yet in a queue, those a hart has, every task ever handed to a hart, and
      every one put back. */
  datatype Books = Books(spawned: seq<Task>, pending: multiset<Task>, out: multiset<Task>, handed: multiset<Task>,
      requeued: multiset<Task>)
  {
    /** Each task is in exactly one place: on its way into a queue, in one queue once, or with one hart. */
    ghost predicate Balance(queued: multiset<Task>) {
      && (forall i | 0 <= i < |spawned| :: spawned[i].number == i + 1)
      && multiset(spawned) == pending + queued + out && handed == out + requeued
      && forall t | t in requeued :: t.number <= |spawned|
    }

    function Register(t: Task): Books { this.(spawned := spawned + [t], pending := pending + multiset{t}) }
    function Admit(t: Task): Books { this.(pending := pending - multiset{t}) }
    function HandOver(t: Task): Books { this.(out := out + multiset{t}, handed := handed + multiset{t}) }
    function PutBack(t: Task): Books { this.(out := out - multiset{t}, requeued := requeued + multiset{t}) }

    lemma RegisterBalances(queued: multiset<Task>, t: Task)
      requires Balance(queued) && t.number == |spawned| + 1
      ensures Register(t).Balance(queued) && t !in handed && t !in pending && t !in queued
    {
      SpawnedOnce(spawned, t);
      assert t !in multiset(spawned);
    }

    lemma AdmitBalances(queued: multiset<Task>, t: Task)
      requires Balance(queued) && t in pending
      ensures Admit(t).Balance(queued + multiset{t})
    {
    }

    lemma HandOverBalances(queued: multiset<Task>, rest: multiset<Task>, t: Task)
      requires Balance(queued) && queued == rest + multiset{t}
      ensures HandOver(t).Balance(rest) && t !in out && t !in rest
    {
      AtMostOnce(this, queued, t);
    }

    lemma PutBackBalances(queued: multiset<Task>, t: Task)
      requires Balance(queued) && t in out
      ensures PutBack(t).Balance(queued + multiset{t})
    {
      SpawnedOnce(spawned, t);
      assert t in multiset(spawned);
    }
  }

  lemma {:induction false} SpawnedOnce(spawned: seq<Task>, t: Task)
    requires forall i | 0 <= i < |spawned| :: spawned[i].number == i + 1
    ensures multiset(spawned)[t] <= 1 && (t.number > |spawned| ==> t !in multiset(spawned))
  {
    if spawned != [] {
      var n := |spawned| - 1;
      SpawnedOnce(spawned[..n], t);
      assert spawned == spawned[..n] + [spawned[n]];
    }
  }

  /** A task is handed out at most once more than it was put back, and while a hart has it, it is in no queue. */
  lemma AtMostOnce(b: Books, queued: multiset<Task>, t: Task)
    requires b.Balance(queued)
    ensures b.handed[t] <= 1 + b.requeued[t]
    ensures t in b.out ==> b.out[t] == 1 && t !in queued && t !in b.pending
    ensures queued[t] <= 1
  {
    SpawnedOnce(b.spawned, t);
    assert multiset(b.spawned)[t] == b.pending[t] + queued[t] + b.out[t];
  }

  ghost predicate Earlier(arrival: seq<nat>, now: nat) { forall k | 0 <= k < |arrival| :: arrival[k] < now }

  /** The first `n` queues are in order. */
  ghost predicate FirstInOrder(queues: seq<seq<Task>>, arrivals: seq<seq<nat>>, now: nat, n: nat)
    requires n <= |queues| == |arrivals|
  {
    n == 0 || (FirstInOrder(queues, arrivals, now, n - 1) && Ordered(queues[n - 1], arrivals[n - 1])
               && Earlier(arrivals[n - 1], now))
  }

  /** All queues are in order. */
  ghost predicate InOrder(queues: seq<seq<Task>>, arrivals: seq<seq<nat>>, now: nat) {
    |queues| == |arrivals| == MAX_HARTS && FirstInOrder(queues, arrivals, now, MAX_HARTS)
  }

  lemma {:induction false} InOrderAt(queues: seq<seq<Task>>, arrivals: seq<seq<nat>>, now: nat, n: nat, h: nat)
    requires h < n <= |queues| == |arrivals| && FirstInOrder(queues, arrivals, now, n)
    ensures Ordered(queues[h], arrivals[h]) && Earlier(arrivals[h], now)
  {
    if h < n - 1 { InOrderAt(queues, arrivals, now, n - 1, h); }
  }

  lemma {:induction false} InOrderWith(queues: seq<seq<Task>>, arrivals: seq<seq<nat>>, now: nat, n: nat, h: nat,
      q: seq<Task>, a: seq<nat>, later: nat)
    requires n <= |queues| == |arrivals| && h < |queues| && FirstInOrder(queues, arrivals, now, n)
    requires now <= later && Ordered(q, a) && Earlier(a, later)
    ensures FirstInOrder(queues[h := q], arrivals[h := a], later, n)
  {
    if n > 0 { InOrderWith(queues, arrivals, now, n - 1, h, q, a, later); }
  }

  lemma {:induction false} EmptyInOrder(queues: seq<seq<Task>>, arrivals: seq<seq<nat>>, n: nat)
    requires n <= |queues| == |arrivals| && forall h | 0 <= h < n :: queues[h] == [] && arrivals[h] == []
    ensures FirstInOrder(queues, arrivals, 0, n)
  {
    if n > 0 { EmptyInOrder(queues, arrivals, n - 1); }
  }

  lemma InOrderAfterInsert(queues: seq<seq<Task>>, arrivals: seq<seq<nat>>, now: nat, h: nat, i: nat, t: Task)
    requires InOrder(queues, arrivals, now) && h < MAX_HARTS && i <= |queues[h]|
    requires forall k | 0 <= k < i :: queues[h][k].priority >= t.priority
    requires i < |queues[h]| ==> queues[h][i].priority < t.priority
    ensures |arrivals[h]| == |queues[h]|
    ensures InOrder(queues[h := Insert(queues[h], i, t)], arrivals[h := Insert(arrivals[h], i, now)], now + 1)
  {
    InOrderAt(queues, arrivals, now, MAX_HARTS, h);
    InsertKeepsOrder(queues[h], arrivals[h], i, t, now);
    InOrderWith(queues, arrivals, now, MAX_HARTS, h, Insert(queues[h], i, t), Insert(arrivals[h], i, now), now + 1);
  }

  lemma InOrderAfterRemove(queues: seq<seq<Task>>, arrivals: seq<seq<nat>>, now: nat, h: nat, i: nat)
    requires InOrder(queues, arrivals, now) && h < MAX_HARTS && i < |queues[h]|
    ensures |arrivals[h]| == |queues[h]|
    ensures InOrder(queues[h := Remove(queues[h], i)], arrivals[h := Remove(arrivals[h], i)], now)
  {
    InOrderAt(queues, arrivals, now, MAX_HARTS, h);
    RemoveKeepsOrder(queues[h], arrivals[h], i);
    InOrderWith(queues, arrivals, now, MAX_HARTS, h, Remove(queues[h], i), Remove(arrivals[h], i), now);
  }

  /** Nothing runnable is better than the task at `i`. */
  ghost predicate Best(q: seq<Task>, arrival: seq<nat>, i: nat, ready: set<Task>)
    requires i < |q| == |arrival|
  {
    && q[i] in ready
    && forall k | 0 <= k < |q| && k != i && q[k] in ready :: Precedes(q[i], arrival[i], q[k], arrival[k])
  }

  /** One task more, at this position, as the latest arrival; all others keep their place in the order. */
  ghost predicate PlacedAt(queues: seq<seq<Task>>, queues': seq<seq<Task>>, arrivals: seq<seq<nat>>,
      arrivals': seq<seq<nat>>, h: nat, pos: nat, t: Task, now: nat)
  {
    && h < |queues| == |arrivals| && pos <= |queues[h]| == |arrivals[h]|
    && queues' == queues[h := Insert(queues[h], pos, t)] && arrivals' == arrivals[h := Insert(arrivals[h], pos, now)]
  }

  /** The task at this position taken out; all others keep their place in the order. */
  ghost predicate TakenFrom(queues: seq<seq<Task>>, queues': seq<seq<Task>>, arrivals: seq<seq<nat>>,
      arrivals': seq<seq<nat>>, h: nat, pos: nat)
  {
    && h < |queues| == |arrivals| && pos < |queues[h]| == |arrivals[h]|
    && queues' == queues[h := Remove(queues[h], pos)] && arrivals' == arrivals[h := Remove(arrivals[h], pos)]
  }

  /** Taking one task out of a queue and handing it to a hart. */
  lemma HandedOut(queues: seq<seq<Task>>, arrivals: seq<seq<nat>>, now: nat, books: Books, h: nat, i: nat)
    requires InOrder(queues, arrivals, now) && books.Balance(Queued(queues, MAX_HARTS))
    requires h < MAX_HARTS && i < |queues[h]|
    ensures |arrivals[h]| == |queues[h]| && queues[h][i] !in books.out
    ensures var queues' := queues[h := Remove(queues[h], i)];
            && InOrder(queues', arrivals[h := Remove(arrivals[h], i)], now)
            && books.HandOver(queues[h][i]).Balance(Queued(queues', MAX_HARTS))
  {
    var rest := Remove(queues[h], i);
    InOrderAfterRemove(queues, arrivals, now, h, i);
    RemoveTakes(queues[h], i);
    QueuedLoses(queues, h, rest, queues[h][i], MAX_HARTS);
    books.HandOverBalances(Queued(queues, MAX_HARTS), Queued(queues[h := rest], MAX_HARTS), queues[h][i]);
  }

  class Scheduler {
    var queues: seq<seq<Task>>
    var nextPid: nat
    var numHarts: nat
    /** Tasks in the hands of harts, and the history of what was handed out. */
    var books: Books
    ghost var arrivals: seq<seq<nat>>
    ghost var now: nat

    ghost predicate Valid()
      reads this
    {
      && InOrder(queues, arrivals, now) && books.Balance(Queued(queues, MAX_HARTS))
      && nextPid == |books.spawned| + 1 && numHarts <= MAX_HARTS
    }

    constructor (numHarts: nat)
      requires numHarts <= MAX_HARTS
      ensures Valid() && this.numHarts == numHarts && books == Books([], multiset{}, multiset{}, multiset{}, multiset{})
    {
      queues, nextPid, this.numHarts := seq(MAX_HARTS, _ => []), 1, numHarts;
      books := Books([], multiset{}, multiset{}, multiset{}, multiset{});
      arrivals, now := seq(MAX_HARTS, _ => []), 0;
      new;
      NoneQueued(queues, MAX_HARTS);
      EmptyInOrder(queues, arrivals, MAX_HARTS);
    }

    /** A spawn takes the next number, before the task is in any queue. */
    method Create(priority: nat) returns (t: Task)
      requires Valid()
      modifies this`nextPid, this`books
      ensures Valid() && t == Task(old(nextPid), priority) && t !in old(books).handed && numHarts == old(numHarts)
      ensures books == old(books).Register(t)
    {
      t := Task(nextPid, priority);
      books.RegisterBalances(Queued(queues, MAX_HARTS), t);
      nextPid := nextPid + 1;
      books := books.Register(t);
    }

    /** Puts a task into a queue, behind all of at least its priority: `enqueue` under the queue's lock. */
    method Place(h: nat, t: Task) returns (ghost pos: nat)
      requires InOrder(queues, arrivals, now) && h < MAX_HARTS
      modifies this`queues, this`arrivals, this`now
      ensures InOrder(queues, arrivals, now)
              && Queued(queues, MAX_HARTS) == Queued(old(queues), MAX_HARTS) + multiset{t}
      ensures now == old(now) + 1 && PlacedAt(old(queues), queues, old(arrivals), arrivals, h, pos, t, old(now))
    {
      var i := InsertPosition(queues[h], t.priority);
      pos := i;
      InOrderAfterInsert(queues, arrivals, now, h, i, t);
      InsertAdds(queues[h], i, t);
      QueuedGains(queues, h, Insert(queues[h], i, t), t, MAX_HARTS);
      arrivals := arrivals[h := Insert(arrivals[h], i, now)];
      queues := queues[h := Insert(queues[h], i, t)];
      now := now + 1;
    }

    /** The second half of a spawn. */
    method Enqueue(h: nat, t: Task) returns (ghost pos: nat)
      requires Valid() && h < MAX_HARTS && t in books.pending
      modifies this`queues, this`arrivals, this`now, this`books
      ensures Valid() && books == old(books).Admit(t)
      ensures now == old(now) + 1 && PlacedAt(old(queues), queues, old(arrivals), arrivals, h, pos, t, old(now))
    {
      books.AdmitBalances(Queued(queues, MAX_HARTS), t);
      pos := Place(h, t);
      books := books.Admit(t);
    }

    /** `requeue`: a hart puts back a task it was handed. */
    method Requeue(h: nat, t: Task) returns (ghost pos: nat)
      requires Valid() && h < MAX_HARTS && t in books.out
      modifies this`queues, this`arrivals, this`now, this`books
      ensures Valid() && books == old(books).PutBack(t)
      ensures now == old(now) + 1 && PlacedAt(old(queues), queues, old(arrivals), arrivals, h, pos, t, old(now))
    {
      books.PutBackBalances(Queued(queues, MAX_HARTS), t);
      pos := Place(h, t);
      books := books.PutBack(t);
    }

    /** Takes the task at a position out of its queue and hands it to a hart. */
    method HandOut(h: nat, i: nat) returns (t: Task)
      requires Valid() && h < MAX_HARTS && i < |queues[h]|
      modifies this`queues, this`arrivals, this`books
      ensures Valid() && t == old(queues)[h][i] && TakenFrom(old(queues), queues, old(arrivals), arrivals, h, i)
      ensures books == old(books).HandOver(t) && t !in old(books).out
    {
      t := queues[h][i];
      HandedOut(queues, arrivals, now, books, h, i);
      queues := queues[h := Remove(queues[h], i)];
      arrivals := arrivals[h := Remove(arrivals[h], i)];
      books := books.HandOver(t);
    }

    /** `dequeue`: the oldest of the runnable tasks of highest priority, None exactly when none is runnable. */
    method Dequeue(h: nat, ready: set<Task>) returns (r: Option<Task>, ghost i: nat)
      requires Valid() && h < MAX_HARTS
      modifies this`queues, this`arrivals, this`books
      ensures Valid()
      ensures r.None? ==> && queues == old(queues) && arrivals == old(arrivals) && books == old(books)
                          && forall k | 0 <= k < |queues[h]| :: queues[h][k] !in ready
      ensures r.Some? ==> && i < |old(queues)[h]| == |old(arrivals)[h]|
                          && Best(old(queues)[h], old(arrivals)[h], i, ready)
                          && r.value == old(queues)[h][i]
                          && TakenFrom(old(queues), queues, old(arrivals), arrivals, h, i)
                          && books == old(books).HandOver(r.value) && r.value !in old(books).out
    {
      i := 0;
      var pos := FirstRunnable(queues[h], ready);
      if pos.None? { return None, 0; }
      InOrderAt(queues, arrivals, now, MAX_HARTS, h);
      forall k | 0 <= k < |queues[h]| && k != pos.value && queues[h][k] in ready
        ensures Precedes(queues[h][pos.value], arrivals[h][pos.value], queues[h][k], arrivals[h][k])
      {
        FirstIsBest(queues[h], arrivals[h], pos.value, ready, k);
      }
      var t := HandOut(h, pos.value);
      return Some(t), pos.value;
    }

    /** `steal`: the last task of a queue that has more than one. */
    method Steal(h: nat) returns (r: Option<Task>)
      requires Valid() && h < MAX_HARTS
      modifies this`queues, this`arrivals, this`books
      ensures Valid() && r.Some? == (|old(queues)[h]| > 1)
      ensures r.None? ==> queues == old(queues) && books == old(books) && arrivals == old(arrivals)
      ensures r.Some? ==> && r.value == old(queues)[h][|old(queues)[h]| - 1]
                          && TakenFrom(old(queues), queues, old(arrivals), arrivals, h, |old(queues)[h]| - 1)
                          && books == old(books).HandOver(r.value) && r.value !in old(books).out
    {
      if |queues[h]| > 1 {
        var t := HandOut(h, |queues[h]| - 1);
        return Some(t);
      }
      return None;
    }

    ghost function Here(): Moment
      reads this
    {
      Moment(queues, arrivals, books)
    }

    /** The other harts go on: any critical sections, with task states changing arbitrarily, in which no one
        touches the task that is `mine`. */
    method Others(events: seq<Event>, mine: Option<Task>)
      requires Valid()
      modifies this
      ensures Valid() && numHarts == old(numHarts)
      ensures mine.Some? && mine.value in old(books).pending ==> mine.value in books.pending
      ensures events == [] ==> queues == old(queues)
    {
      for k := 0 to |events|
        invariant Valid() && numHarts == old(numHarts)
        invariant mine.Some? && mine.value in old(books).pending ==> mine.value in books.pending
        invariant k == 0 ==> queues == old(queues)
      {
        Other(events[k], mine);
      }
    }

    method Other(event: Event, mine: Option<Task>)
      requires Valid()
      modifies this
      ensures Valid() && numHarts == old(numHarts)
      ensures mine.Some? && mine.value in old(books).pending ==> mine.value in books.pending
    {
      match event
      case Create(priority) => var _ := Create(priority);
      case Enqueue(h, t) => if h < MAX_HARTS && t in books.pending && mine != Some(t) { OtherEnqueues(h, t, mine); }
      case Requeue(h, t) => if h < MAX_HARTS && t in books.out && mine != Some(t) { ghost var _ := Requeue(h, t); }
      case Steal(h) => if h < MAX_HARTS { var _ := Steal(h); }
      case Dequeue(h, ready) => if h < MAX_HARTS { OtherDequeues(h, ready); }
    }

    method OtherEnqueues(h: nat, t: Task, mine: Option<Task>)
      requires Valid() && h < MAX_HARTS && t in books.pending && mine != Some(t)
      modifies this`queues, this`arrivals, this`now, this`books
      ensures Valid()
      ensures mine.Some? ==> books.pending[mine.value] == old(books).pending[mine.value]
    {
      ghost var _ := Enqueue(h, t);
    }

    method OtherDequeues(h: nat, ready: set<Task>)
      requires Valid() && h < MAX_HARTS
      modifies this`queues, this`arrivals, this`books
      ensures Valid() && books.pending == old(books).pending
    {
      ghost var i;
      var r;
      r, i := Dequeue(h, ready);
    }

    /** Over any sequence of critical sections every queue stays in order and no task is handed out twice without
        being put back in between. */
    method Run(events: seq<Event>)
      requires Valid()
      modifies this
      ensures Valid() && forall t :: books.handed[t] <= 1 + books.requeued[t]
    {
      Others(events, None);
      forall t ensures books.handed[t] <= 1 + books.requeued[t] { AtMostOnce(books, Queued(queues, MAX_HARTS), t); }
    }

    /** `find_least_loaded_hart` looks at one queue after the other, while the other harts go on: the first of the
        shortest lengths it saw. */
    method LeastLoaded(others: Schedule, mine: Option<Task>) returns (target: nat, ghost looks: seq<nat>)
      requires Valid()
      modifies this
      ensures Valid() && numHarts == old(numHarts) && |looks| == numHarts && FirstShortest(looks, target)
              && target < MAX_HARTS
      ensures mine.Some? && mine.value in old(books).pending ==> mine.value in books.pending
      ensures others == [] ==> queues == old(queues)
      ensures others == [] ==> numHarts <= |old(queues)| && looks == Lengths(old(queues), numHarts)
    {
      target, looks := 0, [];
      ghost var start := queues;
      var load: Option<nat> := None;
      for h := 0 to numHarts
        invariant Valid() && numHarts == old(numHarts) && |looks| == h && target == Shortest(looks)
        invariant load == if h == 0 then None else Some(looks[target])
        invariant mine.Some? && mine.value in old(books).pending ==> mine.value in books.pending
        invariant others == [] ==> queues == start
        invariant others == [] ==> looks == Lengths(start, h)
      {
        var len: nat := Length(h, Turn(others, h), mine);
        ShortestOfMore(looks, len, load);
        looks := looks + [len];
        if load.None? || len < load.value {
          load, target := Some(len), h;
        }
      }
      ShortestIsFirst(looks);
    }

    /** One look at a queue, after the other harts went on. */
    method Length(h: nat, events: seq<Event>, mine: Option<Task>) returns (len: nat)
      requires Valid() && h < MAX_HARTS
      modifies this
      ensures Valid() && numHarts == old(numHarts) && len == |queues[h]|
      ensures mine.Some? && mine.value in old(books).pending ==> mine.value in books.pending
      ensures events == [] ==> queues == old(queues)
    {
      Others(events, mine);
      len := |queues[h]|;
    }

    /** `spawn_on_hart`: the task goes to its hart, or to the least loaded one it saw, while the other harts go on
        between its critical sections. */
    method Spawn(priority: nat, affinity: Option<nat>, others: Schedule)
      returns (t: Task, ghost h: nat, ghost pos: nat, ghost at: Moment, ghost looks: seq<nat>)
      requires Valid() && (affinity.Some? ==> affinity.value < MAX_HARTS)
      modifies this
      ensures Valid() && t == Task(old(nextPid), priority) && t !in old(books).handed && numHarts == old(numHarts)
      ensures books == at.books.Admit(t) && now > 0
              && PlacedAt(at.queues, queues, at.arrivals, arrivals, h, pos, t, now - 1)
      ensures if affinity.Some? then h == affinity.value else |looks| == numHarts && FirstShortest(looks, h)
      ensures others == [] ==> at.queues == old(queues)
      ensures others == [] && affinity.None? ==> numHarts <= |old(queues)| && looks == Lengths(old(queues), numHarts)
    {
      t := Create(priority);
      looks := [];
      var target;
      if affinity.Some? {
        target := affinity.value;
        Others(Turn(others, 0), Some(t));
      } else {
        target, looks := LeastLoaded(others, Some(t));
      }
      at, h := Here(), target;
      pos := Enqueue(target, t);
    }

    /** One look at another hart's queue, after the other harts went on. */
    method StealNext(other: nat, events: seq<Event>) returns (r: Option<Task>, ghost at: Moment)
      requires Valid() && other < MAX_HARTS
      modifies this
      ensures Valid() && numHarts == old(numHarts) && other < |at.queues|
      ensures r.None? ==> |at.queues[other]| <= 1 && at == Here()
      ensures r.Some? ==> && StolenFrom(at, Here(), other) && r.value == at.queues[other][|at.queues[other]| - 1]
                          && books == at.books.HandOver(r.value) && r.value !in at.books.out
      ensures events == [] ==> at.queues == old(queues)
    {
      Others(events, None);
      at := Here();
      r := Steal(other);
    }

    /** The stealing half of `pick_next`: from the first other hart that has more than one task when its lock is
        held, the other harts going on in between. */
    method StealFromOthers(h: nat, others: Schedule) returns (r: Option<Task>, ghost from: nat, ghost at: Moment)
      requires Valid() && h < MAX_HARTS
      modifies this
      ensures Valid() && numHarts == old(numHarts) && from <= numHarts
      ensures r.None? ==> from == numHarts
      ensures r.Some? ==> && from < numHarts && from != h && StolenFrom(at, Here(), from)
                          && r.value == at.queues[from][|at.queues[from]| - 1]
                          && books == at.books.HandOver(r.value) && r.value !in at.books.out
      ensures others == [] && r.Some? ==> at.queues == old(queues)
      ensures others == [] ==> from <= |old(queues)| && NoneSpare(old(queues), h, from)
    {
      from, at := 0, Here();
      ghost var start := queues;
      for other := 0 to numHarts
        invariant Valid() && numHarts == old(numHarts)
        invariant others == [] ==> queues == start
        invariant others == [] ==> NoneSpare(start, h, other)
      {
        if other != h {
          r, at := StealNext(other, Turn(others, other));
          if r.Some? { return r, other, at; }
        }
      }
      return None, numHarts, at;
    }

    /** `pick_next`: the hart's own best runnable task, else a stolen one, while the other harts go on. At the moment
        of the hand-out no hart has the task. */
    method PickNext(h: nat, ready: set<Task>, others: Schedule) returns (r: Option<Task>, ghost from: nat, ghost i: nat,
        ghost at: Moment)
      requires Valid() && h < MAX_HARTS
      modifies this
      ensures Valid() && numHarts == old(numHarts)
      ensures r.Some? ==> && TakenFrom(at.queues, queues, at.arrivals, arrivals, from, i)
                          && r.value == at.queues[from][i]
                          && books == at.books.HandOver(r.value) && r.value !in at.books.out
      ensures r.Some? && from == h ==> && at == old(Here()) && i < |at.queues[h]| == |at.arrivals[h]|
                                       && Best(at.queues[h], at.arrivals[h], i, ready)
      ensures r.None? || from != h ==> forall k | 0 <= k < |old(queues)[h]| :: old(queues)[h][k] !in ready
      ensures r.Some? && from != h ==> from < numHarts && |at.queues[from]| > 1 && i == |at.queues[from]| - 1
      ensures r.None? ==> from == numHarts
      ensures others == [] && r.Some? ==> at.queues == old(queues)
      ensures others == [] && (r.None? || from != h) ==> from <= |old(queues)| && NoneSpare(old(queues), h, from)
    {
      from, at := h, Here();
      r, i := Dequeue(h, ready);
      if r.None? {
        r, from, at := StealFromOthers(h, others);
        i := if r.Some? then |at.queues[from]| - 1 else 0;
      }
    }
  }

  /** The queues and books at some moment. */
  datatype Moment = Moment(queues: seq<seq<Task>>, arrivals: seq<seq<nat>>, books: Books)

  /** The first of the least of these, or 0 if there are none. */
  ghost predicate FirstShortest(looks: seq<nat>, target: nat) {
    if looks == [] then target == 0
    else
      && target < |looks| && (forall h | 0 <= h < |looks| :: looks[target] <= looks[h])
      && forall h | 0 <= h < target :: looks[target] < looks[h]
  }

  /** The lengths of the first `n` queues. */
  function Lengths(queues: seq<seq<Task>>, n: nat): seq<nat>
    requires n <= |queues|
  {
    if n == 0 then [] else Lengths(queues, n - 1) + [|queues[n - 1]|]
  }

  /** None of the first `n` queues, that of `h` aside, has a task to spare. */
  ghost predicate NoneSpare(queues: seq<seq<Task>>, h: nat, n: nat)
    requires n <= |queues|
  {
    n == 0 || (NoneSpare(queues, h, n - 1) && (n - 1 == h || |queues[n - 1]| <= 1))
  }

  /** The index of the first of the least. */
  function Shortest(looks: seq<nat>): (i: nat)
    ensures looks != [] ==> i < |looks|
  {
    if |looks| <= 1 then 0
    else
      var n := |looks| - 1;
      var i := Shortest(looks[..n]);
      if looks[n] < looks[i] then n else i
  }

  lemma {:induction false} ShortestIsFirst(looks: seq<nat>)
    ensures FirstShortest(looks, Shortest(looks))
    decreases |looks|
  {
    if |looks| > 1 { ShortestIsFirst(looks[..|looks| - 1]); }
  }

  lemma ShortestOfMore(looks: seq<nat>, len: nat, load: Option<nat>)
    requires load == if looks == [] then None else Some(looks[Shortest(looks)])
    ensures var i := if load.None? || len < load.value then |looks| else Shortest(looks);
            i <= |looks| && i == Shortest(looks + [len])
            && (looks + [len])[i] == if i == |looks| then len else load.value
  {
    assert (looks + [len])[..|looks|] == looks;
  }

  /** The last task of a queue that has more than one was taken. */
  ghost predicate StolenFrom(at: Moment, after: Moment, from: nat) {
    && from < |at.queues| && |at.queues[from]| > 1
    && TakenFrom(at.queues, after.queues, at.arrivals, after.arrivals, from, |at.queues[from]| - 1)
  }

  /** What the other harts do before each critical section of a call. */
  type Schedule = seq<seq<Event>>

  datatype Event =
    | Create(priority: nat)
    | Enqueue(hart: nat, task: Task)
    | Requeue(hart: nat, task: Task)
    | Dequeue(hart: nat, ready: set<Task>)
    | Steal(hart: nat)
}
