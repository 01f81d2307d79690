/** The write-back LRU block cache over a block device, for any type of block contents. */
module BlockCache {

  datatype Error = IoError | DiskFull | RootDirFull
  datatype Result<T> = Ok(value: T) | Err(error: Error)

  type Disk<T> = map<nat, T>

  /** A log of sectors, latest last. */
  datatype Log = Start | Then(before: Log, s: nat) {
    ghost predicate Continues(log: Log) { this == log || (Then? && before.Continues(log)) }

    lemma {:induction false} ContinuesOn(a: Log, b: Log)
      requires b.Continues(a) && Continues(b)
      ensures Continues(a)
    {
      if this != b { before.ContinuesOn(a, b); }
    }
  }

  /** The device: any operation may fail unless it is reliable and the sector exists; a failed write
      leaves the sector as it was. */
  class Device<T> {
    const reliable: bool
    var disk: Disk<T>
    /** The sectors whose reads failed. */
    ghost var failed: Log

    constructor (disk: Disk<T>, reliable: bool)
      ensures this.disk == disk && this.reliable == reliable && failed == Start
    {
      this.disk := disk;
      this.reliable := reliable;
      failed := Start;
    }

    method ReadSector(s: nat) returns (r: Result<T>)
      modifies this`failed
      ensures failed == if r.Ok? then old(failed) else Then(old(failed), s)
      ensures r.Ok? ==> s in disk && r.value == disk[s]
      ensures reliable && s in disk ==> r.Ok?
    {
      var works: bool := *;
      if s in disk && (reliable || works) { return Ok(disk[s]); }
      failed := Then(failed, s);
      return Err(IoError);
    }

    method WriteSector(s: nat, data: T) returns (ok: bool)
      modifies this`disk
      ensures ok ==> s in old(disk) && disk == old(disk)[s := data]
      ensures !ok ==> disk == old(disk)
      ensures reliable && s in old(disk) ==> ok
    {
      var works: bool := *;
      ok := s in disk && (reliable || works);
      if ok { disk := disk[s := data]; }
    }
  }

  datatype Block<T> = Block(data: T, dirty: bool, lastAccess: nat)

  type Blocks<T> = map<nat, Block<T>>

  const CACHE_MAX_BLOCKS: nat := 64

  /** Clean blocks, except those being modified, equal their sectors. */
  ghost predicate CleanExcept<T>(disk: Disk<T>, blocks: Blocks<T>, pending: set<nat>) {
    forall s | s in blocks && !blocks[s].dirty && s !in pending :: s in disk && disk[s] == blocks[s].data
  }

  /** Access stamps lie in the past and each belongs to one block. */
  ghost predicate Stamped<T>(blocks: Blocks<T>, clock: nat, owner: map<nat, nat>) {
    forall s | s in blocks ::
      var t := blocks[s].lastAccess; t < clock && t in owner && owner[t] == s
  }

  /** Stamps leave no choice of the block to evict. */
  lemma LeastRecentIsUnique<T>(blocks: Blocks<T>, clock: nat, owner: map<nat, nat>, v: nat, w: nat)
    requires Stamped(blocks, clock, owner) && LeastRecent(blocks, v) && LeastRecent(blocks, w)
    ensures v == w
  {
  }

  lemma Stamp<T>(blocks: Blocks<T>, clock: nat, owner: map<nat, nat>, s: nat, b: Block<T>)
    requires Stamped(blocks, clock, owner) && b.lastAccess == clock
    ensures Stamped(blocks[s := b], clock + 1, owner[clock := s])
  {
  }

  lemma KeepStamp<T>(blocks: Blocks<T>, clock: nat, owner: map<nat, nat>, s: nat, b: Block<T>)
    requires Stamped(blocks, clock, owner) && s in blocks && b.lastAccess == blocks[s].lastAccess
    ensures Stamped(blocks[s := b], clock, owner)
  {
  }

  /** The block table over `disk` shows `view`. */
  ghost predicate Shows<T>(disk: Disk<T>, blocks: Blocks<T>, view: Disk<T>, pending: set<nat>) {
    && (forall s :: s in view <==> s in disk || s in blocks)
    && (forall s | s in blocks :: view[s] == blocks[s].data)
    && (forall s | s in disk && s !in blocks :: view[s] == disk[s])
    && CleanExcept(disk, blocks, pending) && |blocks| <= CACHE_MAX_BLOCKS
  }

  function Cleaned<T>(blocks: Blocks<T>, s: nat): Blocks<T> {
    if s in blocks && blocks[s].dirty then blocks[s := blocks[s].(dirty := false)] else blocks
  }

  ghost predicate DirtyWithin<T>(blocks: Blocks<T>, rest: set<nat>) {
    forall t | t in blocks && blocks[t].dirty :: t in rest
  }

  ghost predicate LeastRecent<T>(blocks: Blocks<T>, v: nat) {
    v in blocks && forall s | s in blocks :: blocks[v].lastAccess <= blocks[s].lastAccess
  }

  /** Blocks were dropped and none changed. */
  ghost predicate Fewer<T>(before: Blocks<T>, after: Blocks<T>) {
    forall t | t in after :: t in before && after[t] == before[t]
  }

  /** Each sector of the device is as it was or as the view shows it. */
  ghost predicate Mixed<T>(disk: Disk<T>, view: Disk<T>, disk': Disk<T>) {
    && disk'.Keys == disk.Keys
    && forall s | s in disk' :: disk'[s] == disk[s] || (s in view && disk'[s] == view[s])
  }

  /** A pass over the device in ascending order stopped before sector `cut`: those below hold `content`, the
      others are as they were. */
  ghost predicate Torn<T>(disk: Disk<T>, content: Disk<T>, cut: nat, disk': Disk<T>) {
    && disk'.Keys == disk.Keys
    && (forall s | s in content && s < cut :: s in disk' && disk'[s] == content[s])
    && forall s | s in disk' && cut <= s :: disk'[s] == disk[s]
  }

  /** The block has the newest stamp of all; no other was stamped or changed. */
  ghost predicate Used<T>(before: Blocks<T>, after: Blocks<T>, clock: nat, s: nat) {
    && s in after && after[s].lastAccess + 1 == clock
    && forall t | t in after && t != s :: t in before && after[t] == before[t]
  }

  // ---------------------------------------------------------------------------
  // What each change of the block table does to the overlay
  // ---------------------------------------------------------------------------

  lemma SetClean<T>(disk: Disk<T>, blocks: Blocks<T>, s: nat, b: Block<T>, pending: set<nat>)
    requires CleanExcept(disk, blocks, pending + {s})
    requires b.dirty || s in pending || (s in disk && disk[s] == b.data)
    ensures CleanExcept(disk, blocks[s := b], pending)
  {
  }

  lemma SetCount<T>(blocks: Blocks<T>, s: nat, b: Block<T>)
    ensures |blocks[s := b]| == if s in blocks then |blocks| else |blocks| + 1
  {
  }

  /** A block may be placed wherever there is room, if it is dirty or equals its sector. */
  lemma Placed<T>(disk: Disk<T>, blocks: Blocks<T>, view: Disk<T>, s: nat, b: Block<T>)
    requires Shows(disk, blocks, view, {}) && (s in blocks || |blocks| < CACHE_MAX_BLOCKS)
    requires b.dirty || (s in disk && disk[s] == b.data)
    ensures Shows(disk, blocks[s := b], view[s := b.data], {})
  {
    SetClean(disk, blocks, s, b, {});
    SetCount(blocks, s, b);
  }

  /** Placing a block that holds what the view already shows. */
  lemma Refreshed<T>(disk: Disk<T>, blocks: Blocks<T>, view: Disk<T>, s: nat, b: Block<T>)
    requires Shows(disk, blocks, view, {}) && (s in blocks || |blocks| < CACHE_MAX_BLOCKS)
    requires b.dirty || (s in disk && disk[s] == b.data)
    requires s in view && view[s] == b.data
    ensures Shows(disk, blocks[s := b], view, {})
  {
    Placed(disk, blocks, view, s, b);
    assert view[s := b.data] == view;
  }

  /** Changing a block in place leaves at most that block pending. */
  lemma Edited<T>(disk: Disk<T>, blocks: Blocks<T>, view: Disk<T>, s: nat, b: Block<T>, pending: set<nat>)
    requires Shows(disk, blocks, view, pending + {s}) && s in blocks
    requires b.dirty || s in pending || (s in disk && disk[s] == b.data)
    ensures Shows(disk, blocks[s := b], view[s := b.data], pending)
  {
    SetClean(disk, blocks, s, b, pending);
    SetCount(blocks, s, b);
  }

  lemma Remarked<T>(disk: Disk<T>, blocks: Blocks<T>, view: Disk<T>, s: nat, dirty: bool)
    requires Shows(disk, blocks, view, {s}) && s in blocks
    requires dirty || (s in disk && disk[s] == blocks[s].data)
    ensures Shows(disk, blocks[s := blocks[s].(dirty := dirty)], view, {})
  {
    assert {} + {s} == {s};
    Edited(disk, blocks, view, s, blocks[s].(dirty := dirty), {});
    assert view[s := blocks[s].data] == view;
  }

  /** Only the written sector of the device changed, to what its block holds. */
  lemma WrittenBack<T>(disk: Disk<T>, blocks: Blocks<T>, view: Disk<T>, s: nat)
    requires Shows(disk, blocks, view, {}) && s in blocks
    ensures Shows(disk[s := blocks[s].data], blocks, view, {})
  {
  }

  /** Dropping a block that equals its sector. */
  lemma Dropped<T>(disk: Disk<T>, blocks: Blocks<T>, view: Disk<T>, v: nat)
    requires Shows(disk, blocks, view, {}) && v in blocks && v in disk && disk[v] == blocks[v].data
    ensures Shows(disk, blocks - {v}, view, {}) && |blocks - {v}| < |blocks|
  {
    DropCount(blocks, v);
  }

  lemma DropCount<T>(blocks: Blocks<T>, v: nat)
    requires v in blocks
    ensures |blocks - {v}| < |blocks|
  {
    assert (blocks - {v}).Keys == blocks.Keys - {v};
    assert |blocks.Keys - {v}| == |blocks.Keys| - 1;
  }

  lemma AllCleanIsDisk<T>(disk: Disk<T>, blocks: Blocks<T>, view: Disk<T>)
    requires Shows(disk, blocks, view, {}) && DirtyWithin(blocks, {})
    ensures disk == view
  {
  }

  /** A block may be entered wherever there is room, if it is dirty or equals its sector. */
  lemma Entered<T>(disk: Disk<T>, blocks: Blocks<T>, view: Disk<T>, clock: nat, owner: map<nat, nat>, s: nat,
      b: Block<T>)
    requires Shows(disk, blocks, view, {}) && Stamped(blocks, clock, owner)
    requires (s in blocks || |blocks| < CACHE_MAX_BLOCKS) && b.lastAccess == clock
    requires b.dirty || (s in disk && disk[s] == b.data)
    ensures Shows(disk, blocks[s := b], view[s := b.data], {}) && Stamped(blocks[s := b], clock + 1, owner[clock := s])
  {
    Placed(disk, blocks, view, s, b);
    Stamp(blocks, clock, owner, s, b);
  }

  /** A block that was written back is clean. */
  lemma Washed<T>(disk: Disk<T>, blocks: Blocks<T>, view: Disk<T>, clock: nat, owner: map<nat, nat>, s: nat)
    requires Shows(disk, blocks, view, {}) && Stamped(blocks, clock, owner)
    requires s in blocks && blocks[s].dirty && s in disk && disk[s] == blocks[s].data
    ensures Shows(disk, Cleaned(blocks, s), view, {}) && Stamped(Cleaned(blocks, s), clock, owner)
    ensures Cleaned(blocks, s).Keys == blocks.Keys && view[s] == blocks[s].data
  {
    Remarked(disk, blocks, view, s, false);
    KeepStamp(blocks, clock, owner, s, blocks[s].(dirty := false));
  }

  /** Blocks from `cut` on are still to be written, and so are all dirty ones. */
  ghost predicate Swept<T>(disk0: Disk<T>, disk: Disk<T>, blocks: Blocks<T>, rest: set<nat>, cut: nat) {
    && disk.Keys == disk0.Keys && DirtyWithin(blocks, rest) && (forall t | t in rest :: cut <= t)
    && forall t | t in disk && cut <= t :: disk[t] == disk0[t]
  }

  lemma SweptOne<T>(disk0: Disk<T>, disk: Disk<T>, disk': Disk<T>, blocks: Blocks<T>, rest: set<nat>, cut: nat, s: nat)
    requires Swept(disk0, disk, blocks, rest, cut) && s in rest && (forall t | t in rest :: s <= t)
    requires disk'.Keys == disk.Keys && forall t | t in disk && t != s :: disk'[t] == disk[t]
    ensures Swept(disk0, disk', Cleaned(blocks, s), rest - {s}, s + 1)
  {
  }

  lemma SweptIsTorn<T>(disk0: Disk<T>, disk: Disk<T>, blocks: Blocks<T>, view: Disk<T>, rest: set<nat>, cut: nat,
      s: nat)
    requires Shows(disk, blocks, view, {}) && Swept(disk0, disk, blocks, rest, cut)
    requires s in rest && (forall t | t in rest :: s <= t)
    ensures Torn(disk0, view, s, disk)
  {
    CleanBelow(disk, blocks, view, rest, s);
  }

  /** Below the lowest block that may be dirty the device holds the view. */
  lemma CleanBelow<T>(disk: Disk<T>, blocks: Blocks<T>, view: Disk<T>, rest: set<nat>, cut: nat)
    requires Shows(disk, blocks, view, {}) && DirtyWithin(blocks, rest) && forall t | t in rest :: cut <= t
    ensures forall s | s in view && s < cut :: s in disk && disk[s] == view[s]
  {
  }

  /** A sector outside the cache changed on the device. */
  lemma WrittenAround<T>(disk: Disk<T>, blocks: Blocks<T>, view: Disk<T>, s: nat, data: T)
    requires Shows(disk, blocks, view, {}) && s !in blocks
    ensures Shows(disk[s := data], blocks, view[s := data], {})
  {
  }

  class Cache<T> {
    var blocks: Blocks<T>
    /** The access counter that stamps blocks. */
    var clock: nat
    var hits: nat
    var misses: nat
    var writebacks: nat
    /** The disk a cacheless implementation would hold. */
    ghost var view: Disk<T>
    /** The block each stamp was given to. */
    ghost var owner: map<nat, nat>

    constructor (ghost disk: Disk<T>)
      ensures Valid(disk) && view == disk && blocks == map[]
    {
      blocks := map[];
      clock, hits, misses, writebacks := 0, 0, 0, 0;
      view, owner := disk, map[];
    }

    ghost predicate Valid(disk: Disk<T>)
      reads this
    {
      Shows(disk, blocks, view, {}) && Stamped(blocks, clock, owner)
    }

    method LruSector() returns (v: nat)
      requires blocks != map[]
      ensures LeastRecent(blocks, v)
    {
      v :| v in blocks;
      var rest := blocks.Keys - {v};
      while rest != {}
        invariant v in blocks && rest <= blocks.Keys
        invariant forall s | s in blocks && s !in rest :: blocks[v].lastAccess <= blocks[s].lastAccess
        decreases rest
      {
        var s :| s in rest;
        rest := rest - {s};
        if blocks[s].lastAccess < blocks[v].lastAccess { v := s; }
      }
    }

    /** Writes a block back if it is dirty, leaving the block table alone. */
    method WriteBack(dev: Device<T>, s: nat) returns (ok: bool)
      requires Valid(dev.disk) && s in blocks
      modifies dev`disk, this`writebacks
      ensures Valid(dev.disk)
      ensures ok ==> s in old(dev.disk) && dev.disk == old(dev.disk)[s := blocks[s].data]
      ensures !ok ==> dev.disk == old(dev.disk)
      ensures dev.reliable && s in old(dev.disk) ==> ok
    {
      if !blocks[s].dirty {
        assert dev.disk[s := blocks[s].data] == dev.disk;
        return true;
      }
      WrittenBack(dev.disk, blocks, view, s);
      ok := dev.WriteSector(s, blocks[s].data);
      if ok { writebacks := writebacks + 1; }
    }

    /** Evicts the least recently used block; on a failed write-back nothing is dropped. */
    method EvictLru(dev: Device<T>) returns (ok: bool, ghost v: nat)
      requires Valid(dev.disk) && blocks != map[]
      modifies this`blocks, this`writebacks, dev`disk
      ensures Valid(dev.disk) && Mixed(old(dev.disk), view, dev.disk)
      ensures old(LeastRecent(blocks, v)) && blocks == if ok then old(blocks) - {v} else old(blocks)
      ensures ok ==> |blocks| < |old(blocks)|
      ensures dev.reliable && v in old(dev.disk) ==> ok
    {
      var lru := LruSector();
      v := lru;
      ok := WriteBack(dev, lru);
      if ok {
        Dropped(dev.disk, blocks, view, lru);
        blocks := blocks - {lru};
      }
    }

    /** Evicts a block if the table is full. */
    method MakeRoom(dev: Device<T>) returns (ok: bool)
      requires Valid(dev.disk)
      modifies this`blocks, this`writebacks, dev`disk
      ensures Valid(dev.disk) && Mixed(old(dev.disk), view, dev.disk) && Fewer(old(blocks), blocks)
      ensures ok ==> |blocks| < CACHE_MAX_BLOCKS
      ensures dev.reliable && old(blocks.Keys <= dev.disk.Keys) ==> ok
    {
      ok := true;
      if |blocks| >= CACHE_MAX_BLOCKS {
        ghost var v;
        ok, v := EvictLru(dev);
      }
    }

    /** Enters a block just stamped. */
    method Enter(s: nat, b: Block<T>, ghost disk: Disk<T>)
      requires Valid(disk) && (s in blocks || |blocks| < CACHE_MAX_BLOCKS) && b.lastAccess == clock
      requires b.dirty || (s in disk && disk[s] == b.data)
      modifies this`blocks, this`clock, this`owner, this`view
      ensures Valid(disk) && view == old(view)[s := b.data] && blocks == old(blocks)[s := b] && clock == old(clock) + 1
    {
      Entered(disk, blocks, view, clock, owner, s, b);
      blocks := blocks[s := b];
      owner := owner[clock := s];
      clock := clock + 1;
      view := view[s := b.data];
    }

    method Touch(s: nat, ghost disk: Disk<T>)
      requires Valid(disk) && s in blocks
      modifies this`blocks, this`clock, this`owner
      ensures Valid(disk) && blocks.Keys == old(blocks.Keys) && blocks[s].data == old(blocks[s].data)
      ensures Used(old(blocks), blocks, clock, s)
    {
      var b := blocks[s].(lastAccess := clock);
      Refreshed(disk, blocks, view, s, b);
      Stamp(blocks, clock, owner, s, b);
      blocks := blocks[s := b];
      owner := owner[clock := s];
      clock := clock + 1;
    }

    /** The miss path of `read` and `read_mut`: read the sector, make room, insert it clean. */
    method Fetch(dev: Device<T>, s: nat) returns (ok: bool)
      requires Valid(dev.disk) && s !in blocks
      modifies this, dev
      ensures Valid(dev.disk) && view == old(view) && Mixed(old(dev.disk), view, dev.disk)
      ensures blocks.Keys <= old(blocks.Keys) + {s} && dev.failed.Continues(old(dev.failed))
      ensures ok ==> s in blocks && Used(old(blocks), blocks, clock, s)
      ensures dev.reliable && s in old(dev.disk) && old(blocks.Keys <= dev.disk.Keys) ==> ok
    {
      misses := misses + 1;
      var r := dev.ReadSector(s);
      if r.Err? { return false; }
      assert view[s := r.value] == view;
      ok := MakeRoom(dev);
      if ok { Enter(s, Block(r.value, false, clock), dev.disk); }
    }

    /** `read` */
    method Read(dev: Device<T>, s: nat) returns (r: Result<T>)
      requires Valid(dev.disk)
      modifies this, dev
      ensures Valid(dev.disk) && view == old(view) && Mixed(old(dev.disk), view, dev.disk)
      ensures r.Ok? ==> s in view && r.value == view[s] && Used(old(blocks), blocks, clock, s)
    {
      if s in blocks {
        hits := hits + 1;
        Touch(s, dev.disk);
      } else {
        var ok := Fetch(dev, s);
        if !ok { return Err(IoError); }
      }
      return Ok(blocks[s].data);
    }

    /** `read_mut`: the block is in the cache and its contents are handed out for modification. */
    method ReadMut(dev: Device<T>, s: nat) returns (r: Result<T>)
      requires Valid(dev.disk)
      modifies this, dev
      ensures Valid(dev.disk) && view == old(view) && Mixed(old(dev.disk), view, dev.disk)
      ensures blocks.Keys <= old(blocks.Keys) + {s} && dev.failed.Continues(old(dev.failed))
      ensures r.Ok? ==> s in blocks && s in view && r.value == view[s] && Used(old(blocks), blocks, clock, s)
      ensures dev.reliable && s in old(dev.disk) && old(blocks.Keys <= dev.disk.Keys) ==> r.Ok?
    {
      if s !in blocks {
        var ok := Fetch(dev, s);
        if !ok { return Err(IoError); }
      } else {
        hits := hits + 1;
      }
      Touch(s, dev.disk);
      return Ok(blocks[s].data);
    }

    /** A store through the reference `read_mut` gave out; the block is not marked dirty yet. */
    method Poke(s: nat, data: T, ghost disk: Disk<T>)
      requires Valid(disk) && s in blocks
      modifies this`blocks, this`view
      ensures Shows(disk, blocks, view, {s}) && Stamped(blocks, clock, owner) && blocks.Keys == old(blocks.Keys)
      ensures view == old(view)[s := data]
    {
      Edited(disk, blocks, view, s, blocks[s].(data := data), {s});
      KeepStamp(blocks, clock, owner, s, blocks[s].(data := data));
      blocks := blocks[s := blocks[s].(data := data)];
      view := view[s := data];
    }

    method MarkDirty(s: nat, ghost disk: Disk<T>)
      requires Shows(disk, blocks, view, {s}) && Stamped(blocks, clock, owner)
      modifies this`blocks
      ensures Valid(disk) && blocks.Keys == old(blocks.Keys)
    {
      if s in blocks {
        Remarked(disk, blocks, view, s, true);
        KeepStamp(blocks, clock, owner, s, blocks[s].(dirty := true));
        blocks := blocks[s := blocks[s].(dirty := true)];
      }
    }

    /** Contents stored through the reference from `read_mut`, then the block marked dirty. */
    method Modify(s: nat, data: T, ghost disk: Disk<T>)
      requires Valid(disk) && s in blocks
      modifies this`blocks, this`view
      ensures Valid(disk) && blocks.Keys == old(blocks.Keys) && view == old(view)[s := data]
    {
      Poke(s, data, disk);
      MarkDirty(s, disk);
    }

    /** `write`: cached, not flushed; only an eviction it needs can fail. */
    method Write(dev: Device<T>, s: nat, data: T) returns (ok: bool)
      requires Valid(dev.disk)
      modifies this, dev`disk
      ensures Valid(dev.disk) && view == if ok then old(view)[s := data] else old(view)
      ensures Mixed(old(dev.disk), old(view), dev.disk) && blocks.Keys <= old(blocks.Keys) + {s}
      ensures ok ==> Used(old(blocks), blocks, clock, s)
      ensures dev.reliable && old(blocks.Keys <= dev.disk.Keys) ==> ok
    {
      ok := true;
      if s !in blocks { ok := MakeRoom(dev); }
      if ok { Enter(s, Block(data, true, clock), dev.disk); }
    }

    /** A sector outside the cache written straight to the device. */
    method WriteAround(dev: Device<T>, s: nat, data: T) returns (ok: bool)
      requires Valid(dev.disk) && s !in blocks
      modifies this`view, dev`disk
      ensures Valid(dev.disk)
      ensures ok ==> s in old(dev.disk) && dev.disk == old(dev.disk)[s := data] && view == old(view)[s := data]
      ensures !ok ==> dev.disk == old(dev.disk) && view == old(view)
      ensures dev.reliable && s in old(dev.disk) ==> ok
    {
      WrittenAround(dev.disk, blocks, view, s, data);
      ok := dev.WriteSector(s, data);
      if ok { view := view[s := data]; }
    }

    /** `sync_block` */
    method SyncBlock(dev: Device<T>, s: nat) returns (r: Result<bool>)
      requires Valid(dev.disk)
      modifies this`blocks, this`writebacks, dev`disk
      ensures Valid(dev.disk) && blocks.Keys == old(blocks.Keys)
      ensures r.Ok? ==> blocks == old(Cleaned(blocks, s)) && r.value == old(s in blocks && blocks[s].dirty)
      ensures dev.disk == if r.Ok? && r.value then old(dev.disk)[s := view[s]] else old(dev.disk)
      ensures dev.disk.Keys == old(dev.disk.Keys)
      ensures r.Err? ==> blocks == old(blocks)
      ensures dev.reliable && s in old(dev.disk) ==> r.Ok?
    {
      if s in blocks && blocks[s].dirty {
        var ok := WriteBack(dev, s);
        if !ok { return Err(IoError); }
        Washed(dev.disk, blocks, view, clock, owner, s);
        blocks := blocks[s := blocks[s].(dirty := false)];
        return Ok(true);
      }
      return Ok(false);
    }

    /** `sync`: writes every dirty block back, lowest sector first. On success the device holds the view; where it
        fails the sectors below hold the view and the others are untouched. */
    method Sync(dev: Device<T>) returns (r: Result<nat>, ghost cut: nat)
      requires Valid(dev.disk)
      modifies this`blocks, this`writebacks, dev`disk
      ensures Valid(dev.disk) && blocks.Keys == old(blocks.Keys) && dev.disk.Keys == old(dev.disk.Keys)
      ensures r.Ok? ==> dev.disk == view
      ensures r.Err? ==> cut in blocks && Torn(old(dev.disk), view, cut, dev.disk)
      ensures dev.reliable && old(blocks.Keys <= dev.disk.Keys) ==> r.Ok?
    {
      var count := 0;
      var rest := blocks.Keys;
      cut := 0;
      while rest != {}
        invariant rest <= blocks.Keys && blocks.Keys == old(blocks.Keys)
        invariant Valid(dev.disk) && Swept(old(dev.disk), dev.disk, blocks, rest, cut)
        decreases rest
      {
        var s := Lowest(rest);
        ghost var disk, was := dev.disk, blocks;
        var flushed := SyncBlock(dev, s);
        if flushed.Err? {
          SweptIsTorn(old(dev.disk), dev.disk, blocks, view, rest, cut, s);
          return Err(IoError), s;
        }
        SweptOne(old(dev.disk), disk, dev.disk, was, rest, cut, s);
        rest, cut := rest - {s}, s + 1;
        count := count + if flushed.value then 1 else 0;
      }
      AllCleanIsDisk(dev.disk, blocks, view);
      return Ok(count), cut;
    }
  }

  method Lowest(rest: set<nat>) returns (s: nat)
    requires rest != {}
    ensures s in rest && forall t | t in rest :: s <= t
  {
    s :| s in rest;
    var others := rest - {s};
    while others != {}
      invariant s in rest && others <= rest && forall t | t in rest && t !in others :: s <= t
      decreases others
    {
      var t :| t in others;
      others := others - {t};
      if t < s { s := t; }
    }
  }

  // ---------------------------------------------------------------------------
  // Every sequence of operations
  // ---------------------------------------------------------------------------

  datatype Op<T> =
    | ReadOp(s: nat)
    | WriteOp(s: nat, data: T)
    | UpdateOp(s: nat, data: T)
    | SyncOp

  /** The disk of a cacheless implementation after the operations, of which those not `ok` failed. */
  function Replay<T>(disk: Disk<T>, ops: seq<Op<T>>, ok: seq<bool>): Disk<T>
    requires |ops| == |ok|
    decreases |ops|
  {
    if ops == [] then disk
    else
      var n := |ops| - 1;
      var before := Replay(disk, ops[..n], ok[..n]);
      match ops[n]
      case WriteOp(s, data) => if ok[n] then before[s := data] else before
      case UpdateOp(s, data) => if ok[n] then before[s := data] else before
      case _ => before
  }

  /** One operation against the cache: it does what it would do without a cache, or fails and does nothing. */
  method Perform<T>(cache: Cache<T>, dev: Device<T>, op: Op<T>) returns (ok: bool, value: Result<T>)
    requires cache.Valid(dev.disk)
    modifies cache, dev
    ensures cache.Valid(dev.disk)
    ensures cache.view == match op
                          case WriteOp(s, data) => if ok then old(cache.view)[s := data] else old(cache.view)
                          case UpdateOp(s, data) => if ok then old(cache.view)[s := data] else old(cache.view)
                          case _ => old(cache.view)
    ensures ok && op.ReadOp? ==> op.s in cache.view && value == Ok(cache.view[op.s])
    ensures ok && op.SyncOp? ==> dev.disk == cache.view
  {
    value := Err(IoError);
    match op
    case ReadOp(s) =>
      value := cache.Read(dev, s);
      ok := value.Ok?;
    case WriteOp(s, data) =>
      ok := cache.Write(dev, s, data);
    case UpdateOp(s, data) =>
      var r := cache.ReadMut(dev, s);
      ok := r.Ok?;
      if ok {
        cache.Modify(s, data, dev.disk);
      }
    case SyncOp =>
      var r;
      ghost var cut;
      r, cut := cache.Sync(dev);
      ok := r.Ok?;
  }

  /** A successful read returned what the cacheless disk holds at that point. */
  ghost predicate ReadAt<T>(disk: Disk<T>, ops: seq<Op<T>>, ok: seq<bool>, values: seq<Result<T>>, k: nat)
    requires k < |ops| && k < |ok| == |values|
  {
    ok[k] && ops[k].ReadOp? ==>
      var now := Replay(disk, ops[..k], ok[..k]); ops[k].s in now && values[k] == Ok(now[ops[k].s])
  }

  lemma ReadAtKeeps<T>(disk: Disk<T>, ops: seq<Op<T>>, ok: seq<bool>, values: seq<Result<T>>, done: bool,
      value: Result<T>, k: nat)
    requires k < |ops| && k < |ok| == |values| && ReadAt(disk, ops, ok, values, k)
    ensures ReadAt(disk, ops, ok + [done], values + [value], k)
  {
    assert (ok + [done])[..k] == ok[..k];
  }

  lemma ReplayStep<T>(disk: Disk<T>, ops: seq<Op<T>>, ok: seq<bool>, done: bool)
    requires |ok| < |ops|
    ensures var n := |ok|; var before := Replay(disk, ops[..n], ok);
            Replay(disk, ops[..n + 1], ok + [done])
            == match ops[n]
               case WriteOp(s, data) => if done then before[s := data] else before
               case UpdateOp(s, data) => if done then before[s := data] else before
               case _ => before
  {
    var n := |ok|;
    assert ops[..n + 1][..n] == ops[..n] && (ok + [done])[..n] == ok;
  }

  /** Cache transparency: over any operations, with any device errors, the view is the replay of those
      that succeeded, every successful read returned the replayed contents, and after a successful
      sync the device held them. */
  method Execute<T>(cache: Cache<T>, dev: Device<T>, ops: seq<Op<T>>) returns (ok: seq<bool>, values: seq<Result<T>>)
    requires cache.Valid(dev.disk)
    modifies cache, dev
    ensures cache.Valid(dev.disk) && |ok| == |values| == |ops|
    ensures cache.view == Replay(old(cache.view), ops, ok)
    ensures forall i | 0 <= i < |ops| :: ReadAt(old(cache.view), ops, ok, values, i)
    ensures ops != [] && ops[|ops| - 1].SyncOp? && ok[|ops| - 1] ==> dev.disk == cache.view
  {
    ok, values := [], [];
    ghost var start := cache.view;
    for i := 0 to |ops|
      invariant cache.Valid(dev.disk) && |ok| == |values| == i
      invariant cache.view == Replay(start, ops[..i], ok)
      invariant forall k | 0 <= k < i :: ReadAt(start, ops, ok, values, k)
      invariant i > 0 && ops[i - 1].SyncOp? && ok[i - 1] ==> dev.disk == cache.view
    {
      var done, value := Perform(cache, dev, ops[i]);
      ReplayStep(start, ops, ok, done);
      forall k | 0 <= k < i ensures ReadAt(start, ops, ok + [done], values + [value], k) {
        ReadAtKeeps(start, ops, ok, values, done, value, k);
      }
      assert (ok + [done])[..i] == ok;
      ok, values := ok + [done], values + [value];
    }
    assert ops[..|ops|] == ops;
  }
}
