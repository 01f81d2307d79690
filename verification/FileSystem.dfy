/** The kernel's file system: mount, sync, read, write and block allocation. */
module FileSystem {
  import opened Basics
  import opened SfsFormat
  import opened SfsVolume
  import opened SfsIsolation
  import opened SfsWrite
  import BC = BlockCache

  type Dev = BC.Device<Sector>

  class FileSystem {
    var bitmap: Bitmap
    var bitmapDirty: bool
    const cache: BC.Cache<Sector>

    constructor (bitmap: Bitmap, ghost disk: Disk)
      ensures this.bitmap == bitmap && !bitmapDirty && fresh(cache)
      ensures cache.Valid(disk) && cache.view == disk && cache.blocks == map[]
    {
      this.bitmap, bitmapDirty := bitmap, false;
      cache := new BC.Cache(disk);
    }

    /** The cache is sound, holds no sector below the directory, the system sectors are marked, the
        directory exists, and a bitmap that is not dirty is the one on the device. */
    ghost predicate Valid(dev: Dev)
      reads this, cache, dev`disk
    {
      && cache.Valid(dev.disk) && HasDirectory(cache.view)
      && (forall s | s in cache.blocks :: s >= SEC_DIR_START)
      && SystemMarked(bitmap)
      && (!bitmapDirty ==> SEC_MAP_START in cache.view && cache.view[SEC_MAP_START] == bitmap)
    }

    /** A device that never fails and has every sector the bitmap covers and the cache holds. */
    ghost predicate Sturdy(dev: Dev)
      reads cache, dev`disk
    {
      dev.reliable && cache.blocks.Keys <= dev.disk.Keys && forall s | 0 <= s < MAP_BITS :: s in dev.disk
    }

    /** The volume this file system will have written once everything is synced. */
    ghost function Content(): Disk
      reads this, cache
    {
      Volume(cache.view, bitmap)
    }

    /** `alloc_block`: the first unmarked block of the cached bitmap sector. */
    method AllocBlock() returns (r: Option<U32>)
      modifies this`bitmap, this`bitmapDirty
      ensures r == NextFree(old(bitmap), 0)
      ensures bitmap == if r.Some? then WithMark(old(bitmap), r.value) else old(bitmap)
      ensures bitmapDirty == (old(bitmapDirty) || r.Some?)
    {
      for i := 0 to |bitmap|
        invariant bitmap == old(bitmap) && bitmapDirty == old(bitmapDirty)
        invariant NextFree(bitmap, 0) == NextFree(bitmap, 8 * i)
      {
        var bit := FindClearBit(bitmap, i);
        if bit < 8 {
          bitmap := WithMark(bitmap, 8 * i + bit);
          bitmapDirty := true;
          return Some(8 * i + bit);
        }
      }
      return None;
    }

    /** `find_entry_pos`: slot of the first live entry of that name before `lost`, the sector whose read failed, if
        one did. */
    method FindEntryPos(dev: Dev, name: Str) returns (r: Option<nat>, ghost lost: Option<nat>)
      modifies dev`failed
      ensures dev.failed == Noted(old(dev.failed), lost) && r == Find(Readable(dev.disk, lost), name, 0)
      ensures r.Some? || dev.reliable ==> r == Find(dev.disk, name, 0)
    {
      lost := None;
      assert Readable(dev.disk, None) == dev.disk;
      for i := 0 to SEC_DIR_COUNT
        invariant Find(dev.disk, name, 0) == Find(dev.disk, name, 16 * i) && dev.failed == old(dev.failed)
      {
        assert DirSector(16 * i) == SEC_DIR_START + i;
        var buf := dev.ReadSector(SEC_DIR_START + i);
        if buf.Err? {
          FindStops(dev.disk, name, 0, i);
          return None, Some(SEC_DIR_START + i);
        }
        var j := FindInSector(buf.value, name, dev.disk, i);
        if j < 16 { return Some(16 * i + j), None; }
      }
      return None, None;
    }

    /** `find_free_dir_entry`, likewise. */
    method FindFreeDirEntry(dev: Dev) returns (r: Option<nat>)
      modifies dev`failed
      ensures r.Some? || dev.reliable ==> r == FindFree(dev.disk, 0)
      ensures dev.failed.Continues(old(dev.failed))
    {
      for i := 0 to SEC_DIR_COUNT
        invariant FindFree(dev.disk, 0) == FindFree(dev.disk, 16 * i) && dev.failed == old(dev.failed)
      {
        assert DirSector(16 * i) == SEC_DIR_START + i;
        var buf := dev.ReadSector(SEC_DIR_START + i);
        if buf.Err? { return None; }
        var j := FindFreeInSector(buf.value, dev.disk, i);
        if j < 16 { return Some(16 * i + j); }
      }
      return None;
    }

    /** `read_file`, from the device: what it returns is the file, on any device. */
    method ReadFromDevice(dev: Dev, name: Str) returns (r: Option<seq<Byte>>)
      modifies dev`failed
      ensures r.Some? || dev.reliable ==> r == ReadFile(dev.disk, name)
    {
      var k;
      ghost var lost;
      k, lost := FindEntryPos(dev, name);
      if k.None? { return None; }
      var buf := dev.ReadSector(DirSector(k.value));
      if buf.Err? { return None; }
      var entry := buf.value[DirOffset(k.value)..DirOffset(k.value) + 32];
      r := FollowChain(dev, HeadOf(entry), SizeOf(entry));
    }

    /** The loop of `read_file`. */
    method FollowChain(dev: Dev, head: U32, size: U32) returns (r: Option<seq<Byte>>)
      modifies dev`failed
      ensures r.Some? || dev.reliable ==> r == ReadChain(dev.disk, head, size)
    {
      var next: nat, data: seq<Byte> := head, [];
      ghost var whole := ReadChain(dev.disk, head, size);
      assert whole.Some? ==> [] + whole.value == whole.value;
      while next != 0 && |data| < size
        invariant |data| <= size
        invariant Resumed(data, ReadChain(dev.disk, next, size - |data|)) == whole
        decreases size - |data|
      {
        var sector := dev.ReadSector(next);
        if sector.Err? { return None; }
        var chunk := Min(size - |data|, CHUNK);
        ResumedStep(data, sector.value[4..4 + chunk], ReadChain(dev.disk, Link(sector.value), size - |data| - chunk));
        data := data + sector.value[4..4 + chunk];
        next := Link(sector.value);
      }
      assert data + [] == data;
      return Some(data);
    }

    method SyncBitmap(dev: Dev) returns (ok: bool)
      requires Valid(dev)
      modifies this`bitmapDirty, cache`view, dev`disk
      ensures Valid(dev) && Content() == old(Content()) && (ok ==> !bitmapDirty)
      ensures ok ==> SEC_MAP_START in old(dev.disk)
      ensures dev.disk == if ok then Volume(old(dev.disk), bitmap) else old(dev.disk)
      ensures old(Sturdy(dev)) ==> Sturdy(dev) && ok
    {
      ok := true;
      if bitmapDirty {
        ok := cache.WriteAround(dev, SEC_MAP_START, bitmap);
        if ok { bitmapDirty := false; }
      } else {
        assert Volume(dev.disk, bitmap) == dev.disk;
      }
    }

    method SyncCache(dev: Dev) returns (r: BC.Result<nat>, ghost cut: nat)
      requires Valid(dev) && !bitmapDirty
      modifies cache, dev`disk
      ensures Valid(dev) && cache.view == old(cache.view)
      ensures r.Ok? ==> dev.disk == cache.view
      ensures r.Err? ==> cut >= SEC_DIR_START && BC.Torn(old(dev.disk), cache.view, cut, dev.disk)
      ensures old(Sturdy(dev)) ==> Sturdy(dev) && r.Ok?
    {
      r, cut := cache.Sync(dev);
    }

    /** `sync`: the bitmap, then the cached blocks, which are those of higher sectors. Where it fails, the sectors
        below `cut` hold the volume and the others are untouched. */
    method Sync(dev: Dev) returns (r: BC.Result<nat>, ghost cut: nat)
      requires Valid(dev)
      modifies this`bitmapDirty, cache, dev`disk
      ensures Valid(dev) && Content() == old(Content())
      ensures r.Ok? ==> dev.disk == Content()
      ensures r.Err? ==> BC.Torn(old(dev.disk), Content(), cut, dev.disk)
      ensures old(Sturdy(dev)) ==> Sturdy(dev) && r.Ok?
    {
      var ok := SyncBitmap(dev);
      if !ok { return BC.Err(BC.IoError), 0; }
      ghost var disk := dev.disk;
      r, cut := SyncCache(dev);
      if r.Err? { TornWithMap(old(dev.disk), disk, bitmap, cache.view, cut, dev.disk); }
    }

    /** `read_mut` on the cache: the sector is cached and its contents are returned. */
    method Load(dev: Dev, s: nat) returns (r: BC.Result<Sector>)
      requires Valid(dev) && s >= SEC_DIR_START
      modifies cache, dev
      ensures Valid(dev) && cache.view == old(cache.view) && dev.failed.Continues(old(dev.failed))
      ensures BC.Mixed(old(dev.disk), cache.view, dev.disk)
      ensures r.Ok? ==> s in cache.blocks && s in cache.view && r.value == cache.view[s]
      ensures old(Sturdy(dev)) && s < MAP_BITS ==> r.Ok? && Sturdy(dev)
    {
      r := cache.ReadMut(dev, s);
    }

    /** The contents of a cached sector changed and marked dirty. */
    method Store(s: nat, data: Sector, ghost dev: Dev)
      requires Valid(dev) && s in cache.blocks
      modifies cache
      ensures Valid(dev) && cache.view == old(cache.view)[s := data] && (old(Sturdy(dev)) ==> Sturdy(dev))
    {
      cache.Modify(s, data, dev.disk);
    }

    /** `link_block_cached` */
    method LinkBlockCached(dev: Dev, prev: U32, next: U32) returns (ok: bool)
      requires Valid(dev) && prev >= SEC_DATA_START
      modifies cache, dev
      ensures Valid(dev) && BC.Mixed(old(dev.disk), old(cache.view), dev.disk) && dev.failed.Continues(old(dev.failed))
      ensures ok ==> prev in old(cache.view)
                     && cache.view == old(cache.view)[prev := Relinked(old(cache.view)[prev], next)]
      ensures !ok ==> cache.view == old(cache.view)
      ensures old(Sturdy(dev)) && prev < MAP_BITS ==> ok && Sturdy(dev)
    {
      var buf := Load(dev, prev);
      if buf.Err? { return false; }
      Store(prev, Le32(next) + buf.value[4..], dev);
      return true;
    }

    /** The directory entry is read for modification, overwritten and marked dirty. */
    method WriteDirEntry(dev: Dev, p: nat, e: Entry) returns (ok: bool)
      requires Valid(dev) && p < DIR_SLOTS
      modifies cache, dev
      ensures Valid(dev) && BC.Mixed(old(dev.disk), old(cache.view), dev.disk) && dev.failed.Continues(old(dev.failed))
      ensures cache.view == if ok then WithDirEntry(old(cache.view), p, e) else old(cache.view)
      ensures old(Sturdy(dev)) ==> ok && Sturdy(dev)
    {
      var buf := Load(dev, DirSector(p));
      if buf.Err? { return false; }
      Store(DirSector(p), WithEntry(buf.value, p, e), dev);
      return true;
    }

    method PutBlock(dev: Dev, s: U32, data: Sector) returns (ok: bool)
      requires Valid(dev) && s >= SEC_DATA_START
      modifies cache, dev`disk
      ensures Valid(dev) && BC.Mixed(old(dev.disk), old(cache.view), dev.disk)
      ensures cache.view == if ok then old(cache.view)[s := data] else old(cache.view)
      ensures old(Sturdy(dev)) && s < MAP_BITS ==> ok && Sturdy(dev)
    {
      ok := cache.Write(dev, s, data);
    }

    /** Links the last block of the draft, if there is one, to the block just allocated. */
    method LinkLast(dev: Dev, prev: U32, current: U32, ghost d: Draft, ghost from: Origin) returns (ok: bool)
      requires Valid(dev) && d.view == cache.view && prev == LastOf(d.chain) && NextFree(d.bm, 0) == Some(current)
      requires from.Tracks(d) && Confined(from.view, from.bm, d.view, bitmap) && from.Keeps(dev.disk)
      modifies cache, dev
      ensures Valid(dev) && Confined(from.view, from.bm, cache.view, bitmap)
      ensures from.Keeps(dev.disk) && dev.failed.Continues(old(dev.failed))
      ensures ok ==> d.CanGrow() && cache.view == d.Linked()
      ensures old(Sturdy(dev)) ==> Sturdy(dev) && ok
    {
      if prev == 0 { return true; }
      ghost var disk := dev.disk;
      ok := LinkBlockCached(dev, prev, current);
      from.Mixing(d.view, bitmap, disk, dev.disk);
      if ok { ConfinedPut(from.view, from.bm, d.view, bitmap, prev, Relinked(d.view[prev], current)); }
    }

    /** Writes the chunk to the block just allocated and linked. */
    method PutNext(dev: Dev, current: U32, bytes: seq<Byte>, ghost d: Draft, ghost from: Origin) returns (ok: bool)
      requires Valid(dev) && NextFree(d.bm, 0) == Some(current) && d.CanGrow() && |bytes| <= CHUNK
      requires cache.view == d.Linked() && bitmap == WithMark(d.bm, current) && FreeIn(from.bm, current)
      requires from.Keeps(dev.disk) && Confined(from.view, from.bm, cache.view, bitmap) && SystemMarked(from.bm)
      modifies cache, dev`disk
      ensures Valid(dev) && Confined(from.view, from.bm, cache.view, bitmap) && from.Keeps(dev.disk)
      ensures ok ==> && d.Grown(bytes) == Draft(cache.view, bitmap, d.chain + [current])
                     && from.Tracks(d.Grown(bytes))
      ensures old(Sturdy(dev)) ==> Sturdy(dev) && ok
    {
      ghost var disk := dev.disk;
      ok := PutBlock(dev, current, ChunkSector(0, bytes));
      from.Mixing(d.Linked(), bitmap, disk, dev.disk);
      if ok { ConfinedPut(from.view, from.bm, d.Linked(), bitmap, current, ChunkSector(0, bytes)); }
    }

    /** One turn of the write loop: allocate a block, link the previous one to it, write the chunk. */
    method AppendBlock(dev: Dev, prev: U32, bytes: seq<Byte>, ghost d: Draft, ghost from: Origin)
      returns (r: BC.Result<U32>)
      requires Valid(dev) && d.view == cache.view && d.bm == bitmap && prev == LastOf(d.chain) && |bytes| <= CHUNK
      requires from.Tracks(d) && from.Keeps(dev.disk)
      modifies this`bitmap, this`bitmapDirty, cache, dev
      ensures Valid(dev) && Confined(from.view, from.bm, cache.view, bitmap)
      ensures from.Keeps(dev.disk) && dev.failed.Continues(old(dev.failed))
      ensures r.Ok? ==> && d.CanGrow() && d.Grown(bytes) == Draft(cache.view, bitmap, d.chain + [r.value])
                        && r.value != 0 && from.Tracks(d.Grown(bytes))
      ensures r == BC.Err(BC.DiskFull) <==> NextFree(d.bm, 0).None?
      ensures r != BC.Err(BC.RootDirFull)
      ensures old(Sturdy(dev)) ==> Sturdy(dev) && r != BC.Err(BC.IoError)
    {
      var block := AllocBlock();
      if block.None? { return BC.Err(BC.DiskFull); }
      var current := block.value;
      from.MarkNext(d, current);
      var ok := LinkLast(dev, prev, current, d, from);
      if !ok { return BC.Err(BC.IoError); }
      ok := PutNext(dev, current, bytes, d, from);
      return if ok then BC.Ok(current) else BC.Err(BC.IoError);
    }

    /** The next chunk of the data appended; `rest` and `g` are what remains and the draft after it. */
    method AppendChunk(dev: Dev, prev: U32, data: seq<Byte>, ghost d: Draft, ghost from: Origin)
      returns (r: BC.Result<U32>, rest: seq<Byte>, ghost g: Draft)
      requires Valid(dev) && d.view == cache.view && d.bm == bitmap && prev == LastOf(d.chain) && data != []
      requires from.Tracks(d) && from.Keeps(dev.disk)
      modifies this`bitmap, this`bitmapDirty, cache, dev
      ensures Valid(dev) && Confined(from.view, from.bm, cache.view, bitmap)
      ensures from.Keeps(dev.disk) && dev.failed.Continues(old(dev.failed))
      ensures r.Ok? ==> && |rest| < |data| && WriteAll(g, rest) == WriteAll(d, data) && from.Tracks(g)
                        && g == Draft(cache.view, bitmap, g.chain) && r.value == LastOf(g.chain) != 0
                        && HeadOfChain(g.chain) == if d.chain == [] then r.value else HeadOfChain(d.chain)
      ensures r == BC.Err(BC.DiskFull) ==> WriteAll(d, data).None?
      ensures r != BC.Err(BC.RootDirFull)
      ensures old(Sturdy(dev)) ==> Sturdy(dev) && r != BC.Err(BC.IoError)
    {
      var len := Min(|data|, CHUNK);
      rest, g := data[len..], d;
      r := AppendBlock(dev, prev, data[..len], d, from);
      if r.Ok? { g := d.Grown(data[..len]); }
    }

    /** The write loop of `write_file`: one block per chunk, linked in order. */
    method WriteChunks(dev: Dev, data: seq<Byte>, ghost from: Origin) returns (r: BC.Result<U32>, ghost d: Draft)
      requires Valid(dev) && from == Origin(cache.view, bitmap, dev.disk)
      modifies this`bitmap, this`bitmapDirty, cache, dev
      ensures Valid(dev) && Confined(from.view, from.bm, cache.view, bitmap)
      ensures from.Keeps(dev.disk) && dev.failed.Continues(old(dev.failed))
      ensures r.Ok? ==> && WriteAll(Draft(from.view, from.bm, []), data) == Some(d)
                        && d == Draft(cache.view, bitmap, d.chain) && r.value == HeadOfChain(d.chain)
      ensures r == BC.Err(BC.DiskFull) ==> WriteAll(Draft(from.view, from.bm, []), data).None?
      ensures r != BC.Err(BC.RootDirFull)
      ensures old(Sturdy(dev)) ==> Sturdy(dev) && r != BC.Err(BC.IoError)
    {
      var remaining, head: U32, prev: U32 := data, 0, 0;
      d := Draft(cache.view, bitmap, []);
      ghost var goal := WriteAll(d, data);
      while remaining != []
        invariant Valid(dev) && d == Draft(cache.view, bitmap, d.chain) && from.Tracks(d)
        invariant from.Keeps(dev.disk) && dev.failed.Continues(old(dev.failed))
        invariant WriteAll(d, remaining) == goal
        invariant head == HeadOfChain(d.chain) && prev == LastOf(d.chain) && (head == 0 <==> d.chain == [])
        invariant old(Sturdy(dev)) ==> Sturdy(dev)
        decreases |remaining|
      {
        ghost var failed := dev.failed;
        r, remaining, d := AppendChunk(dev, prev, remaining, d, from);
        dev.failed.ContinuesOn(old(dev.failed), failed);
        if r.Err? { return; }
        if head == 0 { head := r.value; }
        prev := r.value;
      }
      return BC.Ok(head), d;
    }

    /** The search of `write_file`: the entry of that name, or else a free one. */
    method FindSlot(dev: Dev, name: Str) returns (slot: Option<nat>, ghost lost: Option<nat>)
      modifies dev`failed
      ensures dev.failed.Continues(Noted(old(dev.failed), lost))
      ensures slot.Some? ==> Scanned(dev.disk, name, slot.value, lost)
      ensures dev.reliable ==> slot == Target(dev.disk, name)
    {
      slot, lost := FindEntryPos(dev, name);
      if slot.None? { slot := FindFreeDirEntry(dev); }
    }

    /** The rest of `write_file` once the slot is known: the chunks, then the entry. */
    method WriteInSlot(dev: Dev, p: nat, name: Str, data: seq<Byte>, ghost from: Origin)
      returns (r: BC.Result<()>, ghost d: Draft)
      requires Valid(dev) && p < DIR_SLOTS && from == Origin(cache.view, bitmap, dev.disk)
      modifies this`bitmap, this`bitmapDirty, cache, dev
      ensures Valid(dev) && from.Keeps(dev.disk) && dev.failed.Continues(old(dev.failed))
      ensures r.Ok? ==> WroteFile(from.view, from.bm, cache.view, bitmap, p, name, data, d)
      ensures r.Err? ==> Confined(from.view, from.bm, cache.view, bitmap)
      ensures r == BC.Err(BC.DiskFull) ==> WriteAll(Draft(from.view, from.bm, []), data).None?
      ensures r != BC.Err(BC.RootDirFull)
      ensures old(Sturdy(dev)) ==> Sturdy(dev) && r != BC.Err(BC.IoError)
    {
      var head;
      head, d := WriteChunks(dev, data, from);
      if head.Err? { return BC.Err(head.error), d; }
      ghost var disk, failed := dev.disk, dev.failed;
      var ok := WriteDirEntry(dev, p, EntryBytes(name, |data| % 0x1_0000_0000, head.value));
      from.Mixing(d.view, bitmap, disk, dev.disk);
      dev.failed.ContinuesOn(old(dev.failed), failed);
      r := if ok then BC.Ok(()) else BC.Err(BC.IoError);
    }

    /** `write_file`: find the entry or a free one on the device, write the chunks, then the entry. `lost` is
        the sector at which the search for the entry stopped, if it could not read one. */
    method WriteFile(dev: Dev, name: Str, data: seq<Byte>)
      returns (r: BC.Result<()>, ghost p: nat, ghost d: Draft, ghost lost: Option<nat>)
      requires Valid(dev)
      modifies this`bitmap, this`bitmapDirty, cache, dev
      ensures Valid(dev) && Origin(old(cache.view), old(bitmap), old(dev.disk)).Keeps(dev.disk)
      ensures r.Ok? ==> WroteFile(old(cache.view), old(bitmap), cache.view, bitmap, p, name, data, d)
      ensures r.Ok? ==> Scanned(old(dev.disk), name, p, lost)
      ensures dev.failed.Continues(Noted(old(dev.failed), lost))
      ensures r.Ok? && dev.reliable ==> Target(old(dev.disk), name) == Some(p)
      ensures r.Err? ==> Confined(old(cache.view), old(bitmap), cache.view, bitmap)
      ensures r == BC.Err(BC.DiskFull) ==> WriteAll(Draft(old(cache.view), old(bitmap), []), data).None?
      ensures dev.reliable ==> (r == BC.Err(BC.RootDirFull) <==> Target(old(dev.disk), name).None?)
      ensures old(Sturdy(dev)) ==> Sturdy(dev) && r != BC.Err(BC.IoError)
    {
      p, d := 0, Draft(cache.view, bitmap, []);
      var slot;
      slot, lost := FindSlot(dev, name);
      if slot.None? { return BC.Err(BC.RootDirFull), p, d, lost; }
      p := slot.value;
      ghost var failed := dev.failed;
      r, d := WriteInSlot(dev, slot.value, name, data, Origin(cache.view, bitmap, dev.disk));
      dev.failed.ContinuesOn(Noted(old(dev.failed), lost), failed);
    }
  }

  /** The device's log with the sector whose read failed, if one did. */
  ghost function Noted(log: BC.Log, lost: Option<nat>): BC.Log { if lost.None? then log else BC.Then(log, lost.value) }

  /** What a search sees of the disk when it cannot read the `lost` sector. */
  ghost function Readable(d: Disk, lost: Option<nat>): Disk { map s | s in d && lost != Some(s) :: d[s] }

  /** The bitmap's sector lies below every cached one. */
  lemma TornWithMap(disk0: Disk, disk1: Disk, bm: Bitmap, view: Disk, cut: nat, disk2: Disk)
    requires SEC_MAP_START in disk0 && disk1 == Volume(disk0, bm) && cut > SEC_MAP_START
    requires BC.Torn(disk1, view, cut, disk2) && SEC_MAP_START in view && view[SEC_MAP_START] == bm
    ensures BC.Torn(disk0, Volume(view, bm), cut, disk2)
  {
  }

  /** A search that cannot read sector `i` of the directory ends there, as if the sector did not exist. */
  lemma {:induction false} FindStops(d: Disk, name: Str, k: nat, i: nat)
    requires i < SEC_DIR_COUNT && k <= 16 * i && Find(d, name, k) == Find(d, name, 16 * i)
    ensures Find(Readable(d, Some(SEC_DIR_START + i)), name, k) == None
    decreases 16 * i - k
  {
    if k < 16 * i && DirSector(k) in d { FindStops(d, name, k + 1, i); }
  }

  /** The slot was found by a search that could not read the `lost` sector, or is the first free one. */
  ghost predicate Scanned(d: Disk, name: Str, p: nat, lost: Option<nat>) {
    && (Find(d, name, 0) == Some(p) || FindFree(d, 0) == Some(p))
    && Some(p) == var found := Find(Readable(d, lost), name, 0); if found.Some? then found else FindFree(d, 0)
  }

  lemma ScannedIsChosen(d: Disk, name: Str, p: nat, lost: Option<nat>)
    requires Scanned(d, name, p, lost)
    ensures Chosen(d, name, p)
  {
  }

  predicate HasMagic(d: Disk) { SEC_SUPER in d && FromLe32(d[SEC_SUPER][..4]) == MAGIC }

  /** `FileSystem::init`: checks the magic number and loads the first bitmap sector. */
  method Mount(dev: Dev) returns (r: Option<FileSystem>)
    modifies dev`failed
    ensures r.Some? ==> && fresh(r.value) && fresh(r.value.cache) && HasMagic(dev.disk)
                        && SEC_MAP_START in dev.disk && r.value.bitmap == dev.disk[SEC_MAP_START]
                        && r.value.Content() == dev.disk
                        && (HasDirectory(dev.disk) && SystemMarked(r.value.bitmap) ==> r.value.Valid(dev))
    ensures dev.reliable && HasMagic(dev.disk) && SEC_MAP_START in dev.disk ==> r.Some?
  {
    var buf := dev.ReadSector(SEC_SUPER);
    if buf.Err? || FromLe32(buf.value[..4]) != MAGIC { return None; }
    buf := dev.ReadSector(SEC_MAP_START);
    if buf.Err? { return None; }
    var fs := new FileSystem(buf.value, dev.disk);
    return Some(fs);
  }

  /** The whole of the data drafted from free blocks, and the entry in slot `p` pointing to it. */
  ghost predicate WroteFile(view: Disk, bm: Bitmap, view': Disk, bm': Bitmap, p: nat, name: Str, data: seq<Byte>,
      d: Draft)
  {
    && p < DIR_SLOTS && DirSector(p) in d.view
    && WriteAll(Draft(view, bm, []), data) == Some(d) && bm' == d.bm
    && view' == WithDirEntry(d.view, p, EntryBytes(name, |data| % 0x1_0000_0000, HeadOfChain(d.chain)))
  }

  /** What a write starts from. */
  datatype Origin = Origin(view: Disk, bm: Bitmap, disk: Disk) {
    /** The draft changed only blocks that were free, and its last block is one of them. */
    ghost predicate Tracks(d: Draft) {
      && Confined(view, bm, d.view, d.bm) && SystemMarked(bm)
      && (d.chain != [] ==> FreeIn(bm, LastOf(d.chain)) && LastOf(d.chain) in d.view)
    }

    /** The next free block of a draft was free at the start. */
    lemma MarkNext(d: Draft, current: U32)
      requires Tracks(d) && NextFree(d.bm, 0) == Some(current)
      ensures FreeIn(bm, current) && Confined(view, bm, d.view, WithMark(d.bm, current))
      ensures SystemMarked(WithMark(d.bm, current))
    {
      ConfinedMark(view, bm, d.view, d.bm, current);
    }

    /** On the device a sector that was not free is as it was or as the view showed it at the start. */
    ghost predicate Keeps(disk': Disk) {
      && disk'.Keys == disk.Keys
      && forall s: nat | s in disk' && !FreeIn(bm, s) :: disk'[s] == disk[s] || (s in view && disk'[s] == view[s])
    }

    /** Evictions do not disturb those sectors, whatever was written to free blocks in the meantime. */
    lemma Mixing(view': Disk, bm': Bitmap, disk1: Disk, disk2: Disk)
      requires Keeps(disk1) && Confined(view, bm, view', bm') && BC.Mixed(disk1, view', disk2)
      ensures Keeps(disk2)
    {
    }
  }

  /** The last block of a chain, 0 if there is none. */
  function LastOf(chain: seq<U32>): U32 { if chain == [] then 0 else chain[|chain| - 1] }

  lemma SlotAt(i: nat, j: nat)
    requires j < 16
    ensures DirSector(16 * i + j) == SEC_DIR_START + i && DirOffset(16 * i + j) == 32 * j
  {
    assert (16 * i + j) / 16 == i && (16 * i + j) % 16 == j;
  }

  /** The inner loop of `find_entry_pos`: the first match in one directory sector, or 16. */
  method FindInSector(buf: Sector, name: Str, ghost d: Disk, i: nat) returns (j: nat)
    requires i < SEC_DIR_COUNT && SEC_DIR_START + i in d && d[SEC_DIR_START + i] == buf
    ensures j <= 16 && Find(d, name, 16 * i) == if j < 16 then Some(16 * i + j) else Find(d, name, 16 * i + 16)
  {
    j := 0;
    while j < 16
      invariant j <= 16 && Find(d, name, 16 * i) == Find(d, name, 16 * i + j)
    {
      FindOne(buf, name, d, i, j);
      var entry := buf[j * 32..j * 32 + 32];
      if entry[0] != 0 && NameOf(entry) == name { return; }
      j := j + 1;
    }
  }

  lemma FindOne(buf: Sector, name: Str, d: Disk, i: nat, j: nat)
    requires i < SEC_DIR_COUNT && SEC_DIR_START + i in d && d[SEC_DIR_START + i] == buf && j < 16
    ensures var e: Entry := buf[j * 32..j * 32 + 32];
            Find(d, name, 16 * i + j)
            == if e[0] != 0 && NameOf(e) == name then Some(16 * i + j) else Find(d, name, 16 * i + j + 1)
  {
    SlotAt(i, j);
  }

  method FindFreeInSector(buf: Sector, ghost d: Disk, i: nat) returns (j: nat)
    requires i < SEC_DIR_COUNT && SEC_DIR_START + i in d && d[SEC_DIR_START + i] == buf
    ensures j <= 16 && FindFree(d, 16 * i) == if j < 16 then Some(16 * i + j) else FindFree(d, 16 * i + 16)
  {
    j := 0;
    while j < 16
      invariant j <= 16 && FindFree(d, 16 * i) == FindFree(d, 16 * i + j)
    {
      FindFreeOne(buf, d, i, j);
      if buf[j * 32] == 0 { return; }
      j := j + 1;
    }
  }

  lemma FindFreeOne(buf: Sector, d: Disk, i: nat, j: nat)
    requires i < SEC_DIR_COUNT && SEC_DIR_START + i in d && d[SEC_DIR_START + i] == buf && j < 16
    ensures FindFree(d, 16 * i + j) == if buf[j * 32] == 0 then Some(16 * i + j) else FindFree(d, 16 * i + j + 1)
  {
    SlotAt(i, j);
  }

  /** What was read so far followed by the rest, if the rest can be read. */
  function Resumed(data: seq<Byte>, rest: Option<seq<Byte>>): Option<seq<Byte>> {
    if rest.None? then None else Some(data + rest.value)
  }

  lemma ResumedStep(data: seq<Byte>, chunk: seq<Byte>, rest: Option<seq<Byte>>)
    ensures Resumed(data, Resumed(chunk, rest)) == Resumed(data + chunk, rest)
  {
    if rest.Some? { assert data + (chunk + rest.value) == (data + chunk) + rest.value; }
  }
}
