/** The image builder's own steps: reserve, import each file, store the bitmap. */
module MkfsBuild {
  import opened Basics
  import opened SfsFormat
  import opened SfsVolume
  import opened SfsIsolation
  import opened SfsWrite
  import opened Mkfs
  import opened MkfsImage
  import FS = FileSystem
  import T = SfsTheorems

  // ---------------------------------------------------------------------------
  // Room: the builder never frees, so its bitmap is always a prefix
  // ---------------------------------------------------------------------------

  ghost predicate Prefix(bm: seq<Byte>, n: nat) {
    n <= 8 * |bm| && forall t | 0 <= t < 8 * |bm| :: Marked(bm, t) <==> t < n
  }

  lemma PrefixNext(bm: seq<Byte>, n: nat)
    requires |bm| <= BITMAP_BYTES && Prefix(bm, n)
    ensures NextFree(bm, 0) == if n < 8 * |bm| then Some(n) else None
  {
    NextFreeSkips(bm, 0, n);
  }

  lemma PrefixGrows(bm: seq<Byte>, n: nat)
    requires Prefix(bm, n) && n < 8 * |bm|
    ensures Prefix(WithMark(bm, n), n + 1)
  {
    forall t | 0 <= t < 8 * |bm| ensures Marked(WithMark(bm, n), t) <==> t < n + 1 { WithMarkIsExact(bm, n, t); }
  }

  lemma {:induction false} LayIffRoom(d: Disk, bm: seq<Byte>, current: U32, data: seq<Byte>, n: nat)
    requires |bm| <= BITMAP_BYTES && data != [] && Prefix(bm, n)
    ensures var r := LayFrom(d, bm, current, data);
            && (r.Some? <==> n + ChunkCount(data) - 1 <= 8 * |bm|)
            && (r.Some? ==> Prefix(r.value.bm, n + ChunkCount(data) - 1))
    decreases |data|
  {
    PrefixNext(bm, n);
    if |data| > CHUNK {
      ChunkShift(data, 0);
      if n < 8 * |bm| {
        PrefixGrows(bm, n);
        LayIffRoom(d[current := ChunkSector(n, data[..CHUNK])], WithMark(bm, n), n, data[CHUNK..], n + 1);
      }
    } else {
      assert data[Min(|data|, CHUNK)..] == [];
    }
  }

  /** A file is laid exactly when its chunks fit behind the blocks in use, and takes that many. */
  lemma LaidOutIffRoom(d: Disk, bm: seq<Byte>, data: seq<Byte>, n: nat)
    requires |bm| <= BITMAP_BYTES && Prefix(bm, n)
    ensures var r := LaidOut(d, bm, data);
            && (r.Some? <==> n + ChunkCount(data) <= 8 * |bm|)
            && (r.Some? ==> Prefix(r.value.bm, n + ChunkCount(data)))
  {
    PrefixNext(bm, n);
    if data != [] && n < 8 * |bm| {
      PrefixGrows(bm, n);
      LayIffRoom(d, WithMark(bm, n), n, data, n + 1);
    }
  }

  function Blocks(files: seq<HostFile>): nat {
    if files == [] then 0 else Blocks(files[..|files| - 1]) + ChunkCount(files[|files| - 1].data)
  }

  /** The host files the builder imports: those whose name fits. */
  function Kept(files: seq<HostFile>): seq<HostFile> {
    if files == [] then []
    else
      var f := files[|files| - 1];
      if |f.name| <= NAME_MAX then Kept(files[..|files| - 1]) + [f] else Kept(files[..|files| - 1])
  }

  /** What is kept of one file. */
  function KeptOf(f: HostFile): seq<HostFile> { if |f.name| <= 23 then [f] else [] }

  lemma KeptLast(files: seq<HostFile>, f: HostFile)
    ensures Kept(files + [f]) == Kept(files) + KeptOf(f)
  {
    var all := files + [f];
    assert all[..|all| - 1] == files && all[|all| - 1] == f && Kept(files) + [] == Kept(files);
  }

  /** The kept files are those of up to 23 bytes of name, in the order given. */
  lemma {:induction false} KeptInOrder(before: seq<HostFile>, f: HostFile, after: seq<HostFile>)
    ensures Kept(before + [f] + after) == Kept(before) + KeptOf(f) + Kept(after)
    decreases |after|
  {
    if after == [] {
      assert before + [f] + after == before + [f];
      KeptLast(before, f);
    } else {
      var front, last := after[..|after| - 1], after[|after| - 1];
      KeptInOrder(before, f, front);
      assert before + [f] + after == before + [f] + front + [last] && after == front + [last];
      KeptLast(before + [f] + front, last);
      KeptLast(front, last);
      assert Kept(before) + KeptOf(f) + Kept(front) + KeptOf(last)
          == Kept(before) + KeptOf(f) + (Kept(front) + KeptOf(last));
    }
  }

  // ---------------------------------------------------------------------------
  // What the directory lists, also past its last slot
  // ---------------------------------------------------------------------------

  /** The first slots list the names of the files, the rest are free. */
  ghost predicate Lists(d: Disk, bm: seq<Byte>, files: seq<HostFile>) {
    && HasDirectory(d) && |bm| == BITMAP_BYTES && SystemMarked(bm)
    && forall k | 0 <= k < DIR_SLOTS ::
         if k < |files| then Live(EntryAt(d, k)) && NameOf(EntryAt(d, k)) == files[k].name else !Live(EntryAt(d, k))
  }

  function SectorOf(d: Disk, s: nat): Sector { if s in d then d[s] else Zeros(512) }

  function Spliced(s: Sector, at: nat, bytes: seq<Byte>): Sector
    requires at + |bytes| <= 512
  {
    s[..at] + bytes + s[at + |bytes|..]
  }

  /** Three writes in a row make one entry. */
  lemma SplicedEntry(s: Sector, at: nat, name: Str, size: U32, head: U32)
    requires at + 32 <= 512
    ensures Spliced(Spliced(Spliced(s, at, NameField(name)), at + 24, Le32(size)), at + 28, Le32(head))
         == Spliced(s, at, EntryBytes(name, size, head))
  {
  }

  lemma WholeSector(s: Sector, bytes: Sector)
    ensures Spliced(s, 0, bytes) == bytes
  {
  }

  /** An entry written into a sector reads back, and the sector's other entries are as before. */
  lemma EntryInSector(s: Sector, k: nat, e: Entry)
    ensures Spliced(s, DirOffset(k), e) == WithEntry(s, k, e)
    ensures forall j: nat ::
              WithEntry(s, k, e)[DirOffset(j)..DirOffset(j) + 32]
              == if k % 16 == j % 16 then e else s[DirOffset(j)..DirOffset(j) + 32]
  {
    forall j: nat
      ensures WithEntry(s, k, e)[DirOffset(j)..DirOffset(j) + 32]
                == if k % 16 == j % 16 then e else s[DirOffset(j)..DirOffset(j) + 32]
    {
      WithEntryIsExact(s, k, e, j);
    }
  }

  /** `write_dir_entry` at any index: the slot after the last is in the first data sector. */
  function WithEntryAt(d: Disk, n: nat, e: Entry): Disk {
    d[DirSector(n) := WithEntry(SectorOf(d, DirSector(n)), n, e)]
  }

  lemma SlotInDirectoryIff(n: nat)
    ensures DirSector(n) < SEC_DATA_START <==> n < DIR_SLOTS
  {
  }

  lemma EntryWritten(d: Disk, n: nat, e: Entry, k: nat)
    requires HasDirectory(d) && k < DIR_SLOTS
    ensures DirSector(k) in d && DirSector(k) in WithEntryAt(d, n, e)
    ensures EntryAt(WithEntryAt(d, n, e), k) == if k == n then e else EntryAt(d, k)
  {
    DirSectorRange(k);
    SlotInDirectoryIff(n);
    if n < DIR_SLOTS { EntriesAfterUpdate(d, n, e, k); }
  }

  lemma EntriesOf(d: Disk, bm: seq<Byte>, l: Layout, n: nat, e: Entry)
    requires HasDirectory(d) && Allocated(bm, l.bm, l.chain) && OnlyChain(d, l.disk, l.chain)
    ensures HasDirectory(WithEntryAt(l.disk, n, e))
    ensures forall k | 0 <= k < DIR_SLOTS ::
              EntryAt(WithEntryAt(l.disk, n, e), k) == if k == n then e else EntryAt(d, k)
  {
    DirectoryOutsideChain(d, l.disk, bm, l.bm, l.chain);
    forall k | 0 <= k < DIR_SLOTS
      ensures EntryAt(WithEntryAt(l.disk, n, e), k) == if k == n then e else EntryAt(d, k)
    {
      EntriesOutsideChain(d, l.disk, bm, l.bm, l.chain, k);
      EntryWritten(l.disk, n, e, k);
    }
  }

  lemma ListsExtend(d: Disk, bm: seq<Byte>, d': Disk, bm': seq<Byte>, files: seq<HostFile>, f: HostFile, e: Entry)
    requires Lists(d, bm, files) && HasDirectory(d') && |bm'| == BITMAP_BYTES && SystemMarked(bm') && Live(e)
             && NameOf(e) == f.name
    requires forall k | 0 <= k < DIR_SLOTS :: EntryAt(d', k) == if k == |files| then e else EntryAt(d, k)
    ensures Lists(d', bm', files + [f])
  {
  }

  lemma ListsGrow(d: Disk, bm: seq<Byte>, files: seq<HostFile>, f: HostFile, l: Layout, size: U32)
    requires Lists(d, bm, files) && Keeps(f) && LaidOut(d, bm, f.data) == Some(l)
    ensures Lists(WithEntryAt(l.disk, |files|, EntryBytes(f.name, size, HeadOfChain(l.chain))), l.bm, files + [f])
  {
    LaidOutIsSound(d, bm, f.data);
    SystemStaysMarked(bm, l.bm, l.chain);
    var e := EntryBytes(f.name, size, HeadOfChain(l.chain));
    EntryRoundTrip(f.name, size, HeadOfChain(l.chain));
    EntriesOf(d, bm, l, |files|, e);
    ListsExtend(d, bm, WithEntryAt(l.disk, |files|, e), l.bm, files, f, e);
  }

  // ---------------------------------------------------------------------------
  // The builder
  // ---------------------------------------------------------------------------

  /** The reserved sectors, marked one by one in an empty bitmap. */
  method ReservedBitmap() returns (bm: seq<Byte>)
    ensures |bm| == BITMAP_BYTES && Prefix(bm, SEC_DATA_START)
  {
    bm := Zeros(BITMAP_BYTES);
    forall t | 0 <= t < 8 * |bm| ensures !Marked(bm, t) { ZeroHasNoBit(t % 8); }
    for i := 0 to SEC_DATA_START
      invariant |bm| == BITMAP_BYTES && Prefix(bm, i)
    {
      PrefixGrows(bm, i);
      bm := WithMark(bm, i);
    }
  }

  lemma {:induction false} ZeroHasNoBit(k: nat)
    ensures !Bit(0, k)
  {
    if k > 0 { ZeroHasNoBit(k - 1); }
  }

  /** Magic number and sector count, then zeros. */
  function Superblock(total: nat): Sector { Le32(MAGIC) + Le32(total % 0x1_0000_0000) + Zeros(504) }

  function BlankSector(s: nat): Sector { Zeros(512) }

  /** A new image file: all zeros but for the superblock. */
  function EmptyImage(sizeMb: nat): Disk {
    (map s: nat | s < 2048 * sizeMb :: BlankSector(s))[SEC_SUPER := Superblock(2048 * sizeMb)]
  }

  function Prepended(chain: seq<U32>, r: Option<Layout>): Option<Layout> {
    if r.None? then None else Some(r.value.(chain := chain + r.value.chain))
  }

  lemma PrependedToNothing(r: Option<Layout>)
    ensures Prepended([], r) == r
  {
    if r.Some? { assert [] + r.value.chain == r.value.chain; }
  }

  /** One round of the loop of `write_data`. */
  lemma PrependedRound(chain: seq<U32>, d: Disk, bm: seq<Byte>, current: U32, data: seq<Byte>)
    requires |bm| == BITMAP_BYTES && data != []
    ensures var n, free := Min(|data|, CHUNK), NextFree(bm, 0);
            Prepended(chain, LayFrom(d, bm, current, data)) == (
              if data[n..] == [] then Some(Layout(d[current := ChunkSector(0, data[..n])], bm, chain + [current]))
              else if free.None? then None
              else Prepended(chain + [current],
                             LayFrom(d[current := ChunkSector(free.value, data[..n])], WithMark(bm, free.value),
                                     free.value, data[n..])))
  {
    var n, free := Min(|data|, CHUNK), NextFree(bm, 0);
    if data[n..] == [] {
      assert data[..n] == data;
    } else if free.Some? {
      var rest := LayFrom(d[current := ChunkSector(free.value, data[..n])], WithMark(bm, free.value), free.value,
                          data[n..]);
      if rest.Some? { assert chain + ([current] + rest.value.chain) == (chain + [current]) + rest.value.chain; }
    }
  }

  class Builder {
    var disk: Disk
    var bitmap: seq<Byte>

    constructor (sizeMb: nat)
      requires sizeMb >= 1
      ensures disk == EmptyImage(sizeMb) && |bitmap| == BITMAP_BYTES && Prefix(bitmap, SEC_DATA_START)
    {
      var reserved := ReservedBitmap();
      disk, bitmap := EmptyImage(sizeMb), reserved;
    }

    /** `find_free_sector` */
    method FindFreeSector() returns (r: Option<U32>)
      requires |bitmap| == BITMAP_BYTES
      modifies this`bitmap
      ensures r == NextFree(old(bitmap), 0)
      ensures bitmap == if r.Some? then WithMark(old(bitmap), r.value) else old(bitmap)
    {
      for i := 0 to |bitmap|
        invariant bitmap == old(bitmap) && NextFree(bitmap, 0) == NextFree(bitmap, 8 * i)
      {
        var bit := FindClearBit(bitmap, i);
        if bit < 8 {
          bitmap := WithMark(bitmap, 8 * i + bit);
          return Some(8 * i + bit);
        }
      }
      return None;
    }

    /** `write_data`: lays the data in a chain and returns its head, or stops the build when the disk is full. */
    method WriteData(data: seq<Byte>) returns (r: Option<U32>, ghost chain: seq<U32>)
      requires |bitmap| == BITMAP_BYTES
      modifies this
      ensures |bitmap| == BITMAP_BYTES
      ensures r.None? <==> LaidOut(old(disk), old(bitmap), data).None?
      ensures r.Some? ==> && LaidOut(old(disk), old(bitmap), data) == Some(Layout(disk, bitmap, chain))
                          && r.value == HeadOfChain(chain)
    {
      chain := [];
      if data == [] { return Some(0), []; }
      ghost var goal := LaidOut(disk, bitmap, data);
      var remaining := data;
      var head := FindFreeSector();
      if head.None? { return None, []; }
      var current := head.value;
      PrependedToNothing(LayFrom(disk, bitmap, current, data));
      while remaining != []
        invariant |bitmap| == BITMAP_BYTES
        invariant remaining != [] ==> goal == Prepended(chain, LayFrom(disk, bitmap, current, remaining))
        invariant remaining == [] ==> goal == Some(Layout(disk, bitmap, chain))
        invariant head.value == HeadOfChain(chain + [current])
        invariant remaining == [] ==> chain != []
        decreases |remaining|
      {
        PrependedRound(chain, disk, bitmap, current, remaining);
        var n := Min(|remaining|, CHUNK);
        var chunk := remaining[..n];
        remaining := remaining[n..];
        var next: U32 := 0;
        if remaining != [] {
          var free := FindFreeSector();
          if free.None? { return None, []; }
          next := free.value;
        }
        disk := disk[current := ChunkSector(next, chunk)];
        chain := chain + [current];
        current := next;
      }
      return head, chain;
    }

    /** Seek and write inside one sector; a sector past the end of the file comes up as zeros. */
    method WriteAt(sector: nat, at: nat, bytes: seq<Byte>)
      requires at + |bytes| <= 512
      modifies this`disk
      ensures disk == old(disk)[sector := Spliced(old(SectorOf(disk, sector)), at, bytes)]
    {
      var s := SectorOf(disk, sector);
      disk := disk[sector := s[..at] + bytes + s[at + |bytes|..]];
    }

    /** `write_dir_entry`: name, size and head one after the other. There is no check that the index is inside the
        directory; the entry reads back there, and no other byte of the file changes. */
    method WriteDirEntry(idx: nat, name: Str, size: U32, head: U32)
      requires |name| <= 24
      modifies this`disk
      ensures disk == WithEntryAt(old(disk), idx, EntryBytes(name, size, head))
      ensures DirSector(idx) in disk && EntryAt(disk, idx) == EntryBytes(name, size, head)
      ensures forall s | s != DirSector(idx) :: s in disk <==> s in old(disk)
      ensures forall s | s in old(disk) && s != DirSector(idx) :: disk[s] == old(disk)[s]
      ensures forall j: nat | DirSector(j) == DirSector(idx) && j != idx && DirSector(idx) in old(disk) ::
                EntryAt(disk, j) == old(EntryAt(disk, j))
    {
      var sector, offset := SEC_DIR_START + idx * 32 / 512, idx * 32 % 512;
      ghost var before := SectorOf(disk, sector);
      assert sector == DirSector(idx) && offset == DirOffset(idx);
      WriteAt(sector, offset, NameField(name));
      WriteAt(sector, offset + 24, Le32(size));
      WriteAt(sector, offset + 28, Le32(head));
      SplicedEntry(before, offset, name, size, head);
      EntryInSector(before, idx, EntryBytes(name, size, head));
    }

    /** Step 9 of the build, sector by sector: every mark is at its place, and no other sector changes. */
    method WriteBitmap()
      requires |bitmap| == BITMAP_BYTES
      modifies this`disk
      ensures disk == WithBitmap(old(disk), bitmap)
      ensures forall s: nat | s < 8 * BITMAP_BYTES ::
                SEC_MAP_START + s / 4096 in disk
                && Marked(disk[SEC_MAP_START + s / 4096], s % 4096) == Marked(bitmap, s)
      ensures forall s: nat | !(SEC_MAP_START <= s < SEC_DIR_START) ::
                (s in disk <==> s in old(disk)) && (s in disk ==> disk[s] == old(disk)[s])
    {
      for i := 0 to 64
        invariant forall s: nat | SEC_MAP_START <= s < SEC_MAP_START + i ::
                    s in disk && disk[s] == BitmapSector(bitmap, s)
        invariant forall s: nat | !(SEC_MAP_START <= s < SEC_MAP_START + i) ::
                    (s in disk <==> s in old(disk)) && (s in disk ==> disk[s] == old(disk)[s])
      {
        WholeSector(SectorOf(disk, SEC_MAP_START + i), bitmap[512 * i..512 * i + 512]);
        WriteAt(SEC_MAP_START + i, 0, bitmap[512 * i..512 * i + 512]);
      }
      assert disk == WithBitmap(old(disk), bitmap);
      forall s: nat | s < 8 * BITMAP_BYTES
        ensures SEC_MAP_START + s / 4096 in disk
                && Marked(disk[SEC_MAP_START + s / 4096], s % 4096) == Marked(bitmap, s)
      {
        BitmapIsStored(old(disk), bitmap, s);
      }
    }

    /** One file of `import_directory`: its data, then its entry in the next slot. */
    method ImportOne(dirIdx: nat, f: HostFile, ghost files: seq<HostFile>, ghost chains: seq<seq<U32>>)
      returns (ok: bool, ghost chain: seq<U32>)
      requires Progress(disk, bitmap, files, chains) && dirIdx == |files| && Keeps(f)
      modifies this
      ensures ok ==> Progress(disk, bitmap, files + [f], chains + [chain])
      ensures ok <==> SEC_DATA_START + Blocks(files + [f]) <= 8 * BITMAP_BYTES
    {
      ghost var d, bm := disk, bitmap;
      ImportIffRoom(d, bm, files, f);
      var head;
      head, chain := WriteData(f.data);
      if head.None? { return false, []; }
      ghost var l := Layout(disk, bitmap, chain);
      WriteDirEntry(dirIdx, f.name, |f.data| % 0x1_0000_0000, head.value);
      ImportStep(d, bm, files, chains, f, l);
      return true, chain;
    }

    /** `import_directory` over all host files, in order: names that do not fit are skipped. */
    method Import(files: seq<HostFile>) returns (ok: bool, ghost chains: seq<seq<U32>>)
      requires Progress(disk, bitmap, [], []) && forall i | 0 <= i < |files| :: files[i].Ok()
      modifies this
      ensures ok ==> Progress(disk, bitmap, Kept(files), chains)
      ensures ok <==> SEC_DATA_START + Blocks(Kept(files)) <= 8 * BITMAP_BYTES
    {
      var dirIdx := 0;
      chains := [];
      ghost var kept := Kept(files[..0]);
      for i := 0 to |files|
        invariant kept == Kept(files[..i]) && dirIdx == |kept| && Progress(disk, bitmap, kept, chains)
      {
        KeptStep(files, i);
        if |files[i].name| <= NAME_MAX {
          ghost var chain;
          ok, chain := ImportOne(dirIdx, files[i], kept, chains);
          kept := kept + [files[i]];
          if !ok {
            KeptOnlyGrows(files, i + 1);
            return false, [];
          }
          dirIdx, chains := dirIdx + 1, chains + [chain];
        }
      }
      assert files[..|files|] == files;
      return true, chains;
    }
  }

  /** The directory lists the files so far and the blocks in use are theirs. */
  ghost predicate Listed(d: Disk, bm: seq<Byte>, files: seq<HostFile>) {
    && Lists(d, bm, files) && Prefix(bm, SEC_DATA_START + Blocks(files)) && FS.HasMagic(d)
    && forall j | 0 <= j < |files| :: Keeps(files[j])
  }

  /** State between two files; while they fit the directory each is where its entry says. */
  ghost predicate Progress(d: Disk, bm: seq<Byte>, files: seq<HostFile>, chains: seq<seq<U32>>) {
    |files| == |chains| && Listed(d, bm, files) && (|files| <= DIR_SLOTS ==> Holds(d, bm, files, chains))
  }

  lemma KeptStep(files: seq<HostFile>, i: nat)
    requires i < |files|
    ensures Kept(files[..i + 1])
              == if |files[i].name| <= NAME_MAX then Kept(files[..i]) + [files[i]] else Kept(files[..i])
  {
    assert files[..i + 1][..i] == files[..i];
  }

  lemma BlocksStep(files: seq<HostFile>, f: HostFile)
    ensures Blocks(files + [f]) == Blocks(files) + ChunkCount(f.data)
  {
    assert (files + [f])[..|files|] == files;
  }

  lemma {:induction false} KeptOnlyGrows(files: seq<HostFile>, i: nat)
    requires i <= |files|
    ensures Blocks(Kept(files[..i])) <= Blocks(Kept(files))
    decreases |files| - i
  {
    if i < |files| {
      KeptStep(files, i);
      BlocksStep(Kept(files[..i]), files[i]);
      KeptOnlyGrows(files, i + 1);
    } else {
      assert files[..i] == files;
    }
  }

  lemma SuperblockStays(d: Disk, bm: seq<Byte>, l: Layout, n: nat, e: Entry)
    requires Allocated(bm, l.bm, l.chain) && OnlyChain(d, l.disk, l.chain) && FS.HasMagic(d)
    ensures FS.HasMagic(WithEntryAt(l.disk, n, e))
  {
    assert SEC_SUPER !in l.chain;
  }

  lemma ImportIffRoom(d: Disk, bm: seq<Byte>, files: seq<HostFile>, f: HostFile)
    requires Listed(d, bm, files)
    ensures LaidOut(d, bm, f.data).Some? <==> SEC_DATA_START + Blocks(files + [f]) <= 8 * BITMAP_BYTES
  {
    LaidOutIffRoom(d, bm, f.data, SEC_DATA_START + Blocks(files));
    BlocksStep(files, f);
  }

  lemma ListedStep(d: Disk, bm: seq<Byte>, files: seq<HostFile>, f: HostFile, l: Layout, size: U32)
    requires Listed(d, bm, files) && Keeps(f) && LaidOut(d, bm, f.data) == Some(l)
    ensures Listed(WithEntryAt(l.disk, |files|, EntryBytes(f.name, size, HeadOfChain(l.chain))), l.bm, files + [f])
  {
    var d' := WithEntryAt(l.disk, |files|, EntryBytes(f.name, size, HeadOfChain(l.chain)));
    ListsGrow(d, bm, files, f, l, size);
    assert Prefix(l.bm, SEC_DATA_START + Blocks(files + [f])) by {
      LaidOutIffRoom(d, bm, f.data, SEC_DATA_START + Blocks(files));
      BlocksStep(files, f);
    }
    assert FS.HasMagic(d') by {
      LaidOutIsSound(d, bm, f.data);
      SuperblockStays(d, bm, l, |files|, EntryBytes(f.name, size, HeadOfChain(l.chain)));
    }
  }

  lemma ImportStep(d: Disk, bm: seq<Byte>, files: seq<HostFile>, chains: seq<seq<U32>>, f: HostFile, l: Layout)
    requires Progress(d, bm, files, chains) && Keeps(f) && LaidOut(d, bm, f.data) == Some(l)
    ensures Progress(WithEntryAt(l.disk, |files|, EntryBytes(f.name, |f.data| % 0x1_0000_0000, HeadOfChain(l.chain))),
                     l.bm, files + [f], chains + [l.chain])
  {
    ListedStep(d, bm, files, f, l, |f.data| % 0x1_0000_0000);
    if |files| < DIR_SLOTS { AddFile(d, bm, files, chains, f, l); }
  }

  lemma EmptyImageStarts(sizeMb: nat, bm: seq<Byte>)
    requires sizeMb >= 1 && |bm| == BITMAP_BYTES && Prefix(bm, SEC_DATA_START)
    ensures Progress(EmptyImage(sizeMb), bm, [], [])
    ensures FromLe32(EmptyImage(sizeMb)[SEC_SUPER][4..8]) == 2048 * sizeMb % 0x1_0000_0000
  {
    var d := EmptyImage(sizeMb);
    assert d[SEC_SUPER][..4] == Le32(MAGIC) && d[SEC_SUPER][4..8] == Le32(2048 * sizeMb % 0x1_0000_0000);
    Le32RoundTrip(MAGIC);
    Le32RoundTrip(2048 * sizeMb % 0x1_0000_0000);
    assert HasDirectory(d);
    forall k | 0 <= k < DIR_SLOTS ensures !Live(EntryAt(d, k)) { DirSectorRange(k); }
  }

  ghost predicate DistinctNames(files: seq<HostFile>) {
    forall i, j | 0 <= i < j < |files| :: files[i].name != files[j].name
  }

  /** Every imported file can be read back. */
  ghost predicate AllReadable(d: Disk, files: seq<HostFile>) {
    forall i | 0 <= i < |files| :: ReadFile(d, files[i].name) == Some(files[i].data)
  }

  /** What the kernel needs of a device to mount it and keep its files apart. */
  ghost predicate Bootable(d: Disk) {
    FS.HasMagic(d) && SEC_MAP_START in d && SystemMarked(d[SEC_MAP_START]) && SafeVolume(d, d[SEC_MAP_START])
  }

  lemma ListsWithBitmap(d: Disk, bm: seq<Byte>, files: seq<HostFile>)
    requires Lists(d, bm, files)
    ensures Lists(WithBitmap(d, bm), bm, files)
  {
    var d' := WithBitmap(d, bm);
    assert HasDirectory(d');
    forall k | 0 <= k < DIR_SLOTS ensures EntryAt(d', k) == EntryAt(d, k) { DirSectorRange(k); }
  }

  /** The first file past the last directory slot is not found. */
  lemma BeyondDirectoryIsLost(d: Disk, bm: seq<Byte>, files: seq<HostFile>)
    requires Lists(d, bm, files) && DistinctNames(files) && |files| > DIR_SLOTS
    ensures ReadFile(d, files[DIR_SLOTS].name) == None
  {
    var name := files[DIR_SLOTS].name;
    forall j | 0 <= j < DIR_SLOTS ensures NameOf(EntryAt(d, j)) != name {
      assert files[j].name != name;
    }
    FindSkips(d, name, 0, DIR_SLOTS - 1);
  }

  /** Builder and kernel agree: files of distinct names are all readable exactly when they fit the directory. */
  lemma ReadableIffListed(d: Disk, bm: seq<Byte>, files: seq<HostFile>, chains: seq<seq<U32>>)
    requires Progress(d, bm, files, chains) && DistinctNames(files)
    ensures AllReadable(WithBitmap(d, bm), files) <==> |files| <= DIR_SLOTS
  {
    var d' := WithBitmap(d, bm);
    if |files| <= DIR_SLOTS {
      HoldsWithBitmap(d, bm, files, chains);
      forall i | 0 <= i < |files| ensures ReadFile(d', files[i].name) == Some(files[i].data) {
        ImageReadsBack(d', bm, files, chains, i);
      }
    } else {
      ListsWithBitmap(d, bm, files);
      BeyondDirectoryIsLost(d', bm, files);
    }
  }

  lemma ImageBoots(d: Disk, bm: seq<Byte>, files: seq<HostFile>, chains: seq<seq<U32>>)
    requires Holds(d, bm, files, chains) && FS.HasMagic(d)
    ensures Bootable(WithBitmap(d, bm))
  {
    HoldsWithBitmap(d, bm, files, chains);
    ImageIsSafe(WithBitmap(d, bm), bm, files, chains);
    assert WithBitmap(d, bm)[SEC_MAP_START] == bm[..512];
  }

  /** The whole build. It stops only when the kept files need more blocks than the bitmap covers. */
  method Build(sizeMb: nat, files: seq<HostFile>) returns (r: Option<Disk>)
    requires sizeMb >= 1 && forall i | 0 <= i < |files| :: files[i].Ok()
    ensures r.Some? <==> SEC_DATA_START + Blocks(Kept(files)) <= 8 * BITMAP_BYTES
    ensures r.Some? && |Kept(files)| <= DIR_SLOTS ==> Bootable(r.value)
    ensures r.Some? && DistinctNames(Kept(files)) ==>
              (AllReadable(r.value, Kept(files)) <==> |Kept(files)| <= DIR_SLOTS)
  {
    var b := new Builder(sizeMb);
    EmptyImageStarts(sizeMb, b.bitmap);
    var ok;
    ghost var chains;
    ok, chains := b.Import(files);
    if !ok { return None; }
    if DistinctNames(Kept(files)) { ReadableIffListed(b.disk, b.bitmap, Kept(files), chains); }
    if |Kept(files)| <= DIR_SLOTS { ImageBoots(b.disk, b.bitmap, Kept(files), chains); }
    b.WriteBitmap();
    return Some(b.disk);
  }

  /** A built image mounts, and the mounted file system starts synced on a safe volume. */
  method MountImage(dev: FS.Dev) returns (r: Option<FS.FileSystem>)
    requires dev.reliable && Bootable(dev.disk)
    modifies dev`failed
    ensures r.Some? && fresh(r.value) && T.Synced(r.value, dev) && SafeVolume(dev.disk, r.value.bitmap)
  {
    r := FS.Mount(dev);
  }
}
