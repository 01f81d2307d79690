/** Building an image from a list of host files, and mounting it. */
module MkfsImage {
  import opened Basics
  import opened SfsFormat
  import opened SfsVolume
  import opened SfsIsolation
  import opened SfsWrite
  import opened Mkfs

  /** Slot `i` of the image holds this file, in marked data sectors. */
  ghost predicate FileAt(d: Disk, bm: seq<Byte>, i: nat, f: HostFile, chain: seq<U32>)
    requires DirSector(i) in d
  {
    && |f.data| < 0x1_0000_0000
    && EntryAt(d, i) == EntryBytes(f.name, |f.data|, HeadOfChain(chain))
    && Laid(d, chain, f.data)
    && InUse(bm, chain)
  }

  /** The image holds these files in order, in the first directory slots, and no others. */
  ghost predicate Holds(d: Disk, bm: seq<Byte>, files: seq<HostFile>, chains: seq<seq<U32>>) {
    && HasDirectory(d) && |bm| == BITMAP_BYTES && SystemMarked(bm) && |files| == |chains| <= DIR_SLOTS
    && (forall i | 0 <= i < |files| :: FileAt(d, bm, i, files[i], chains[i]))
    && forall k | |files| <= k < DIR_SLOTS :: !Live(EntryAt(d, k))
  }

  /** A new chain does not touch a file already in the image. */
  lemma FileAtFrame(d: Disk, d': Disk, bm: seq<Byte>, bm': seq<Byte>, i: nat, f: HostFile, chain: seq<U32>,
      added: seq<U32>)
    requires i < DIR_SLOTS && DirSector(i) in d && DirSector(i) in d' && FileAt(d, bm, i, f, chain)
    requires Allocated(bm, bm', added) && EntryAt(d', i) == EntryAt(d, i)
    requires forall s: nat | s !in added && s >= SEC_DATA_START :: s in d ==> s in d' && d'[s] == d[s]
    ensures FileAt(d', bm', i, f, chain)
  {
    assert forall k | 0 <= k < |chain| :: chain[k] !in added;
  }

  /** The disk after a file's chain is laid and its entry written in slot `n`. */
  function WithFile(l: Layout, n: nat, f: HostFile): Disk
    requires DirSector(n) in l.disk
  {
    WithDirEntry(l.disk, n, EntryBytes(f.name, |f.data| % 0x1_0000_0000, HeadOfChain(l.chain)))
  }

  /** What laying a chain from a disk and bitmap guarantees. */
  ghost predicate Lays(d: Disk, bm: seq<Byte>, l: Layout, f: HostFile) {
    && |bm| == BITMAP_BYTES && Allocated(bm, l.bm, l.chain) && OnlyChain(d, l.disk, l.chain)
    && Laid(l.disk, l.chain, f.data)
  }

  lemma NewEntries(d: Disk, bm: seq<Byte>, l: Layout, n: nat, f: HostFile)
    requires HasDirectory(d) && n < DIR_SLOTS && Lays(d, bm, l, f)
    ensures DirSector(n) in l.disk && HasDirectory(WithFile(l, n, f)) && |f.data| < 0x1_0000_0000
    ensures forall k | 0 <= k < DIR_SLOTS ::
              EntryAt(WithFile(l, n, f), k)
                == if k == n then EntryBytes(f.name, |f.data|, HeadOfChain(l.chain)) else EntryAt(d, k)
  {
    DirectoryOutsideChain(d, l.disk, bm, l.bm, l.chain);
    SizeFits(bm, l.bm, l.chain, f.data);
    var e := EntryBytes(f.name, |f.data|, HeadOfChain(l.chain));
    forall k | 0 <= k < DIR_SLOTS
      ensures EntryAt(WithFile(l, n, f), k) == if k == n then e else EntryAt(d, k)
    {
      EntriesOutsideChain(d, l.disk, bm, l.bm, l.chain, k);
      EntriesAfterUpdate(l.disk, n, e, k);
    }
  }

  /** Writing a directory entry leaves a chain of data sectors as it is. */
  lemma LaidBesideEntry(d: Disk, n: nat, e: Entry, chain: seq<U32>, data: seq<Byte>)
    requires n < DIR_SLOTS && DirSector(n) in d && Laid(d, chain, data)
    requires forall k | 0 <= k < |chain| :: SEC_DATA_START <= chain[k]
    ensures Laid(WithDirEntry(d, n, e), chain, data)
  {
    DirSectorRange(n);
  }

  /** Every sector of the chain is a marked data sector. */
  ghost predicate InUse(bm: seq<Byte>, chain: seq<U32>) {
    forall k | 0 <= k < |chain| :: SEC_DATA_START <= chain[k] < 8 * |bm| && Marked(bm, chain[k])
  }

  lemma AllocatedIsInUse(bm: seq<Byte>, bm': seq<Byte>, chain: seq<U32>)
    requires Allocated(bm, bm', chain)
    ensures InUse(bm', chain)
  {
  }

  lemma NewFileAt(l: Layout, n: nat, f: HostFile, d': Disk)
    requires n < DIR_SLOTS && DirSector(n) in l.disk && d' == WithFile(l, n, f) && InUse(l.bm, l.chain)
             && Laid(l.disk, l.chain, f.data)
    requires |f.data| < 0x1_0000_0000 && EntryAt(d', n) == EntryBytes(f.name, |f.data|, HeadOfChain(l.chain))
    ensures FileAt(d', l.bm, n, f, l.chain)
  {
    LaidBesideEntry(l.disk, n, EntryBytes(f.name, |f.data|, HeadOfChain(l.chain)), l.chain, f.data);
  }

  lemma OldFileAt(d: Disk, bm: seq<Byte>, l: Layout, n: nat, f: HostFile, i: nat, other: HostFile, chain: seq<U32>)
    requires HasDirectory(d) && i < n < DIR_SLOTS && Lays(d, bm, l, f) && FileAt(d, bm, i, other, chain)
    ensures DirSector(n) in l.disk && DirSector(i) in WithFile(l, n, f)
            && FileAt(WithFile(l, n, f), l.bm, i, other, chain)
  {
    NewEntries(d, bm, l, n, f);
    DirSectorRange(n);
    FileAtFrame(d, WithFile(l, n, f), bm, l.bm, i, other, chain, l.chain);
  }

  lemma SystemStaysMarked(bm: seq<Byte>, bm': seq<Byte>, chain: seq<U32>)
    requires SystemMarked(bm) && Allocated(bm, bm', chain)
    ensures SystemMarked(bm') && |bm'| == |bm|
  {
  }

  lemma OldFilesAt(d: Disk, bm: seq<Byte>, files: seq<HostFile>, chains: seq<seq<U32>>, f: HostFile, l: Layout,
      d': Disk)
    requires Holds(d, bm, files, chains) && |files| < DIR_SLOTS && Lays(d, bm, l, f)
    requires DirSector(|files|) in l.disk && d' == WithFile(l, |files|, f) && HasDirectory(d')
    ensures forall i | 0 <= i < |files| :: FileAt(d', l.bm, i, files[i], chains[i])
  {
    forall i | 0 <= i < |files| ensures FileAt(d', l.bm, i, files[i], chains[i]) {
      OldFileAt(d, bm, l, |files|, f, i, files[i], chains[i]);
    }
  }

  lemma Extend(d: Disk, bm: seq<Byte>, files: seq<HostFile>, chains: seq<seq<U32>>, f: HostFile, chain: seq<U32>)
    requires HasDirectory(d) && |bm| == BITMAP_BYTES && SystemMarked(bm) && |files| == |chains| < DIR_SLOTS
    requires forall i | 0 <= i < |files| :: FileAt(d, bm, i, files[i], chains[i])
    requires FileAt(d, bm, |files|, f, chain)
    requires forall k | |files| < k < DIR_SLOTS :: !Live(EntryAt(d, k))
    ensures Holds(d, bm, files + [f], chains + [chain])
  {
  }

  /** Laying a chain and writing the entry adds the file to the image. */
  lemma AddFile(d: Disk, bm: seq<Byte>, files: seq<HostFile>, chains: seq<seq<U32>>, f: HostFile, l: Layout)
    requires Holds(d, bm, files, chains) && |files| < DIR_SLOTS && LaidOut(d, bm, f.data) == Some(l)
    ensures DirSector(|files|) in l.disk && Holds(WithFile(l, |files|, f), l.bm, files + [f], chains + [l.chain])
  {
    var n := |files|;
    LaidOutIsSound(d, bm, f.data);
    NewEntries(d, bm, l, n, f);
    AllocatedIsInUse(bm, l.bm, l.chain);
    SystemStaysMarked(bm, l.bm, l.chain);
    var d' := WithFile(l, n, f);
    NewFileAt(l, n, f, d');
    OldFilesAt(d, bm, files, chains, f, l, d');
    Extend(d', l.bm, files, chains, f, l.chain);
  }

  // ---------------------------------------------------------------------------
  // The finished image
  // ---------------------------------------------------------------------------

  function BitmapSector(bm: seq<Byte>, s: nat): Sector
    requires |bm| == BITMAP_BYTES && SEC_MAP_START <= s < SEC_DIR_START
  {
    bm[512 * (s - 1)..512 * s]
  }

  /** The bitmap stored in its 64 sectors. */
  function WithBitmap(d: Disk, bm: seq<Byte>): Disk
    requires |bm| == BITMAP_BYTES
  {
    d + map s | SEC_MAP_START <= s < SEC_DIR_START :: BitmapSector(bm, s)
  }

  /** Each block's mark is where the format puts it: 4096 blocks to a sector, from sector 1 on. */
  lemma BitmapIsStored(d: Disk, bm: seq<Byte>, s: nat)
    requires |bm| == BITMAP_BYTES && s < 8 * BITMAP_BYTES
    ensures SEC_MAP_START + s / 4096 in WithBitmap(d, bm)
    ensures Marked(WithBitmap(d, bm)[SEC_MAP_START + s / 4096], s % 4096) == Marked(bm, s)
  {
    var k := s / 4096;
    assert WithBitmap(d, bm)[SEC_MAP_START + k] == BitmapSector(bm, SEC_MAP_START + k);
    assert s % 4096 / 8 == s / 8 - 512 * k && s % 4096 % 8 == s % 8;
  }

  /** Storing the bitmap touches neither directory nor data. */
  lemma HoldsWithBitmap(d: Disk, bm: seq<Byte>, files: seq<HostFile>, chains: seq<seq<U32>>)
    requires Holds(d, bm, files, chains)
    ensures Holds(WithBitmap(d, bm), bm, files, chains)
  {
    var d' := WithBitmap(d, bm);
    assert HasDirectory(d');
    forall k | 0 <= k < DIR_SLOTS ensures EntryAt(d', k) == EntryAt(d, k) { DirSectorRange(k); }
    forall i | 0 <= i < |files| ensures FileAt(d', bm, i, files[i], chains[i]) {
      DirSectorRange(i);
      FileAtFrame(d, d', bm, bm, i, files[i], chains[i], []);
    }
  }

  /** The kernel caches only the first bitmap sector, which agrees with the builder's bitmap. */
  lemma FirstSectorAgrees(bm: seq<Byte>, s: nat)
    requires |bm| == BITMAP_BYTES && s < MAP_BITS
    ensures Marked(bm[..512], s) == Marked(bm, s)
  {
  }

  lemma InUseIsProtected(bm: seq<Byte>, chain: seq<U32>)
    requires |bm| == BITMAP_BYTES && InUse(bm, chain)
    ensures AllProtected(bm[..512], chain)
  {
    forall k | 0 <= k < |chain| ensures Protected(bm[..512], chain[k]) {
      if chain[k] < MAP_BITS { FirstSectorAgrees(bm, chain[k]); }
    }
  }

  /** The builder keeps this file: it has a name, and the name fits. */
  predicate Keeps(f: HostFile) { f.Ok() && |f.name| <= NAME_MAX }

  lemma FileIsListed(d: Disk, bm: seq<Byte>, i: nat, f: HostFile, chain: seq<U32>)
    requires DirSector(i) in d && FileAt(d, bm, i, f, chain) && Keeps(f)
    ensures Live(EntryAt(d, i)) && NameOf(EntryAt(d, i)) == f.name && ReadEntry(d, EntryAt(d, i)) == Some(f.data)
  {
    EntryRoundTrip(f.name, |f.data|, HeadOfChain(chain));
    ReadLaid(d, chain, f.data);
  }

  lemma FileIsSafe(d: Disk, bm: seq<Byte>, i: nat, f: HostFile, chain: seq<U32>)
    requires DirSector(i) in d && |bm| == BITMAP_BYTES && FileAt(d, bm, i, f, chain)
    ensures SafeChain(d, bm[..512], HeadOf(EntryAt(d, i)), SizeOf(EntryAt(d, i)))
  {
    EntryRoundTrip(f.name, |f.data|, HeadOfChain(chain));
    InUseIsProtected(bm, chain);
    if chain != [] { LaidIsSafe(d, bm[..512], chain, f.data, 0); }
  }

  /** The image is one on which the kernel's guarantees hold. */
  lemma ImageIsSafe(d: Disk, bm: seq<Byte>, files: seq<HostFile>, chains: seq<seq<U32>>)
    requires Holds(d, bm, files, chains)
    ensures SafeVolume(d, bm[..512]) && SystemMarked(bm[..512])
  {
    forall s | 0 <= s < SEC_DATA_START ensures Marked(bm[..512], s) { FirstSectorAgrees(bm, s); }
    forall k | 0 <= k < DIR_SLOTS && Live(EntryAt(d, k))
      ensures SafeChain(d, bm[..512], HeadOf(EntryAt(d, k)), SizeOf(EntryAt(d, k)))
    {
      FileIsSafe(d, bm, k, files[k], chains[k]);
    }
  }

  /** Every file that is the first of its name reads back as imported. */
  lemma ImageReadsBack(d: Disk, bm: seq<Byte>, files: seq<HostFile>, chains: seq<seq<U32>>, i: nat)
    requires Holds(d, bm, files, chains) && i < |files| && forall j | 0 <= j < |files| :: Keeps(files[j])
    requires forall j | 0 <= j < i :: files[j].name != files[i].name
    ensures ReadFile(d, files[i].name) == Some(files[i].data)
  {
    forall j | 0 <= j <= i
      ensures Live(EntryAt(d, j)) && NameOf(EntryAt(d, j)) == files[j].name
    {
      FileIsListed(d, bm, j, files[j], chains[j]);
    }
    FileIsListed(d, bm, i, files[i], chains[i]);
    FindSkips(d, files[i].name, 0, i);
  }
}
