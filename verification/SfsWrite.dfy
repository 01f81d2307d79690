/** The steps by which a file is written into a volume, and what they add up to. */
module SfsWrite {
  import opened Basics
  import opened SfsFormat
  import opened SfsVolume
  import opened SfsIsolation

  /** A sector with its link replaced. */
  function Relinked(s: Sector, next: U32): Sector { Le32(next) + s[4..] }

  lemma RelinkedChunk(next: U32, bytes: seq<Byte>)
    requires |bytes| <= CHUNK
    ensures Relinked(ChunkSector(0, bytes), next) == ChunkSector(next, bytes)
  {
  }

  /** The view after linking the last sector of the chain, if any, to `current`. */
  function WithLink(d: Disk, chain: seq<U32>, current: U32): Disk
    requires chain == [] || chain[|chain| - 1] in d
  {
    if chain == [] then d else d[chain[|chain| - 1] := Relinked(d[chain[|chain| - 1]], current)]
  }

  /** Linking and writing the next chunk extends the chain by one. */
  lemma ChainGrows(d: Disk, chain: seq<U32>, data: seq<Byte>, current: U32)
    requires LaidPart(d, chain, data) && |chain| < ChunkCount(data)
    requires current != 0 && current !in chain && Distinct(chain)
    ensures LaidPart(WithLink(d, chain, current)[current := ChunkSector(0, Chunk(data, |chain|))], chain + [current],
                     data)
  {
    var n := |chain|;
    var d' := WithLink(d, chain, current)[current := ChunkSector(0, Chunk(data, n))];
    var chain' := chain + [current];
    forall k | 0 <= k <= n
      ensures chain'[k] in d' && d'[chain'[k]] == ChunkSector(NextOf(chain', k), Chunk(data, k))
    {
      if k < n {
        assert chain[k] != current && d[chain[k]] == ChunkSector(NextOf(chain, k), Chunk(data, k));
        if k == n - 1 {
          RelinkedChunk(current, Chunk(data, k));
        } else {
          assert chain[k] != chain[n - 1] && NextOf(chain', k) == NextOf(chain, k);
        }
      }
    }
  }

  ghost predicate Distinct(chain: seq<U32>) {
    forall i, j | 0 <= i < j < |chain| :: chain[i] != chain[j]
  }

  ghost predicate Increasing(chain: seq<U32>) {
    forall i, j | 0 <= i < j < |chain| :: chain[i] < chain[j]
  }

  lemma {:induction false} IncreasingIsShort(chain: seq<U32>, bound: nat)
    requires Increasing(chain) && forall k | 0 <= k < |chain| :: chain[k] < bound
    ensures |chain| <= bound
    decreases |chain|
  {
    if chain != [] {
      var n := |chain| - 1;
      IncreasingIsShort(chain[..n], chain[n]);
    }
  }

  /** The chain was allocated from blocks free in `bm`, in increasing order, and is marked in `bm'`,
      as is every block up to its end. */
  ghost predicate Allocated(bm: seq<Byte>, bm': seq<Byte>, chain: seq<U32>) {
    && MarksGrow(bm, bm') && Increasing(chain)
    && (forall k | 0 <= k < |chain| ::
          SEC_DATA_START <= chain[k] < 8 * |bm| && !Marked(bm, chain[k]) && Marked(bm', chain[k]))
    && (chain != [] ==> forall t | 0 <= t <= chain[|chain| - 1] :: Marked(bm', t))
  }

  ghost predicate SystemMarked(bm: seq<Byte>) {
    SEC_DATA_START <= 8 * |bm| && forall t | 0 <= t < SEC_DATA_START :: Marked(bm, t)
  }

  /** Taking the first unmarked block extends the allocation. */
  lemma AllocationGrows(bm: seq<Byte>, bm': seq<Byte>, chain: seq<U32>, s: U32)
    requires |bm| <= 32768 && Allocated(bm, bm', chain) && SystemMarked(bm) && NextFree(bm', 0) == Some(s)
    ensures Allocated(bm, WithMark(bm', s), chain + [s]) && s !in chain && s != 0
  {
    var bm'' := WithMark(bm', s);
    forall t | 0 <= t < 8 * |bm|
      ensures Marked(bm'', t) == (t == s || Marked(bm', t))
      ensures t < s ==> Marked(bm', t)
    {
      WithMarkIsExact(bm', s, t);
      if t < s { NextFreeIsFirst(bm', 0, t); }
    }
    assert s >= SEC_DATA_START;
    assert chain != [] ==> chain[|chain| - 1] < s;
  }

  /** Outside the chain nothing changed. */
  ghost predicate OnlyChain(d: Disk, d': Disk, chain: seq<U32>) {
    forall s: nat | s !in chain :: (s in d <==> s in d') && (s in d ==> d'[s] == d[s])
  }

  /** A link changes only the chain's last sector, a written chunk only its own. */
  lemma GrowthStaysInChain(d: Disk, d1: Disk, chain: seq<U32>, current: U32, b: Sector)
    requires OnlyChain(d, d1, chain) && (chain == [] || chain[|chain| - 1] in d1)
    ensures OnlyChain(d, WithLink(d1, chain, current), chain)
    ensures OnlyChain(d, WithLink(d1, chain, current)[current := b], chain + [current])
  {
  }

  function WithDirEntry(d: Disk, p: nat, e: Entry): Disk
    requires DirSector(p) in d
  {
    d[DirSector(p) := WithEntry(d[DirSector(p)], p, e)]
  }

  /** The volume as the device will hold it: the cached view with the bitmap in its sector. */
  function Volume(view: Disk, bm: Bitmap): Disk { view[SEC_MAP_START := bm] }

  lemma DirSectorRange(k: nat)
    requires k < DIR_SLOTS
    ensures SEC_DIR_START <= DirSector(k) < SEC_DATA_START
  {
  }

  lemma KeepsProtectedOutsideChain(d: Disk, d': Disk, bm: Bitmap, bm': Bitmap, chain: seq<U32>)
    requires OnlyChain(d, d', chain) && Allocated(bm, bm', chain)
    ensures KeepsProtected(d, d', bm)
  {
    assert forall s | Protected(bm, s) :: s !in chain;
  }

  lemma EntriesOutsideChain(d: Disk, d': Disk, bm: seq<Byte>, bm': seq<Byte>, chain: seq<U32>, k: nat)
    requires HasDirectory(d) && OnlyChain(d, d', chain) && Allocated(bm, bm', chain) && k < DIR_SLOTS
    ensures DirSector(k) in d' && EntryAt(d', k) == EntryAt(d, k)
  {
    DirSectorRange(k);
    assert DirSector(k) !in chain;
  }

  lemma EntriesAfterUpdate(d: Disk, p: nat, e: Entry, k: nat)
    requires HasDirectory(d) && p < DIR_SLOTS && k < DIR_SLOTS
    ensures DirSector(k) in WithDirEntry(d, p, e)
    ensures EntryAt(WithDirEntry(d, p, e), k) == if k == p then e else EntryAt(d, k)
  {
    if DirSector(k) == DirSector(p) {
      WithEntryIsExact(d[DirSector(p)], p, e, k);
    }
  }

  lemma DirectoryOutsideChain(d: Disk, d': Disk, bm: seq<Byte>, bm': seq<Byte>, chain: seq<U32>)
    requires HasDirectory(d) && OnlyChain(d, d', chain) && Allocated(bm, bm', chain)
    ensures HasDirectory(d')
  {
    forall k | 0 <= k < DIR_SLOTS ensures DirSector(k) in d' { EntriesOutsideChain(d, d', bm, bm', chain, k); }
  }

  /** Replacing a directory sector does not disturb data sectors. */
  lemma LaidBesideDirectory(d: Disk, bm: Bitmap, bm': Bitmap, p: nat, e: Entry, chain: seq<U32>, data: seq<Byte>)
    requires Laid(d, chain, data) && Allocated(bm, bm', chain) && p < DIR_SLOTS && DirSector(p) in d
    ensures Laid(Volume(WithDirEntry(d, p, e), bm'), chain, data)
  {
    DirSectorRange(p);
  }

  lemma ProtectedBesideDirectory(d: Disk, d1: Disk, bm: Bitmap, bm': Bitmap, p: nat, e: Entry)
    requires KeepsProtected(d, d1, bm) && p < DIR_SLOTS && DirSector(p) in d1
    ensures KeepsProtected(Volume(d, bm), Volume(WithDirEntry(d1, p, e), bm'), bm)
  {
    DirSectorRange(p);
  }

  lemma EntryInVolume(d: Disk, d1: Disk, bm: Bitmap, bm': Bitmap, p: nat, e: Entry, chain: seq<U32>, k: nat)
    requires HasDirectory(d) && OnlyChain(d, d1, chain) && Allocated(bm, bm', chain) && p < DIR_SLOTS && k < DIR_SLOTS
    ensures DirSector(p) in d1 && DirSector(k) in Volume(WithDirEntry(d1, p, e), bm') && DirSector(k) in Volume(d, bm)
    ensures EntryAt(Volume(WithDirEntry(d1, p, e), bm'), k) == if k == p then e else EntryAt(Volume(d, bm), k)
  {
    DirectoryOutsideChain(d, d1, bm, bm', chain);
    EntriesOutsideChain(d, d1, bm, bm', chain, k);
    EntriesAfterUpdate(d1, p, e, k);
  }

  lemma AllocatedIsProtected(bm: Bitmap, bm': Bitmap, chain: seq<U32>)
    requires Allocated(bm, bm', chain)
    ensures AllProtected(bm', chain)
  {
  }

  lemma EntriesInVolume(d: Disk, d1: Disk, bm: Bitmap, bm': Bitmap, p: nat, e: Entry, chain: seq<U32>)
    requires HasDirectory(d) && OnlyChain(d, d1, chain) && Allocated(bm, bm', chain) && p < DIR_SLOTS
    ensures DirSector(p) in d1 && HasDirectory(Volume(d, bm)) && HasDirectory(Volume(WithDirEntry(d1, p, e), bm'))
    ensures forall k | 0 <= k < DIR_SLOTS ::
              EntryAt(Volume(WithDirEntry(d1, p, e), bm'), k) == if k == p then e else EntryAt(Volume(d, bm), k)
  {
    DirectoryOutsideChain(d, d1, bm, bm', chain);
    forall k | 0 <= k < DIR_SLOTS
      ensures EntryAt(Volume(WithDirEntry(d1, p, e), bm'), k) == if k == p then e else EntryAt(Volume(d, bm), k)
    {
      EntryInVolume(d, d1, bm, bm', p, e, chain, k);
    }
  }

  /** Chain laid and entry written: the file is saved. */
  lemma WrittenIsSaved(d: Disk, d1: Disk, bm: Bitmap, bm': Bitmap, p: nat, name: Str, data: seq<Byte>, chain: seq<U32>,
      d2: Disk)
    requires HasDirectory(d) && OnlyChain(d, d1, chain) && Allocated(bm, bm', chain) && Laid(d1, chain, data)
    requires p < DIR_SLOTS && DirSector(p) in d1
    requires d2 == WithDirEntry(d1, p, EntryBytes(name, |data| % 0x1_0000_0000, HeadOfChain(chain)))
    ensures Saved(Volume(d, bm), Volume(d2, bm'), bm, bm', p, name, data, chain)
  {
    SizeFits(bm, bm', chain, data);
    var e := EntryBytes(name, |data|, HeadOfChain(chain));
    KeepsProtectedOutsideChain(d, d1, bm, bm', chain);
    ProtectedBesideDirectory(d, d1, bm, bm', p, e);
    LaidBesideDirectory(d1, bm, bm', p, e, chain, data);
    AllocatedIsProtected(bm, bm', chain);
    EntriesInVolume(d, d1, bm, bm', p, e, chain);
  }

  /** The bitmap covers too few blocks for a file whose size does not fit its 32-bit field. */
  lemma SizeFits(bm: seq<Byte>, bm': seq<Byte>, chain: seq<U32>, data: seq<Byte>)
    requires |bm| <= 32768 && Allocated(bm, bm', chain) && |chain| == ChunkCount(data)
    ensures |data| < 0x1_0000_0000 && |data| % 0x1_0000_0000 == |data|
  {
    IncreasingIsShort(chain, 8 * |bm|);
    ChunkCountIsCeiling(data);
  }

  // ---------------------------------------------------------------------------
  // The write loop as a function
  // ---------------------------------------------------------------------------

  /** The first unmarked block from `s` on. */
  function NextFree(bm: seq<Byte>, s: nat): (r: Option<U32>)
    requires |bm| <= 32768
    ensures r.Some? ==> s <= r.value < 8 * |bm| && !Marked(bm, r.value)
    decreases 8 * |bm| - s
  {
    if s >= 8 * |bm| then None else if !Marked(bm, s) then Some(s) else NextFree(bm, s + 1)
  }

  lemma {:induction false} NextFreeIsFirst(bm: seq<Byte>, s: nat, t: nat)
    requires |bm| <= 32768 && s <= t < 8 * |bm| && (NextFree(bm, s).Some? ==> t < NextFree(bm, s).value)
    ensures Marked(bm, t)
    decreases t - s
  {
    if s < t { NextFreeIsFirst(bm, s + 1, t); }
  }

  lemma {:induction false} NextFreeSkips(bm: seq<Byte>, s: nat, t: nat)
    requires |bm| <= 32768 && s <= t <= 8 * |bm| && forall u | s <= u < t :: Marked(bm, u)
    ensures NextFree(bm, s) == NextFree(bm, t)
    decreases t - s
  {
    if s < t { NextFreeSkips(bm, s + 1, t); }
  }

  /** The lowest clear bit of one bitmap byte, or 8: the inner loop of both allocators. */
  method FindClearBit(bm: seq<Byte>, i: nat) returns (bit: nat)
    requires i < |bm| <= 32768
    ensures bit <= 8 && NextFree(bm, 8 * i) == if bit < 8 then Some(8 * i + bit) else NextFree(bm, 8 * i + 8)
  {
    if bm[i] == 0xFF {
      FullByte(bm, i);
      NextFreeSkips(bm, 8 * i, 8 * i + 8);
      return 8;
    }
    bit := 0;
    while bit < 8
      invariant bit <= 8 && NextFree(bm, 8 * i) == NextFree(bm, 8 * i + bit)
    {
      assert (8 * i + bit) / 8 == i && (8 * i + bit) % 8 == bit;
      if !Bit(bm[i], bit) { return; }
      bit := bit + 1;
    }
  }

  /** A file being written: the view, the bitmap and the chain so far. */
  datatype Draft = Draft(view: Disk, bm: Bitmap, chain: seq<U32>) {
    /** The last block can be linked and a free one exists. */
    predicate CanGrow() { NextFree(bm, 0).Some? && (chain == [] || chain[|chain| - 1] in view) }

    function Linked(): Disk
      requires CanGrow()
    {
      WithLink(view, chain, NextFree(bm, 0).value)
    }

    /** The next chunk allocated, linked and written. */
    function Grown(bytes: seq<Byte>): Draft
      requires CanGrow() && |bytes| <= CHUNK
    {
      var current := NextFree(bm, 0).value;
      Draft(Linked()[current := ChunkSector(0, bytes)], WithMark(bm, current), chain + [current])
    }
  }

  /** The draft after all of `data` is written, 508 bytes at a time, if there is room for it. */
  function WriteAll(d: Draft, data: seq<Byte>): Option<Draft>
    decreases |data|
  {
    if data == [] then Some(d)
    else if !d.CanGrow() then None
    else WriteAll(d.Grown(data[..Min(|data|, CHUNK)]), data[Min(|data|, CHUNK)..])
  }

  /** A draft begun on a view and bitmap: changes confined to free blocks, the first chunks laid. */
  ghost predicate Sound(view: Disk, bm: Bitmap, data: seq<Byte>, d: Draft) {
    OnlyChain(view, d.view, d.chain) && Allocated(bm, d.bm, d.chain) && LaidPart(d.view, d.chain, data)
  }

  lemma GrownIsSound(view: Disk, bm: Bitmap, data: seq<Byte>, d: Draft)
    requires Sound(view, bm, data, d) && SystemMarked(bm)
    requires d.CanGrow() && |d.chain| < ChunkCount(data)
    ensures Sound(view, bm, data, d.Grown(Chunk(data, |d.chain|)))
  {
    var current := NextFree(d.bm, 0).value;
    AllocationGrows(bm, d.bm, d.chain, current);
    ChainGrows(d.view, d.chain, data, current);
    GrowthStaysInChain(view, d.view, d.chain, current, ChunkSector(0, Chunk(data, |d.chain|)));
  }

  /** Writing everything lays the whole chain, in blocks that were free. */
  lemma {:induction false} WriteAllIsSound(view: Disk, bm: Bitmap, data: seq<Byte>, d: Draft)
    requires Sound(view, bm, data, d) && SystemMarked(bm)
    requires WriteAll(d, Rest(data, |d.chain|)).Some?
    ensures var d' := WriteAll(d, Rest(data, |d.chain|)).value;
            Sound(view, bm, data, d') && Laid(d'.view, d'.chain, data)
    decreases ChunkCount(data) - |d.chain|
  {
    RestCount(data, |d.chain|);
    if |d.chain| < ChunkCount(data) {
      GrownIsSound(view, bm, data, d);
      WriteAllIsSound(view, bm, data, d.Grown(Chunk(data, |d.chain|)));
    }
  }

  lemma DraftFromScratch(view: Disk, bm: Bitmap, data: seq<Byte>, d: Draft)
    requires WriteAll(Draft(view, bm, []), data) == Some(d) && SystemMarked(bm)
    ensures OnlyChain(view, d.view, d.chain) && Allocated(bm, d.bm, d.chain) && Laid(d.view, d.chain, data)
  {
    assert Rest(data, 0) == data;
    WriteAllIsSound(view, bm, data, Draft(view, bm, []));
  }

  // ---------------------------------------------------------------------------
  // A write that stops half way
  // ---------------------------------------------------------------------------

  predicate FreeIn(bm: Bitmap, s: nat) { SEC_DATA_START <= s < MAP_BITS && !Marked(bm, s) }

  /** Only blocks free at the start may have changed, and no mark was lost. */
  ghost predicate Confined(view: Disk, bm: Bitmap, view': Disk, bm': Bitmap) {
    && MarksGrow(bm, bm')
    && forall s: nat | !FreeIn(bm, s) :: (s in view <==> s in view') && (s in view ==> view'[s] == view[s])
  }

  lemma ConfinedMark(view: Disk, bm: Bitmap, view': Disk, bm': Bitmap, s: nat)
    requires Confined(view, bm, view', bm') && s < MAP_BITS
    ensures Confined(view, bm, view', WithMark(bm', s))
  {
    forall t | 0 <= t < MAP_BITS ensures Marked(WithMark(bm', s), t) == (t == s || Marked(bm', t)) {
      WithMarkIsExact(bm', s, t);
    }
  }

  lemma ConfinedPut(view: Disk, bm: Bitmap, view': Disk, bm': Bitmap, s: nat, b: Sector)
    requires Confined(view, bm, view', bm') && FreeIn(bm, s)
    ensures Confined(view, bm, view'[s := b], bm')
  {
  }

  /** A write that gave up left the directory and every protected sector alone. */
  lemma ConfinedIsAbandoned(view: Disk, bm: Bitmap, view': Disk, bm': Bitmap)
    requires HasDirectory(view) && Confined(view, bm, view', bm')
    ensures Abandoned(Volume(view, bm), Volume(view', bm'), bm, bm')
  {
    assert forall k | 0 <= k < DIR_SLOTS :: !FreeIn(bm, DirSector(k));
  }
}
