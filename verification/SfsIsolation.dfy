/** What saving a file does to every file of the volume. */
module SfsIsolation {
  import opened Basics
  import opened SfsFormat
  import opened SfsVolume

  type Bitmap = b: seq<Byte> | |b| == 512 witness seq(512, _ => 0)

  /** Sectors an allocation never returns and the directory does not use. */
  predicate Protected(bm: Bitmap, s: nat) { s >= SEC_DATA_START && (s >= MAP_BITS || Marked(bm, s)) }

  ghost predicate AllProtected(bm: Bitmap, chain: seq<U32>) {
    forall k | 0 <= k < |chain| :: Protected(bm, chain[k])
  }

  /** The sectors a reader of this chain visits are all protected. */
  predicate SafeChain(d: Disk, bm: Bitmap, next: nat, left: nat)
    decreases left
  {
    next == 0 || left == 0
    || (Protected(bm, next) && (next in d ==> SafeChain(d, bm, Link(d[next]), left - Min(left, CHUNK))))
  }

  /** Every live entry's chain is safe, and the superblock, bitmap and directory sectors are marked. */
  ghost predicate SafeVolume(d: Disk, bm: Bitmap) {
    && HasDirectory(d)
    && (forall s | 0 <= s < SEC_DATA_START :: Marked(bm, s))
    && forall k | 0 <= k < DIR_SLOTS :: Live(EntryAt(d, k)) ==>
         SafeChain(d, bm, HeadOf(EntryAt(d, k)), SizeOf(EntryAt(d, k)))
  }

  ghost predicate KeepsProtected(d: Disk, d': Disk, bm: Bitmap) {
    forall s | Protected(bm, s) :: (s in d <==> s in d') && (s in d ==> d'[s] == d[s])
  }

  ghost predicate MarksGrow(bm: seq<Byte>, bm': seq<Byte>) {
    |bm| == |bm'| && forall s | 0 <= s < 8 * |bm| :: Marked(bm, s) ==> Marked(bm', s)
  }

  /** A safe chain reads the same, and stays safe, when only unprotected sectors change. */
  lemma {:induction false} SafeChainFrame(d: Disk, d': Disk, bm: Bitmap, bm': Bitmap, next: nat, left: nat)
    requires SafeChain(d, bm, next, left) && KeepsProtected(d, d', bm) && MarksGrow(bm, bm')
    ensures ReadChain(d', next, left) == ReadChain(d, next, left)
    ensures SafeChain(d', bm', next, left)
    decreases left
  {
    if next != 0 && left != 0 && next in d {
      SafeChainFrame(d, d', bm, bm', Link(d[next]), left - Min(left, CHUNK));
    }
  }

  lemma SafeStep(d: Disk, bm: Bitmap, s: U32, next: U32, bytes: seq<Byte>, left: nat)
    requires Protected(bm, s) && s in d && left > 0 && |bytes| == Min(left, CHUNK) && d[s] == ChunkSector(next, bytes)
    requires SafeChain(d, bm, next, left - |bytes|)
    ensures SafeChain(d, bm, s, left)
  {
    ChunkSectorParts(next, bytes);
  }

  lemma {:induction false} LaidIsSafe(d: Disk, bm: Bitmap, chain: seq<U32>, data: seq<Byte>, k: nat)
    requires Laid(d, chain, data) && k < |chain| && AllProtected(bm, chain)
    ensures SafeChain(d, bm, chain[k], |Rest(data, k)|)
    decreases |chain| - k
  {
    RestCount(data, k);
    RestCount(data, k + 1);
    ChunkLength(data, k);
    if k + 1 < |chain| {
      LaidIsSafe(d, bm, chain, data, k + 1);
    }
    SafeStep(d, bm, chain[k], NextOf(chain, k), Chunk(data, k), |Rest(data, k)|);
  }

  /** The slot `write_file` uses: the file's own, or the first free one. */
  function Target(d: Disk, name: Str): Option<nat> {
    if Find(d, name, 0).Some? then Find(d, name, 0) else FindFree(d, 0)
  }

  /** The volume `d'` is `d` with the entry in slot `p` replaced and every protected sector as it was. */
  ghost predicate Replaced(d: Disk, d': Disk, bm: Bitmap, bm': Bitmap, p: nat, e: Entry) {
    && HasDirectory(d) && HasDirectory(d') && p < DIR_SLOTS
    && (forall k | 0 <= k < DIR_SLOTS :: EntryAt(d', k) == if k == p then e else EntryAt(d, k))
    && KeepsProtected(d, d', bm) && MarksGrow(bm, bm')
  }

  /** The volume `d'` is `d` with the file saved in slot `p`: one directory entry replaced, its chain laid
      in sectors that were free, every protected sector as it was. */
  ghost predicate Saved(d: Disk, d': Disk, bm: Bitmap, bm': Bitmap, p: nat, name: Str, data: seq<Byte>,
      chain: seq<U32>)
  {
    && |data| < 0x1_0000_0000 && Replaced(d, d', bm, bm', p, EntryBytes(name, |data|, HeadOfChain(chain)))
    && Laid(d', chain, data) && AllProtected(bm', chain)
  }

  /** Slot `j` holds a live entry of that name. */
  ghost predicate Matches(d: Disk, j: nat, name: Str)
    requires DirSector(j) in d
  {
    Live(EntryAt(d, j)) && NameOf(EntryAt(d, j)) == name
  }

  lemma {:induction false} FindSkips(d: Disk, name: Str, k: nat, p: nat)
    requires HasDirectory(d) && k <= p < DIR_SLOTS && forall j | k <= j < p :: !Matches(d, j, name)
    ensures Find(d, name, k) == Find(d, name, p)
    decreases p - k
  {
    if k < p {
      assert !Matches(d, k, name);
      FindSkips(d, name, k + 1, p);
    }
  }

  lemma {:induction false} FindIsFirst(d: Disk, name: Str, k: nat, j: nat)
    requires HasDirectory(d) && k <= j < DIR_SLOTS && (Find(d, name, k).Some? ==> j < Find(d, name, k).value)
    ensures !Matches(d, j, name)
    decreases j - k
  {
    if k < j { FindIsFirst(d, name, k + 1, j); }
  }

  /** Two directories with the same matches for a name have the same first match. */
  lemma {:induction false} FindFrame(d: Disk, d': Disk, name: Str, k: nat)
    requires HasDirectory(d) && HasDirectory(d')
    requires forall j | k <= j < DIR_SLOTS :: Matches(d, j, name) == Matches(d', j, name)
    ensures Find(d, name, k) == Find(d', name, k)
    decreases DIR_SLOTS - k
  {
    if k < DIR_SLOTS {
      assert Matches(d, k, name) == Matches(d', k, name);
      FindFrame(d, d', name, k + 1);
    }
  }

  /** Round trip: the saved file reads back as the data. */
  lemma SavedReadsBack(d: Disk, d': Disk, bm: Bitmap, bm': Bitmap, name: Str, data: seq<Byte>, chain: seq<U32>)
    requires Storable(name) && Target(d, name).Some?
    requires Saved(d, d', bm, bm', Target(d, name).value, name, data, chain)
    ensures ReadFile(d', name) == Some(data)
  {
    var p := Target(d, name).value;
    EntryRoundTrip(name, |data|, HeadOfChain(chain));
    forall j | 0 <= j < p ensures !Matches(d', j, name) { FindIsFirst(d, name, 0, j); }
    FindSkips(d', name, 0, p);
    ReadLaid(d', chain, data);
  }

  lemma {:induction false} FoundMatches(d: Disk, name: Str, k: nat)
    requires Find(d, name, k).Some?
    ensures Matches(d, Find(d, name, k).value, name)
    decreases DIR_SLOTS - k
  {
    if !Matches(d, k, name) { FoundMatches(d, name, k + 1); }
  }

  // ---------------------------------------------------------------------------
  // What every name reads as after a save, in whatever slot and under whatever name
  // ---------------------------------------------------------------------------

  /** A slot a save may take: the first of that name, or a free one. */
  ghost predicate Chosen(d: Disk, name: Str, p: nat) {
    p < DIR_SLOTS && DirSector(p) in d && (Find(d, name, 0) == Some(p) || !Live(EntryAt(d, p)))
  }

  /** The entry written for `name` in slot `p` is the first that a reader of `other` finds. */
  predicate Shadows(d: Disk, name: Str, p: nat, other: Str) {
    && name != [] && name[0] != 0 && other == StoredName(name)
    && (Find(d, other, 0).Some? ==> p <= Find(d, other, 0).value)
  }

  function ReadSlot(d: Disk, k: Option<nat>): Option<seq<Byte>>
    requires k.Some? ==> DirSector(k.value) in d
  {
    if k.None? then None else ReadEntry(d, EntryAt(d, k.value))
  }

  /** What `other` reads as after saving under `name` in slot `p`, where the new entry reads as `got`: that if
      the new entry comes first for it, else what it read as before. Only the empty name loses an entry, when
      saving under it. */
  function ReadAfter(d: Disk, name: Str, got: Option<seq<Byte>>, p: nat, other: Str): Option<seq<Byte>> {
    if Shadows(d, name, p, other) then got
    else if name == [] && other == name && Find(d, name, 0) == Some(p) then ReadSlot(d, Find(d, name, p + 1))
    else ReadFile(d, other)
  }

  lemma FindHits(d: Disk, name: Str, p: nat)
    requires HasDirectory(d) && p < DIR_SLOTS && DirSector(p) in d && Matches(d, p, name)
    requires forall j | 0 <= j < p :: DirSector(j) in d && !Matches(d, j, name)
    ensures Find(d, name, 0) == Some(p)
  {
    FindSkips(d, name, 0, p);
  }

  lemma NoneBefore(d: Disk, name: Str, p: nat)
    requires HasDirectory(d) && p <= DIR_SLOTS && (Find(d, name, 0).Some? ==> p <= Find(d, name, 0).value)
    ensures forall j | 0 <= j < p :: DirSector(j) in d && !Matches(d, j, name)
  {
    forall j | 0 <= j < p ensures DirSector(j) in d && !Matches(d, j, name) { FindIsFirst(d, name, 0, j); }
  }

  lemma ShadowedReads(d: Disk, d': Disk, bm: Bitmap, bm': Bitmap, p: nat, name: Str, size: U32, head: U32, other: Str)
    requires Replaced(d, d', bm, bm', p, EntryBytes(name, size, head)) && Shadows(d, name, p, other)
    ensures ReadFile(d', other) == ReadChain(d', head, size)
  {
    EntryStores(name, size, head);
    EntryRoundTrip(name, size, head);
    NoneBefore(d, other, p);
    SameMatches(d, d', bm, bm', p, EntryBytes(name, size, head), other);
    FindHits(d', other, p);
  }

  /** Outside the slot the same entries have a name. */
  lemma SameMatches(d: Disk, d': Disk, bm: Bitmap, bm': Bitmap, p: nat, e: Entry, name: Str)
    requires Replaced(d, d', bm, bm', p, e)
    ensures forall j | 0 <= j < DIR_SLOTS && j != p :: Matches(d', j, name) == Matches(d, j, name)
  {
  }

  /** An entry outside the slot reads as before. */
  lemma SlotKeeps(d: Disk, d': Disk, bm: Bitmap, bm': Bitmap, p: nat, e: Entry, k: nat)
    requires SafeVolume(d, bm) && Replaced(d, d', bm, bm', p, e) && k < DIR_SLOTS && k != p && Live(EntryAt(d, k))
    ensures ReadEntry(d', EntryAt(d', k)) == ReadEntry(d, EntryAt(d, k))
  {
    SafeChainFrame(d, d', bm, bm', HeadOf(EntryAt(d, k)), SizeOf(EntryAt(d, k)));
  }

  /** An earlier entry of the name hides the new one. */
  lemma HiddenReads(d: Disk, d': Disk, bm: Bitmap, bm': Bitmap, p: nat, e: Entry, other: Str)
    requires SafeVolume(d, bm) && Replaced(d, d', bm, bm', p, e)
    requires Find(d, other, 0).Some? && Find(d, other, 0).value < p
    ensures ReadFile(d', other) == ReadFile(d, other)
  {
    var k := Find(d, other, 0).value;
    FoundMatches(d, other, 0);
    NoneBefore(d, other, k);
    SameMatches(d, d', bm, bm', p, e, other);
    FindHits(d', other, k);
    SlotKeeps(d, d', bm, bm', p, e, k);
  }

  /** If neither the old nor the new entry of the slot has the name, nothing changes for it. */
  lemma UnmatchedReads(d: Disk, d': Disk, bm: Bitmap, bm': Bitmap, p: nat, e: Entry, other: Str)
    requires SafeVolume(d, bm) && Replaced(d, d', bm, bm', p, e)
    requires !Matches(d, p, other) && !Matches(d', p, other)
    ensures ReadFile(d', other) == ReadFile(d, other)
  {
    SameMatches(d, d', bm, bm', p, e, other);
    FindFrame(d, d', other, 0);
    var k := Find(d, other, 0);
    if k.Some? {
      FoundMatches(d, other, 0);
      SlotKeeps(d, d', bm, bm', p, e, k.value);
    }
  }

  lemma FindPast(d: Disk, d': Disk, bm: Bitmap, bm': Bitmap, p: nat, e: Entry, name: Str)
    requires Replaced(d, d', bm, bm', p, e) && Find(d, name, 0) == Some(p) && !Live(EntryAt(d', p))
    ensures Find(d', name, 0) == Find(d, name, p + 1)
  {
    NoneBefore(d, name, p);
    SameMatches(d, d', bm, bm', p, e, name);
    FindSkips(d', name, 0, p);
    assert !Matches(d', p, name);
    FindFrame(d, d', name, p + 1);
  }

  /** Saving under the empty name takes the entry of the slot away. */
  lemma EmptyNameReads(d: Disk, d': Disk, bm: Bitmap, bm': Bitmap, p: nat, e: Entry, name: Str)
    requires SafeVolume(d, bm) && Replaced(d, d', bm, bm', p, e)
    requires Find(d, name, 0) == Some(p) && !Live(EntryAt(d', p))
    ensures ReadFile(d', name) == ReadSlot(d, Find(d, name, p + 1))
  {
    FindPast(d, d', bm, bm', p, e, name);
    var k := Find(d, name, p + 1);
    if k.Some? {
      FoundMatches(d, name, p + 1);
      SlotKeeps(d, d', bm, bm', p, e, k.value);
    }
  }

  /** What every name reads as once an entry for `name` replaced the one in a slot that was chosen for it,
      wherever the new entry points. */
  lemma ReplacedReads(d: Disk, d': Disk, bm: Bitmap, bm': Bitmap, p: nat, name: Str, size: U32, head: U32, other: Str)
    requires SafeVolume(d, bm) && Chosen(d, name, p) && Replaced(d, d', bm, bm', p, EntryBytes(name, size, head))
    ensures ReadFile(d', other) == ReadAfter(d, name, ReadChain(d', head, size), p, other)
  {
    var e := EntryBytes(name, size, head);
    EntryStores(name, size, head);
    if Find(d, name, 0).Some? { FoundMatches(d, name, 0); }
    if Shadows(d, name, p, other) {
      ShadowedReads(d, d', bm, bm', p, name, size, head, other);
    } else if Matches(d', p, other) {
      HiddenReads(d, d', bm, bm', p, e, other);
    } else if Matches(d, p, other) {
      OwnEntryMatches(d, name, p, other);
      EmptyNameReads(d, d', bm, bm', p, e, name);
    } else {
      UnmatchedReads(d, d', bm, bm', p, e, other);
    }
  }

  /** Read-back and isolation, for every name saved under and every name read. */
  lemma SavedReads(d: Disk, d': Disk, bm: Bitmap, bm': Bitmap, p: nat, name: Str, data: seq<Byte>, chain: seq<U32>,
      other: Str)
    requires SafeVolume(d, bm) && Chosen(d, name, p) && Saved(d, d', bm, bm', p, name, data, chain)
    ensures ReadFile(d', other) == ReadAfter(d, name, Some(data), p, other)
  {
    ReplacedReads(d, d', bm, bm', p, name, |data|, HeadOfChain(chain), other);
    ReadLaid(d', chain, data);
  }

  /** An entry that a save replaces carries the very name, which is storable or empty. */
  lemma OwnEntryMatches(d: Disk, name: Str, p: nat, other: Str)
    requires Chosen(d, name, p) && Matches(d, p, other)
    ensures other == name && Find(d, name, 0) == Some(p) && (name == [] || StoredName(name) == name)
  {
    FoundMatches(d, name, 0);
    NameIsStorable(EntryAt(d, p));
    if name != [] {
      EntryRoundTrip(name, 0, 0);
      EntryStores(name, 0, 0);
    }
  }

  /** Isolation: a name that is neither the one saved under nor what its entry shows reads as before. */
  lemma SavedKeepsOthers(d: Disk, d': Disk, bm: Bitmap, bm': Bitmap, p: nat, name: Str, data: seq<Byte>,
      chain: seq<U32>, other: Str)
    requires SafeVolume(d, bm) && Chosen(d, name, p) && Saved(d, d', bm, bm', p, name, data, chain)
    requires other != name && other != StoredName(name)
    ensures ReadFile(d', other) == ReadFile(d, other)
  {
    SavedReads(d, d', bm, bm', p, name, data, chain, other);
  }

  /** Saving keeps the volume safe. */
  lemma SavedIsSafe(d: Disk, d': Disk, bm: Bitmap, bm': Bitmap, p: nat, name: Str, data: seq<Byte>, chain: seq<U32>)
    requires SafeVolume(d, bm) && Saved(d, d', bm, bm', p, name, data, chain)
    ensures SafeVolume(d', bm')
  {
    forall k | 0 <= k < DIR_SLOTS && Live(EntryAt(d', k))
      ensures SafeChain(d', bm', HeadOf(EntryAt(d', k)), SizeOf(EntryAt(d', k)))
    {
      if k == p {
        EntryRoundTrip(name, |data|, HeadOfChain(chain));
        if chain != [] { LaidIsSafe(d', bm', chain, data, 0); }
      } else {
        SafeChainFrame(d, d', bm, bm', HeadOf(EntryAt(d, k)), SizeOf(EntryAt(d, k)));
      }
    }
  }

  /** An abandoned save: the directory and all protected sectors as they were. */
  ghost predicate Abandoned(d: Disk, d': Disk, bm: Bitmap, bm': Bitmap) {
    && HasDirectory(d) && HasDirectory(d') && KeepsProtected(d, d', bm) && MarksGrow(bm, bm')
    && forall k | 0 <= k < DIR_SLOTS :: EntryAt(d', k) == EntryAt(d, k)
  }

  /** After a failed write every file, the target included, reads as before, and the volume is safe. */
  lemma AbandonedKeepsAll(d: Disk, d': Disk, bm: Bitmap, bm': Bitmap, name: Str)
    requires SafeVolume(d, bm) && Abandoned(d, d', bm, bm')
    ensures ReadFile(d', name) == ReadFile(d, name) && SafeVolume(d', bm')
  {
    FindFrame(d, d', name, 0);
    if Find(d, name, 0).Some? { FoundMatches(d, name, 0); }
    forall k | 0 <= k < DIR_SLOTS && Live(EntryAt(d, k))
      ensures ReadEntry(d', EntryAt(d, k)) == ReadEntry(d, EntryAt(d, k))
      ensures SafeChain(d', bm', HeadOf(EntryAt(d, k)), SizeOf(EntryAt(d, k)))
    {
      SafeChainFrame(d, d', bm, bm', HeadOf(EntryAt(d, k)), SizeOf(EntryAt(d, k)));
    }
  }

  /** Of the nonempty names, exactly the storable ones read back what was saved under them. */
  lemma SavedReadsBackIffStorable(d: Disk, d': Disk, bm: Bitmap, bm': Bitmap, name: Str, data: seq<Byte>,
      chain: seq<U32>)
    requires name != [] && Target(d, name).Some?
    requires Saved(d, d', bm, bm', Target(d, name).value, name, data, chain)
    ensures ReadFile(d', name) == Some(data) <==> Storable(name)
  {
    if Storable(name) {
      SavedReadsBack(d, d', bm, bm', name, data, chain);
    } else {
      UnstorableIsNotFound(d', name);
    }
  }

  lemma NameIsStorable(e: Entry)
    ensures NameOf(e) == [] || Storable(NameOf(e))
  {
    assert e[..NulPosition(e[..24])] == e[..24][..NulPosition(e[..24])];
  }

  lemma {:induction false} NoMatchNoFind(d: Disk, name: Str, k: nat)
    requires HasDirectory(d) && forall j | k <= j < DIR_SLOTS :: !Matches(d, j, name)
    ensures Find(d, name, k) == None
    decreases DIR_SLOTS - k
  {
    if k < DIR_SLOTS {
      assert !Matches(d, k, name);
      NoMatchNoFind(d, name, k + 1);
    }
  }

  lemma UnstorableIsNotFound(d: Disk, name: Str)
    requires HasDirectory(d) && name != [] && !Storable(name)
    ensures Find(d, name, 0) == None
  {
    forall j | 0 <= j < DIR_SLOTS ensures !Matches(d, j, name) { UnstorableIsNoName(EntryAt(d, j), name); }
    NoMatchNoFind(d, name, 0);
  }

  lemma UnstorableIsNoName(e: Entry, name: Str)
    requires name != [] && !Storable(name)
    ensures NameOf(e) != name
  {
    NameIsStorable(e);
  }
}
