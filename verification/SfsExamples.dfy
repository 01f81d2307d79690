/** Inputs at which saving a file does not do what one would hope. */
module SfsExamples {
  import opened Basics
  import opened SfsFormat
  import opened SfsVolume
  import opened SfsIsolation
  import opened SfsWrite
  import opened SfsTheorems
  import FS = FileSystem
  import BC = BlockCache

  /** A bitmap with just the system sectors marked. */
  function FreshMap(): Bitmap { seq(512, i => FreshByte(i)) }

  function FreshByte(i: int): Byte { if i < 16 then 0xFF else if i == 16 then 1 else 0 }

  lemma FreshMapMarks()
    ensures SystemMarked(FreshMap()) && NextFree(FreshMap(), 0) == Some(SEC_DATA_START)
  {
    forall t | 0 <= t < SEC_DATA_START ensures Marked(FreshMap(), t) {
      if t < 128 { FullByte(FreshMap(), t / 8); }
    }
    NextFreeSkips(FreshMap(), 0, SEC_DATA_START);
    assert FreshMap()[16] == 1 && !Bit(1, 1);
  }

  function DirectorySector(s: nat, k: nat, e: Entry): Sector {
    if s == DirSector(k) then WithEntry(Zeros(512), k, e) else Zeros(512)
  }

  /** A volume with one data sector, whose only entry is `e` in slot `k`. */
  function OneEntry(k: nat, e: Entry): Disk {
    (map s | SEC_DIR_START <= s <= SEC_DATA_START :: DirectorySector(s, k, e))[SEC_MAP_START := FreshMap()]
  }

  lemma OneEntryIs(k: nat, e: Entry, j: nat)
    requires k < DIR_SLOTS && j < DIR_SLOTS
    ensures DirSector(j) in OneEntry(k, e) && EntryAt(OneEntry(k, e), j) == if j == k then e else Zeros(32)
  {
    DirSectorRange(j);
    if DirSector(j) == DirSector(k) {
      WithEntryIsExact(Zeros(512), k, e, j);
      assert j % 16 == k % 16 ==> j == k;
    }
  }

  /** It holds one empty file. */
  lemma OneEmptyFile(k: nat, name: Str)
    requires k < DIR_SLOTS && Storable(name)
    ensures var d := OneEntry(k, EntryBytes(name, 0, 0));
            && SafeVolume(d, FreshMap()) && Volume(d, FreshMap()) == d
            && Find(d, name, 0) == Some(k) && ReadFile(d, name) == Some([])
            && forall j | 0 <= j < DIR_SLOTS :: Live(EntryAt(d, j)) <==> j == k
  {
    var e := EntryBytes(name, 0, 0);
    var d := OneEntry(k, e);
    FreshMapMarks();
    EntryRoundTrip(name, 0, 0);
    forall j | 0 <= j < DIR_SLOTS
      ensures DirSector(j) in d && EntryAt(d, j) == if j == k then e else Zeros(32)
    {
      OneEntryIs(k, e, j);
    }
    assert HasDirectory(d);
    FindHits(d, name, k);
  }

  /** One chunk written to such a volume from its first free block. */
  lemma OneChunk(view: Disk, data: seq<Byte>)
    requires 0 < |data| <= CHUNK
    ensures var d := Draft(view, FreshMap(), []); d.CanGrow() && WriteAll(d, data) == Some(d.Grown(data))
  {
    FreshMapMarks();
    assert data[..|data|] == data && data[|data|..] == [];
  }

  /** The draft of one chunk, and the view once the entry for it is in slot `p`. */
  ghost function Wrote(d: Disk, p: nat, name: Str, data: seq<Byte>): (r: (Disk, Draft))
    requires HasDirectory(d) && p < DIR_SLOTS && 0 < |data| <= CHUNK
    ensures FS.WroteFile(d, FreshMap(), r.0, r.1.bm, p, name, data, r.1)
  {
    OneChunk(d, data);
    DirSectorRange(p);
    var draft := Draft(d, FreshMap(), []).Grown(data);
    (WithDirEntry(draft.view, p, EntryBytes(name, |data| % 0x1_0000_0000, HeadOfChain(draft.chain))), draft)
  }

  lemma WroteReads(d: Disk, p: nat, name: Str, data: seq<Byte>, other: Str)
    requires SafeVolume(d, FreshMap()) && Volume(d, FreshMap()) == d && Chosen(d, name, p) && 0 < |data| <= CHUNK
    ensures var (view, draft) := Wrote(d, p, name, data);
            ReadFile(Volume(view, draft.bm), other) == ReadAfter(d, name, Some(data), p, other)
  {
    FreshMapMarks();
    var (view, draft) := Wrote(d, p, name, data);
    AfterSave(d, Volume(view, draft.bm), d, FreshMap(), view, draft.bm, p, name, data, draft);
  }

  /** The file's entry is in slot 0, and its sector cannot be read when `write_file` searches for it. The free
      slot behind it is taken, the write succeeds, and the old contents still read back. */
  lemma ReadErrorHidesWrite(name: Str, data: seq<Byte>) returns (d: Disk)
    requires Storable(name) && 0 < |data| <= CHUNK
    ensures SafeVolume(d, FreshMap()) && Find(d, name, 0) == Some(0) && FS.Scanned(d, name, 1, Some(SEC_DIR_START))
    ensures var (view, draft) := Wrote(d, 1, name, data); ReadFile(Volume(view, draft.bm), name) == Some([])
  {
    d := OneEntry(0, EntryBytes(name, 0, 0));
    OneEmptyFile(0, name);
    assert DirSector(0) == SEC_DIR_START && DirSector(1) == SEC_DIR_START;
    assert FindFree(d, 0) == FindFree(d, 1) == Some(1);
    assert Find(FS.Readable(d, Some(SEC_DIR_START)), name, 0) == None;
    WroteReads(d, 1, name, data, name);
  }

  /** The device after a one-chunk save over an empty file whose sync failed at the data block: the bitmap and the
      entry went out before it. */
  ghost function TornDisk(d: Disk, name: Str, data: seq<Byte>): (d': Disk)
    requires HasDirectory(d) && 0 < |data| <= CHUNK
  {
    var (view, draft) := Wrote(d, 0, name, data);
    Volume(d, draft.bm)[SEC_DIR_START := view[SEC_DIR_START]]
  }

  lemma TornDiskIsTorn(name: Str, data: seq<Byte>)
    requires Storable(name) && 0 < |data| <= CHUNK
    ensures var d := OneEntry(0, EntryBytes(name, 0, 0));
            && HasDirectory(d)
            && var (view, draft) := Wrote(d, 0, name, data);
            && draft.chain == [SEC_DATA_START]
            && BC.Torn(d, Volume(view, draft.bm), SEC_DATA_START, TornDisk(d, name, data))
  {
    FreshMapMarks();
    assert DirSector(0) == SEC_DIR_START;
  }

  lemma ZerosRead(d: Disk, n: nat)
    requires SEC_DATA_START in d && d[SEC_DATA_START] == Zeros(512) && n <= CHUNK
    ensures ReadChain(d, SEC_DATA_START, n) == Some(Zeros(n))
  {
    assert Zeros(512)[..4] == [0, 0, 0, 0] && Link(Zeros(512)) == 0;
    assert Zeros(512)[4..4 + n] + [] == Zeros(n);
  }

  /** An empty file is overwritten and the sync fails at the data block. The entry is on the device, the data is
      not: the file reads as zeros, neither the old contents nor the new unless those are zeros too. */
  lemma FailedSyncTearsFile(name: Str, data: seq<Byte>) returns (d: Disk, at: Trace)
    requires Storable(name) && 0 < |data| <= CHUNK
    ensures SafeVolume(d, FreshMap()) && ReadFile(d, name) == Some([]) && Target(d, name) == Some(at.p)
    ensures var (view, draft) := Wrote(d, at.p, name, data);
            at.chain == draft.chain && BC.Torn(d, Volume(view, draft.bm), at.cut, TornDisk(d, name, data))
    ensures TornSave(d, TornDisk(d, name, data), name, data, at)
    ensures ReadFile(TornDisk(d, name, data), name) == Some(Zeros(|data|))
  {
    d, at := OneEntry(0, EntryBytes(name, 0, 0)), Trace(0, None, [SEC_DATA_START], SEC_DATA_START);
    OneEmptyFile(0, name);
    TornDiskIsTorn(name, data);
    FreshMapMarks();
    var (view, draft) := Wrote(d, 0, name, data);
    WroteFileIsSaved(d, FreshMap(), view, draft.bm, 0, name, data, draft);
    AfterTorn(d, d, Volume(view, draft.bm), TornDisk(d, name, data), FreshMap(), draft.bm, name, data, at);
    ZerosRead(TornDisk(d, name, data), |data|);
    StorableShadowsOwn(d, name, 0);
  }

  function Letters(n: nat): (s: seq<Byte>)
    ensures |s| == n && Utf8(s) && 0 !in s
  {
    if n == 0 then [] else
    var s := [0x61] + Letters(n - 1);
    assert s[1..] == Letters(n - 1);
    s
  }

  lemma {:induction false} LettersPrefix(m: nat, n: nat)
    requires m <= n
    ensures Letters(n)[..m] == Letters(m)
  {
    if m > 0 {
      LettersPrefix(m - 1, n - 1);
      assert Letters(n)[..m] == [0x61] + Letters(n - 1)[..m - 1];
    }
  }

  /** A name that must be cut to be stored is saved in the free slot before a file whose name is what remains of
      it: it cannot be read, and the other file reads as the data. */
  lemma CutNameShadows(name: Str, data: seq<Byte>) returns (d: Disk)
    requires name != [] && !Storable(name) && Storable(StoredName(name)) && 0 < |data| <= CHUNK
    ensures SafeVolume(d, FreshMap()) && Target(d, name) == Some(0) && ReadFile(d, StoredName(name)) == Some([])
    ensures var (view, draft) := Wrote(d, 0, name, data);
            && ReadFile(Volume(view, draft.bm), name) == None
            && ReadFile(Volume(view, draft.bm), StoredName(name)) == Some(data)
  {
    var short := StoredName(name);
    d := OneEntry(1, EntryBytes(short, 0, 0));
    OneEmptyFile(1, short);
    UnstorableIsNotFound(d, name);
    assert FindFree(d, 0) == Some(0);
    WroteReads(d, 0, name, data, name);
    WroteReads(d, 0, name, data, short);
  }

  /** So it is with 25 letters. */
  lemma LongNameShadows(data: seq<Byte>) returns (d: Disk)
    requires 0 < |data| <= CHUNK
    ensures SafeVolume(d, FreshMap()) && Target(d, Letters(25)) == Some(0) && ReadFile(d, Letters(24)) == Some([])
    ensures var (view, draft) := Wrote(d, 0, Letters(25), data);
            && ReadFile(Volume(view, draft.bm), Letters(25)) == None
            && ReadFile(Volume(view, draft.bm), Letters(24)) == Some(data)
  {
    CutLetters();
    d := CutNameShadows(Letters(25), data);
  }

  lemma CutLetters()
    ensures StoredName(Letters(25)) == Letters(24) && Letters(25) != Letters(24) && Letters(25)[0] == 0x61
  {
    NulIsFirst(Letters(25), 25);
    LettersPrefix(24, 25);
  }
}
