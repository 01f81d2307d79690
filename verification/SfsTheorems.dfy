/** What saving a file and syncing guarantees to every reader of the device. */
module SfsTheorems {
  import opened Basics
  import opened SfsFormat
  import opened SfsVolume
  import opened SfsIsolation
  import opened SfsWrite
  import opened SfsRoom
  import FS = FileSystem
  import BC = BlockCache

  /** The steps of `write_file` add up to a saved file on the volume. */
  lemma WroteFileIsSaved(view: Disk, bm: Bitmap, view': Disk, bm': Bitmap, p: nat, name: Str, data: seq<Byte>, d: Draft)
    requires HasDirectory(view) && SystemMarked(bm)
    requires FS.WroteFile(view, bm, view', bm', p, name, data, d)
    ensures Saved(Volume(view, bm), Volume(view', bm'), bm, bm', p, name, data, d.chain)
  {
    DraftFromScratch(view, bm, data, d);
    WrittenIsSaved(view, d.view, bm, bm', p, name, data, d.chain, view');
  }

  /** The whole volume is on the device. */
  ghost predicate Synced(fs: FS.FileSystem, dev: FS.Dev)
    reads fs, fs.cache, dev`disk
  {
    fs.Valid(dev) && dev.disk == fs.Content()
  }

  /** How a save went: the slot, the sector at which the search for it stopped, the blocks of the file, and the
      sector at which the sync failed. */
  datatype Trace = Trace(p: nat, lost: Option<nat>, chain: seq<U32>, cut: nat)

  /** From a synced state, on any device, and through any evictions. Whatever fails, no file but the target
      changes, and the volume still to be written is safe. Once a sync succeeds it is on the device, and every
      name reads as a save in slot `p` says; on a device that does not fail, a storable name reads back what was
      written. A write that failed changes no file. Where the sync fails, the target reads as before if its
      entry was not written yet, and else as what the device holds of its blocks. */
  method SaveAndSync(fs: FS.FileSystem, dev: FS.Dev, name: Str, data: seq<Byte>)
    returns (w: BC.Result<()>, s: BC.Result<nat>, ghost at: Trace)
    requires Synced(fs, dev) && SafeVolume(dev.disk, fs.bitmap)
    modifies fs`bitmap, fs`bitmapDirty, fs.cache, dev
    ensures fs.Valid(dev) && SafeVolume(fs.Content(), fs.bitmap)
    ensures s.Ok? ==> Synced(fs, dev)
    ensures w.Ok? ==> FS.Scanned(old(dev.disk), name, at.p, at.lost) && Chosen(old(dev.disk), name, at.p)
    ensures dev.failed.Continues(FS.Noted(old(dev.failed), at.lost))
    ensures forall other: Str | other != name && other != StoredName(name) ::
              ReadFile(dev.disk, other) == old(ReadFile(dev.disk, other))
    ensures w.Ok? && s.Ok? ==> forall other: Str ::
              ReadFile(dev.disk, other) == old(ReadAfter(dev.disk, name, Some(data), at.p, other))
    ensures w.Ok? && s.Ok? && dev.reliable && Storable(name) ==> ReadFile(dev.disk, name) == Some(data)
    ensures w.Err? ==> forall other: Str :: ReadFile(dev.disk, other) == old(ReadFile(dev.disk, other))
    ensures w.Ok? && s.Err? ==> TornSave(old(dev.disk), dev.disk, name, data, at)
  {
    ghost var v0, b0, d0 := fs.cache.view, fs.bitmap, dev.disk;
    ghost var p, d, lost, cut;
    w, p, d, lost := fs.WriteFile(dev, name, data);
    ghost var v1, b1, d1 := fs.cache.view, fs.bitmap, dev.disk;
    KeptIsUndisturbed(v0, b0, d0, d1);
    s, cut := fs.Sync(dev);
    at := Trace(p, lost, d.chain, cut);
    if w.Ok? {
      FS.ScannedIsChosen(d0, name, p, lost);
      AfterWrite(d0, d1, dev.disk, v0, b0, v1, b1, name, data, d, at, s.Ok?);
      if dev.reliable && Storable(name) { StorableShadowsOwn(d0, name, p); }
    } else {
      AfterFailure(d0, d1, dev.disk, v0, b0, v1, b1, cut, s.Ok?);
    }
  }

  /** The blocks of an increasing chain that lie below `cut`. */
  function Below(chain: seq<U32>, cut: nat): (k: nat)
    ensures k <= |chain| && (forall j | 0 <= j < k :: chain[j] < cut) && (k < |chain| ==> cut <= chain[k])
  {
    if chain == [] || chain[0] >= cut then 0 else 1 + Below(chain[1..], cut)
  }

  /** What the device reads as when a sync failed at a sector: as before if the entry is not below it; else the
      entry is there, with those blocks of the file that lie below. */
  ghost predicate TornSave(d: Disk, d': Disk, name: Str, data: seq<Byte>, at: Trace) {
    if at.cut <= DirSector(at.p) then
      forall other: Str :: ReadFile(d', other) == ReadFile(d, other)
    else
      && LaidUpTo(d', at.chain, data, Below(at.chain, at.cut))
      && forall other: Str ::
           var got := ReadChain(d', HeadOfChain(at.chain), |data|);
           ReadFile(d', other) == ReadAfter(d, name, got, at.p, other)
  }

  /** After a sync that failed past the entry, the target reads back exactly if all its blocks lay below the
      failure, or if the first that did not leads to the rest of the data already. */
  lemma TornReadsBackIff(d: Disk, d': Disk, name: Str, data: seq<Byte>, at: Trace, other: Str)
    requires TornSave(d, d', name, data, at) && DirSector(at.p) < at.cut && Shadows(d, name, at.p, other)
    ensures var k := Below(at.chain, at.cut);
            ReadFile(d', other) == Some(data)
            <==> k == |at.chain| || ReadChain(d', at.chain[k], |Rest(data, k)|) == Some(Rest(data, k))
  {
    ReadsBackIffRestDoes(d', at.chain, data, Below(at.chain, at.cut));
  }

  /** The directory and every protected sector of the device are as they were. */
  ghost predicate Undisturbed(d: Disk, d': Disk, bm: Bitmap) {
    && d'.Keys == d.Keys && KeepsProtected(d, d', bm)
    && forall s | SEC_DIR_START <= s < SEC_DATA_START && s in d :: d'[s] == d[s]
  }

  lemma KeptIsUndisturbed(v0: Disk, b0: Bitmap, d0: Disk, d1: Disk)
    requires d0 == Volume(v0, b0) && FS.Origin(v0, b0, d0).Keeps(d1)
    ensures Undisturbed(d0, d1, b0)
  {
  }

  /** A sync that failed before the entry's sector. */
  lemma TornIsAbandoned(d0: Disk, d1: Disk, content: Disk, d2: Disk, b0: Bitmap, b1: Bitmap, p: nat, e: Entry, cut: nat)
    requires Undisturbed(d0, d1, b0) && BC.Torn(d1, content, cut, d2)
    requires Replaced(d0, content, b0, b1, p, e) && cut <= DirSector(p)
    ensures Abandoned(d0, d2, b0, b1)
  {
    forall k | 0 <= k < DIR_SLOTS ensures DirSector(k) in d2 && EntryAt(d2, k) == EntryAt(d0, k) {
      DirSectorRange(k);
      if DirSector(k) < cut { assert EntryAt(content, k) == EntryAt(d0, k); }
    }
  }

  /** A sync that failed after the entry's sector, or not at all. */
  lemma TornIsReplaced(d0: Disk, d1: Disk, content: Disk, d2: Disk, b0: Bitmap, b1: Bitmap, p: nat, e: Entry, cut: nat)
    requires Undisturbed(d0, d1, b0) && BC.Torn(d1, content, cut, d2)
    requires Replaced(d0, content, b0, b1, p, e) && DirSector(p) < cut
    ensures Replaced(d0, d2, b0, b1, p, e)
  {
    forall k | 0 <= k < DIR_SLOTS
      ensures DirSector(k) in d2 && EntryAt(d2, k) == if k == p then e else EntryAt(d0, k)
    {
      DirSectorRange(k);
      if DirSector(k) < cut { assert EntryAt(content, k) == EntryAt(d2, k); }
    }
  }

  /** A sync that failed anywhere after a write that changed no entry. */
  lemma TornStaysAbandoned(d0: Disk, d1: Disk, content: Disk, d2: Disk, b0: Bitmap, b1: Bitmap, cut: nat)
    requires Undisturbed(d0, d1, b0) && BC.Torn(d1, content, cut, d2) && Abandoned(d0, content, b0, b1)
    ensures Abandoned(d0, d2, b0, b1)
  {
    forall k | 0 <= k < DIR_SLOTS ensures DirSector(k) in d2 && EntryAt(d2, k) == EntryAt(d0, k) { DirSectorRange(k); }
  }

  lemma LaidBelow(d1: Disk, content: Disk, d2: Disk, chain: seq<U32>, data: seq<Byte>, cut: nat)
    requires BC.Torn(d1, content, cut, d2) && Laid(content, chain, data)
    ensures LaidUpTo(d2, chain, data, Below(chain, cut))
  {
  }

  /** In the slot a full search finds, a storable name's own entry is the first of it. */
  lemma StorableShadowsOwn(d: Disk, name: Str, p: nat)
    requires Storable(name) && Target(d, name) == Some(p)
    ensures Shadows(d, name, p, name)
  {
    EntryRoundTrip(name, 0, 0);
    EntryStores(name, 0, 0);
  }

  /** For a storable name the save reads back exactly when no earlier entry of the name was missed. */
  lemma ReadsBackIffFirst(d: Disk, name: Str, data: seq<Byte>, p: nat)
    requires Storable(name) && ReadFile(d, name) != Some(data)
    ensures ReadAfter(d, name, Some(data), p, name) == Some(data)
       <==> (Find(d, name, 0).Some? ==> p <= Find(d, name, 0).value)
  {
    EntryRoundTrip(name, 0, 0);
    EntryStores(name, 0, 0);
  }

  /** After a write: every name on the volume to be written. */
  lemma AfterSave(d0: Disk, d1: Disk, v0: Disk, b0: Bitmap, v1: Disk, b1: Bitmap, p: nat, name: Str, data: seq<Byte>,
      d: Draft)
    requires HasDirectory(v0) && SystemMarked(b0) && FS.WroteFile(v0, b0, v1, b1, p, name, data, d)
    requires d0 == Volume(v0, b0) && d1 == Volume(v1, b1) && SafeVolume(d0, b0) && Chosen(d0, name, p)
    ensures SafeVolume(d1, b1)
    ensures forall other: Str :: ReadFile(d1, other) == ReadAfter(d0, name, Some(data), p, other)
  {
    WroteFileIsSaved(v0, b0, v1, b1, p, name, data, d);
    SavedIsSafe(d0, d1, b0, b1, p, name, data, d.chain);
    forall other: Str ensures ReadFile(d1, other) == ReadAfter(d0, name, Some(data), p, other) {
      SavedReads(d0, d1, b0, b1, p, name, data, d.chain, other);
    }
  }

  /** After a write and a sync that may have failed. */
  lemma AfterWrite(d0: Disk, d1: Disk, d2: Disk, v0: Disk, b0: Bitmap, v1: Disk, b1: Bitmap, name: Str, data: seq<Byte>,
      d: Draft, at: Trace, synced: bool)
    requires HasDirectory(v0) && SystemMarked(b0) && FS.WroteFile(v0, b0, v1, b1, at.p, name, data, d)
    requires d0 == Volume(v0, b0) && SafeVolume(d0, b0) && Chosen(d0, name, at.p) && at.chain == d.chain
    requires Undisturbed(d0, d1, b0)
    requires if synced then d2 == Volume(v1, b1) else BC.Torn(d1, Volume(v1, b1), at.cut, d2)
    ensures SafeVolume(Volume(v1, b1), b1)
    ensures synced ==> forall other: Str :: ReadFile(d2, other) == ReadAfter(d0, name, Some(data), at.p, other)
    ensures !synced ==> TornSave(d0, d2, name, data, at)
    ensures forall other: Str | other != name && other != StoredName(name) :: ReadFile(d2, other) == ReadFile(d0, other)
  {
    AfterSave(d0, Volume(v1, b1), v0, b0, v1, b1, at.p, name, data, d);
    if !synced {
      WroteFileIsSaved(v0, b0, v1, b1, at.p, name, data, d);
      AfterTorn(d0, d1, Volume(v1, b1), d2, b0, b1, name, data, at);
    }
  }

  lemma AfterTorn(d0: Disk, d1: Disk, content: Disk, d2: Disk, b0: Bitmap, b1: Bitmap, name: Str, data: seq<Byte>,
      at: Trace)
    requires SafeVolume(d0, b0) && Chosen(d0, name, at.p) && Undisturbed(d0, d1, b0)
    requires Saved(d0, content, b0, b1, at.p, name, data, at.chain) && BC.Torn(d1, content, at.cut, d2)
    ensures TornSave(d0, d2, name, data, at)
  {
    var head := HeadOfChain(at.chain);
    var e := EntryBytes(name, |data|, head);
    if at.cut <= DirSector(at.p) {
      TornIsAbandoned(d0, d1, content, d2, b0, b1, at.p, e, at.cut);
      forall other: Str ensures ReadFile(d2, other) == ReadFile(d0, other) {
        AbandonedKeepsAll(d0, d2, b0, b1, other);
      }
    } else {
      TornIsReplaced(d0, d1, content, d2, b0, b1, at.p, e, at.cut);
      LaidBelow(d1, content, d2, at.chain, data, at.cut);
      forall other: Str
        ensures ReadFile(d2, other) == ReadAfter(d0, name, ReadChain(d2, head, |data|), at.p, other)
      {
        ReplacedReads(d0, d2, b0, b1, at.p, name, |data|, head, other);
      }
    }
  }

  /** After a write that failed and a sync that may have. */
  lemma AfterFailure(d0: Disk, d1: Disk, d2: Disk, v0: Disk, b0: Bitmap, v1: Disk, b1: Bitmap, cut: nat, synced: bool)
    requires HasDirectory(v0) && Confined(v0, b0, v1, b1) && d0 == Volume(v0, b0) && SafeVolume(d0, b0)
    requires Undisturbed(d0, d1, b0)
    requires if synced then d2 == Volume(v1, b1) else BC.Torn(d1, Volume(v1, b1), cut, d2)
    ensures SafeVolume(Volume(v1, b1), b1) && forall other: Str :: ReadFile(d2, other) == ReadFile(d0, other)
  {
    ConfinedIsAbandoned(v0, b0, v1, b1);
    AbandonedKeepsAll(d0, Volume(v1, b1), b0, b1, []);
    if !synced { TornStaysAbandoned(d0, d1, Volume(v1, b1), d2, b0, b1, cut); }
    forall other: Str ensures ReadFile(d2, other) == ReadFile(d0, other) {
      AbandonedKeepsAll(d0, d2, b0, b1, other);
    }
  }

  /** On a device that does not fail, a write succeeds exactly when there is a directory slot and a free
      block for each chunk, and takes that many blocks. */
  method WriteIfRoom(fs: FS.FileSystem, dev: FS.Dev, name: Str, data: seq<Byte>) returns (w: BC.Result<()>)
    requires fs.Valid(dev) && fs.Sturdy(dev)
    modifies fs`bitmap, fs`bitmapDirty, fs.cache, dev
    ensures fs.Valid(dev) && fs.Sturdy(dev)
    ensures w.Ok? <==> old(Target(dev.disk, name)).Some? && ChunkCount(data) <= old(FreeCount(fs.bitmap, 0))
    ensures w.Ok? ==> FreeCount(fs.bitmap, 0) == old(FreeCount(fs.bitmap, 0)) - ChunkCount(data)
    ensures w == BC.Err(BC.RootDirFull) <==> old(Target(dev.disk, name)).None?
  {
    ghost var d0 := Draft(fs.cache.view, fs.bitmap, []);
    WrittenIffRoom(d0, data);
    ghost var p, d, lost;
    w, p, d, lost := fs.WriteFile(dev, name, data);
    assert w.Err? ==> w.error.DiskFull? || w.error.RootDirFull?;
  }
}
