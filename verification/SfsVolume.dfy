/** Directory and files of an SFS disk image: what a reader gets, and which sectors it depends on. */
module SfsVolume {
  import opened Basics
  import opened SfsFormat

  // ---------------------------------------------------------------------------
  // Names
  // ---------------------------------------------------------------------------

  predicate Continuation(b: Byte) { 0x80 <= b < 0xC0 }

  /** Well-formed UTF-8, which every `str` is. */
  predicate Utf8(s: seq<Byte>) {
    if s == [] then true
    else if s[0] < 0x80 then Utf8(s[1..])
    else if 0xC2 <= s[0] < 0xE0 then |s| >= 2 && Continuation(s[1]) && Utf8(s[2..])
    else if 0xE0 <= s[0] < 0xF0 then
      && |s| >= 3 && Continuation(s[1]) && Continuation(s[2])
      && (s[0] == 0xE0 ==> s[1] >= 0xA0) && (s[0] == 0xED ==> s[1] < 0xA0) && Utf8(s[3..])
    else
      && 0xF0 <= s[0] < 0xF5 && |s| >= 4 && Continuation(s[1]) && Continuation(s[2]) && Continuation(s[3])
      && (s[0] == 0xF0 ==> s[1] >= 0x90) && (s[0] == 0xF4 ==> s[1] < 0x90) && Utf8(s[4..])
  }

  type Str = s: seq<Byte> | Utf8(s) witness []

  /** A name a directory entry can hold: 1 to 24 bytes without NUL. */
  predicate Storable(name: Str) { 1 <= |name| <= 24 && 0 !in name }

  /** Position of the first NUL, or the length. */
  function NulPosition(s: seq<Byte>): (n: nat)
    ensures n <= |s| && 0 !in s[..n] && (n < |s| ==> s[n] == 0)
  {
    if s == [] || s[0] == 0 then 0
    else
      var n := NulPosition(s[1..]);
      assert s[..n + 1] == [s[0]] + s[1..][..n];
      n + 1
  }

  lemma {:induction false} NulIsFirst(s: seq<Byte>, n: nat)
    requires n <= |s| && 0 !in s[..n] && (n < |s| ==> s[n] == 0)
    ensures NulPosition(s) == n
    decreases |s|
  {
    if n > 0 {
      assert s[0] == s[..n][0] && s[1..][..n - 1] == s[..n][1..];
      NulIsFirst(s[1..], n - 1);
    }
  }

  lemma {:induction false} NulAfterName(name: seq<Byte>, pad: nat)
    requires 0 !in name
    ensures NulPosition(name + Zeros(pad)) == |name|
    decreases |name|
  {
    if name != [] {
      NulAfterName(name[1..], pad);
      assert (name + Zeros(pad))[1..] == name[1..] + Zeros(pad);
    }
  }

  // ---------------------------------------------------------------------------
  // Directory
  // ---------------------------------------------------------------------------

  type Entry = e: seq<Byte> | |e| == 32 witness seq(32, _ => 0)

  predicate Live(e: Entry) { e[0] != 0 }

  /** The entry's name as the kernel compares it: up to NUL, and empty if it is not UTF-8. */
  function NameOf(e: Entry): Str {
    var raw := e[..NulPosition(e[..24])];
    if Utf8(raw) then raw else []
  }

  function SizeOf(e: Entry): U32 { FromLe32(e[24..28]) }
  function HeadOf(e: Entry): U32 { FromLe32(e[28..32]) }

  /** The name field: at most 24 bytes, padded with NUL. */
  function NameField(name: seq<Byte>): (f: seq<Byte>)
    ensures |f| == 24
  {
    name[..Min(|name|, 24)] + Zeros(24 - Min(|name|, 24))
  }

  function EntryBytes(name: seq<Byte>, size: U32, head: U32): Entry {
    NameField(name) + Le32(size) + Le32(head)
  }

  /** The name a reader finds in an entry written for `name`: cut at 24 bytes and at a NUL, and empty if
      the cut splits a character. */
  function StoredName(name: Str): Str {
    var cut := name[..Min(NulPosition(name), 24)];
    if Utf8(cut) then cut else []
  }

  lemma NameFieldCut(name: Str)
    ensures var n := NulPosition(NameField(name)); n == Min(NulPosition(name), 24) && NameField(name)[..n] == name[..n]
  {
    var n, f := Min(NulPosition(name), 24), NameField(name);
    assert f[..n] == name[..n] == name[..NulPosition(name)][..n];
    NulIsFirst(f, n);
  }

  /** What an entry written for any name looks like to a reader. */
  lemma EntryStores(name: Str, size: U32, head: U32)
    ensures var e := EntryBytes(name, size, head);
            NameOf(e) == StoredName(name) && (Live(e) <==> name != [] && name[0] != 0)
  {
    var e := EntryBytes(name, size, head);
    assert e[..24] == NameField(name);
    NameFieldCut(name);
    var n := NulPosition(e[..24]);
    assert e[..n] == e[..24][..n];
  }

  /** An entry read back has the size and head written, and the name if it was storable. */
  lemma EntryRoundTrip(name: Str, size: U32, head: U32)
    ensures var e := EntryBytes(name, size, head);
            && SizeOf(e) == size && HeadOf(e) == head
            && (Storable(name) ==> Live(e) && NameOf(e) == name)
            && (name != [] && !Storable(name) ==> NameOf(e) != name)
  {
    var e := EntryBytes(name, size, head);
    assert e[24..28] == Le32(size) && e[28..32] == Le32(head) && e[..24] == NameField(name);
    Le32RoundTrip(size);
    Le32RoundTrip(head);
    var n := NulPosition(e[..24]);
    if Storable(name) {
      NulAfterName(name, 24 - |name|);
      assert NameField(name) == name + Zeros(24 - |name|);
      assert e[..n] == name;
    } else if name != [] {
      assert e[..n] == e[..24][..n];
    }
  }

  function DirSector(k: nat): nat { SEC_DIR_START + k / 16 }
  function DirOffset(k: nat): (o: nat)
    ensures o + 32 <= 512
  {
    k % 16 * 32
  }

  function EntryAt(d: Disk, k: nat): Entry
    requires DirSector(k) in d
  {
    d[DirSector(k)][DirOffset(k)..DirOffset(k) + 32]
  }

  /** A sector with one entry replaced. */
  function WithEntry(s: Sector, k: nat, e: Entry): Sector {
    s[..DirOffset(k)] + e + s[DirOffset(k) + 32..]
  }

  lemma WithEntryIsExact(s: Sector, k: nat, e: Entry, j: nat)
    ensures WithEntry(s, k, e)[DirOffset(j)..DirOffset(j) + 32]
         == if k % 16 == j % 16 then e else s[DirOffset(j)..DirOffset(j) + 32]
  {
    var (a, b) := (DirOffset(k), DirOffset(j));
    if j % 16 < k % 16 {
      assert b + 32 <= a;
    } else if j % 16 > k % 16 {
      assert a + 32 <= b;
    }
  }

  /** The directory is one table of 32-byte entries that runs on from sector to sector. */
  lemma DirectoryIsTable(d: Disk, k: nat, i: nat)
    requires DirSector(k) in d && i < 32
    ensures var at := 32 * k + i; 65 + at / 512 in d && EntryAt(d, k)[i] == d[65 + at / 512][at % 512]
  {
    assert 32 * k + i == 512 * (k / 16) + (k % 16 * 32 + i);
  }

  /** An entry holds the name from byte 0, then its size and its first block, least significant byte first. */
  lemma EntryLayout(e: Entry)
    ensures NameOf(e) == [] || (NameOf(e) <= e[..24] && 0 !in NameOf(e) && (|NameOf(e)| == 24 || e[|NameOf(e)|] == 0))
    ensures SizeOf(e) == LittleEndian(e[24..28]) && HeadOf(e) == LittleEndian(e[28..])
  {
    FromLe32Is(e[24..28]);
    FromLe32Is(e[28..]);
    assert e[..NulPosition(e[..24])] == e[..24][..NulPosition(e[..24])];
  }

  /** All directory sectors exist. */
  ghost predicate HasDirectory(d: Disk) { forall s | SEC_DIR_START <= s < SEC_DATA_START :: s in d }

  /** The first live entry of that name from slot `k` on; a sector that cannot be read ends the search. */
  function Find(d: Disk, name: Str, k: nat): (r: Option<nat>)
    ensures r.Some? ==> k <= r.value < DIR_SLOTS && DirSector(r.value) in d
    decreases DIR_SLOTS - k, |d|
  {
    if k >= DIR_SLOTS || DirSector(k) !in d then None
    else if Live(EntryAt(d, k)) && NameOf(EntryAt(d, k)) == name then Some(k)
    else Find(d, name, k + 1)
  }

  function FindFree(d: Disk, k: nat): (r: Option<nat>)
    ensures r.Some? ==> k <= r.value < DIR_SLOTS && DirSector(r.value) in d && !Live(EntryAt(d, r.value))
    decreases DIR_SLOTS - k, |d|
  {
    if k >= DIR_SLOTS || DirSector(k) !in d then None
    else if !Live(EntryAt(d, k)) then Some(k)
    else FindFree(d, k + 1)
  }

  /** The free slot found is the first. */
  lemma {:induction false} FindFreeIsFirst(d: Disk, k: nat, j: nat)
    requires HasDirectory(d) && k <= j < DIR_SLOTS && (FindFree(d, k).Some? ==> j < FindFree(d, k).value)
    ensures DirSector(j) in d && Live(EntryAt(d, j))
    decreases j - k
  {
    if k < j { FindFreeIsFirst(d, k + 1, j); }
  }

  // ---------------------------------------------------------------------------
  // Chains
  // ---------------------------------------------------------------------------

  function Link(s: Sector): U32 { FromLe32(s[..4]) }

  /** Follows a chain for at most `left` bytes; None if a sector cannot be read. */
  function ReadChain(d: Disk, next: nat, left: nat): (r: Option<seq<Byte>>)
    decreases left
  {
    if next == 0 || left == 0 then Some([])
    else if next !in d then None
    else
      var n := Min(left, CHUNK);
      var rest := ReadChain(d, Link(d[next]), left - n);
      if rest.None? then None else Some(d[next][4..4 + n] + rest.value)
  }

  function ReadEntry(d: Disk, e: Entry): Option<seq<Byte>> { ReadChain(d, HeadOf(e), SizeOf(e)) }

  /** What `read_file` returns from this disk. */
  function ReadFile(d: Disk, name: Str): Option<seq<Byte>> {
    var k := Find(d, name, 0);
    if k.None? then None else ReadEntry(d, EntryAt(d, k.value))
  }

  /** A data sector: link, at most 508 bytes, zero padding. */
  function ChunkSector(next: U32, bytes: seq<Byte>): Sector
    requires |bytes| <= CHUNK
  {
    Le32(next) + bytes + Zeros(CHUNK - |bytes|)
  }

  /** What remains of the data after `k` chunks. */
  function Rest(data: seq<Byte>, k: nat): seq<Byte> {
    if k == 0 then data else var r := Rest(data, k - 1); r[Min(|r|, CHUNK)..]
  }

  /** The `k`-th chunk: the first 508 bytes of what remains, or all of it. */
  function Chunk(data: seq<Byte>, k: nat): (c: seq<Byte>)
    ensures |c| <= CHUNK
  {
    var r := Rest(data, k); r[..Min(|r|, CHUNK)]
  }

  function ChunkCount(data: seq<Byte>): nat {
    if data == [] then 0 else 1 + ChunkCount(data[Min(|data|, CHUNK)..])
  }

  function NextOf(chain: seq<U32>, k: nat): U32
    requires k < |chain|
  {
    if k + 1 < |chain| then chain[k + 1] else 0
  }

  function HeadOfChain(chain: seq<U32>): U32 { if chain == [] then 0 else chain[0] }

  /** The chain holds the first chunks of `data`, each sector linked to the next and the last to none. */
  ghost predicate LaidPart(d: Disk, chain: seq<U32>, data: seq<Byte>) {
    && 0 !in chain && |chain| <= ChunkCount(data)
    && (forall k | 0 <= k < |chain| :: chain[k] in d)
    && forall k {:trigger NextOf(chain, k)} | 0 <= k < |chain| ::
         d[chain[k]] == ChunkSector(NextOf(chain, k), Chunk(data, k))
  }

  /** The chain holds all of `data`, 508 bytes a sector. */
  ghost predicate Laid(d: Disk, chain: seq<U32>, data: seq<Byte>) {
    LaidPart(d, chain, data) && |chain| == ChunkCount(data)
  }

  lemma ChunkSectorParts(next: U32, bytes: seq<Byte>)
    requires |bytes| <= CHUNK
    ensures Link(ChunkSector(next, bytes)) == next
    ensures ChunkSector(next, bytes)[4..4 + |bytes|] == bytes
  {
    Le32RoundTrip(next);
    assert ChunkSector(next, bytes)[..4] == Le32(next);
  }

  lemma {:induction false} RestCount(data: seq<Byte>, k: nat)
    ensures ChunkCount(Rest(data, k)) == if k < ChunkCount(data) then ChunkCount(data) - k else 0
    ensures Rest(data, k) != [] <==> k < ChunkCount(data)
  {
    if k > 0 { RestCount(data, k - 1); }
  }

  lemma ChunkLength(data: seq<Byte>, k: nat)
    ensures |Chunk(data, k)| == Min(|Rest(data, k)|, CHUNK)
    ensures |Rest(data, k + 1)| == |Rest(data, k)| - |Chunk(data, k)|
  {
  }

  lemma ChunkThenRest(data: seq<Byte>, k: nat)
    ensures Rest(data, k) == Chunk(data, k) + Rest(data, k + 1)
  {
  }

  /** 508 bytes in all sectors but the last. */
  lemma {:induction false} ChunkCountIsCeiling(data: seq<Byte>)
    ensures ChunkCount(data) == (|data| + 507) / 508
    decreases |data|
  {
    if data != [] { ChunkCountIsCeiling(data[Min(|data|, CHUNK)..]); }
  }

  lemma ReadStep(d: Disk, s: U32, next: U32, bytes: seq<Byte>, left: nat, rest: seq<Byte>)
    requires s != 0 && s in d && left > 0 && |bytes| == Min(left, CHUNK) && d[s] == ChunkSector(next, bytes)
    requires ReadChain(d, next, left - |bytes|) == Some(rest)
    ensures ReadChain(d, s, left) == Some(bytes + rest)
  {
    ChunkSectorParts(next, bytes);
  }

  lemma {:induction false} ReadLaidFrom(d: Disk, chain: seq<U32>, data: seq<Byte>, k: nat)
    requires Laid(d, chain, data) && k < |chain|
    ensures ReadChain(d, chain[k], |Rest(data, k)|) == Some(Rest(data, k))
    decreases |chain| - k
  {
    RestCount(data, k);
    RestCount(data, k + 1);
    ChunkLength(data, k);
    ChunkThenRest(data, k);
    if k + 1 < |chain| {
      ReadLaidFrom(d, chain, data, k + 1);
    }
    ReadStep(d, chain[k], NextOf(chain, k), Chunk(data, k), |Rest(data, k)|, Rest(data, k + 1));
  }

  lemma {:induction false} RestIs(data: seq<Byte>, k: nat)
    requires 508 * k <= |data|
    ensures Rest(data, k) == data[508 * k..]
  {
    if k > 0 { RestIs(data, k - 1); }
  }

  /** Where the bytes of a laid file are: byte `i` behind the link of the sector `i / 508` of its chain, and each link
      names the next sector, the last one none. */
  lemma ByteIsAt(d: Disk, chain: seq<U32>, data: seq<Byte>, i: nat)
    requires Laid(d, chain, data) && i < |data|
    ensures i / 508 < |chain| && chain[i / 508] in d && d[chain[i / 508]][4 + i % 508] == data[i]
    ensures LittleEndian(d[chain[i / 508]][..4]) == if i / 508 + 1 < |chain| then chain[i / 508 + 1] else 0
  {
    var k := i / 508;
    ChunkCountIsCeiling(data);
    RestIs(data, k);
    var s := ChunkSector(NextOf(chain, k), Chunk(data, k));
    assert d[chain[k]] == s;
    assert s[4 + i % 508] == Chunk(data, k)[i % 508] == data[508 * k..][i % 508];
    ChunkSectorParts(NextOf(chain, k), Chunk(data, k));
    FromLe32Is(s[..4]);
  }

  /** A laid chain reads back as the data. */
  lemma ReadLaid(d: Disk, chain: seq<U32>, data: seq<Byte>)
    requires Laid(d, chain, data)
    ensures ReadChain(d, HeadOfChain(chain), |data|) == Some(data)
  {
    if chain == [] {
      assert data == [];
    } else {
      ReadLaidFrom(d, chain, data, 0);
    }
  }

  /** The chain of `data` of which only the first `k` sectors are known to hold their chunks and links. */
  ghost predicate LaidUpTo(d: Disk, chain: seq<U32>, data: seq<Byte>, k: nat) {
    && 0 !in chain && |chain| == ChunkCount(data) && k <= |chain|
    && (forall j | 0 <= j < k :: chain[j] in d)
    && forall j {:trigger NextOf(chain, j)} | 0 <= j < k ::
         d[chain[j]] == ChunkSector(NextOf(chain, j), Chunk(data, j))
  }

  lemma OneChunkFurther(d: Disk, s: U32, next: U32, bytes: seq<Byte>, left: nat, rest: seq<Byte>)
    requires s != 0 && s in d && left > 0 && |bytes| == Min(left, CHUNK) && d[s] == ChunkSector(next, bytes)
    ensures ReadChain(d, s, left) == Some(bytes + rest) <==> ReadChain(d, next, left - |bytes|) == Some(rest)
  {
    ChunkSectorParts(next, bytes);
    var got := ReadChain(d, next, left - |bytes|);
    if got.Some? { assert (bytes + got.value)[|bytes|..] == got.value && (bytes + rest)[|bytes|..] == rest; }
  }

  /** From the `i`-th sector of the chain the rest of the data is read. */
  ghost predicate ReadsFrom(d: Disk, chain: seq<U32>, data: seq<Byte>, i: nat)
    requires i < |chain|
  {
    ReadChain(d, chain[i], |Rest(data, i)|) == Some(Rest(data, i))
  }

  lemma ReadsFromNext(d: Disk, chain: seq<U32>, data: seq<Byte>, i: nat, k: nat)
    requires LaidUpTo(d, chain, data, k) && i < k < |chain|
    ensures ReadsFrom(d, chain, data, i) <==> ReadsFrom(d, chain, data, i + 1)
  {
    RestCount(data, i);
    ChunkLength(data, i);
    ChunkThenRest(data, i);
    assert NextOf(chain, i) == chain[i + 1];
    OneChunkFurther(d, chain[i], NextOf(chain, i), Chunk(data, i), |Rest(data, i)|, Rest(data, i + 1));
  }

  /** From an earlier sector the data is read exactly if it is from sector `k`. */
  lemma {:induction false} ReadFromEarlier(d: Disk, chain: seq<U32>, data: seq<Byte>, i: nat, k: nat)
    requires LaidUpTo(d, chain, data, k) && i <= k < |chain|
    ensures ReadsFrom(d, chain, data, i) <==> ReadsFrom(d, chain, data, k)
    decreases k - i
  {
    if i < k {
      ReadsFromNext(d, chain, data, i, k);
      ReadFromEarlier(d, chain, data, i + 1, k);
    }
  }

  /** A file whose last sectors may not have been written reads back exactly if all were, or if the first that
      was not leads to the rest of the data already. */
  lemma ReadsBackIffRestDoes(d: Disk, chain: seq<U32>, data: seq<Byte>, k: nat)
    requires LaidUpTo(d, chain, data, k)
    ensures ReadChain(d, HeadOfChain(chain), |data|) == Some(data)
       <==> k == |chain| || ReadChain(d, chain[k], |Rest(data, k)|) == Some(Rest(data, k))
  {
    if k == |chain| {
      ReadLaid(d, chain, data);
    } else {
      ReadFromEarlier(d, chain, data, 0, k);
    }
  }
}
