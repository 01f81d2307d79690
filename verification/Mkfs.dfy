/** The image builder: reserves the system sectors, lays each file's chain, writes its directory entry,
    and stores the bitmap. It is a separate program that must agree with the kernel on the format. */
module Mkfs {
  import opened Basics
  import opened SfsFormat
  import opened SfsVolume
  import opened SfsIsolation
  import opened SfsWrite

  /** Bytes of the whole bitmap, 64 sectors. */
  const BITMAP_BYTES: nat := 32768

  /** Names longer than this are skipped. */
  const NAME_MAX: nat := 23

  /** A host file: its path in the image, never empty and without NUL, and its contents. */
  datatype HostFile = HostFile(name: Str, data: seq<Byte>) {
    predicate Ok() { name != [] && 0 !in name }
  }

  datatype Layout = Layout(disk: Disk, bm: seq<Byte>, chain: seq<U32>)

  /** `write_data` from the point where `current` is allocated: each sector gets its link at once, so
      the next block is allocated before the chunk is written. */
  function LayFrom(d: Disk, bm: seq<Byte>, current: U32, data: seq<Byte>): (r: Option<Layout>)
    requires |bm| <= BITMAP_BYTES
    ensures r.Some? ==> r.value.chain != [] && r.value.chain[0] == current && |r.value.bm| == |bm|
    decreases |data|
  {
    if |data| <= CHUNK then Some(Layout(d[current := ChunkSector(0, data)], bm, [current]))
    else
      var next := NextFree(bm, 0);
      if next.None? then None
      else
        var rest := LayFrom(d[current := ChunkSector(next.value, data[..CHUNK])], WithMark(bm, next.value), next.value,
                            data[CHUNK..]);
        if rest.None? then None else Some(rest.value.(chain := [current] + rest.value.chain))
  }

  lemma {:induction false} RestShift(data: seq<Byte>, k: nat)
    ensures Rest(data, k + 1) == Rest(data[Min(|data|, CHUNK)..], k)
  {
    if k > 0 { RestShift(data, k - 1); }
  }

  lemma PutStaysInChain(d0: Disk, d: Disk, before: seq<U32>, current: U32, b: Sector)
    requires OnlyChain(d0, d, before)
    ensures OnlyChain(d0, d[current := b], before + [current])
  {
  }

  /** Blocks taken before `current` stay as they are, those taken are the first free ones, in order. */
  lemma {:induction false} LayIsAllocated(d0: Disk, bm0: seq<Byte>, before: seq<U32>, d: Disk, bm: seq<Byte>,
      current: U32, data: seq<Byte>)
    requires |bm0| <= BITMAP_BYTES && SystemMarked(bm0)
    requires Allocated(bm0, bm, before + [current]) && OnlyChain(d0, d, before) && LayFrom(d, bm, current, data).Some?
    ensures var r := LayFrom(d, bm, current, data).value;
            Allocated(bm0, r.bm, before + r.chain) && OnlyChain(d0, r.disk, before + r.chain)
    decreases |data|
  {
    if |data| > CHUNK {
      var next := NextFree(bm, 0).value;
      AllocationGrows(bm0, bm, before + [current], next);
      var d1 := d[current := ChunkSector(next, data[..CHUNK])];
      PutStaysInChain(d0, d, before, current, ChunkSector(next, data[..CHUNK]));
      LayIsAllocated(d0, bm0, before + [current], d1, WithMark(bm, next), next, data[CHUNK..]);
      var r := LayFrom(d, bm, current, data).value;
      assert before + r.chain == (before + [current]) + r.chain[1..];
    } else {
      PutStaysInChain(d0, d, before, current, ChunkSector(0, data));
    }
  }

  lemma {:induction false} LayTouchesChain(d: Disk, bm: seq<Byte>, current: U32, data: seq<Byte>)
    requires |bm| <= BITMAP_BYTES && LayFrom(d, bm, current, data).Some?
    ensures var r := LayFrom(d, bm, current, data).value;
            OnlyChain(d, r.disk, r.chain) && d.Keys + {current} <= r.disk.Keys
    decreases |data|
  {
    if |data| > CHUNK {
      var next := NextFree(bm, 0).value;
      LayTouchesChain(d[current := ChunkSector(next, data[..CHUNK])], WithMark(bm, next), next, data[CHUNK..]);
    }
  }

  lemma ChunkShift(data: seq<Byte>, k: nat)
    requires |data| > CHUNK
    ensures Chunk(data, k + 1) == Chunk(data[CHUNK..], k) && Chunk(data, 0) == data[..CHUNK]
    ensures ChunkCount(data) == 1 + ChunkCount(data[CHUNK..])
  {
    RestShift(data, k);
  }

  lemma ShiftLaid(d: Disk, current: U32, chain: seq<U32>, data: seq<Byte>)
    requires |data| > CHUNK && current != 0 && chain != [] && Laid(d, chain, data[CHUNK..])
    requires current in d && d[current] == ChunkSector(chain[0], data[..CHUNK])
    ensures Laid(d, [current] + chain, data)
  {
    var whole := [current] + chain;
    ChunkShift(data, 0);
    forall k | 0 <= k < |whole|
      ensures whole[k] in d && d[whole[k]] == ChunkSector(NextOf(whole, k), Chunk(data, k))
    {
      if k > 0 {
        ChunkShift(data, k - 1);
        assert whole[k] == chain[k - 1] && NextOf(whole, k) == NextOf(chain, k - 1);
      }
    }
  }

  /** The chain laid holds the data. */
  lemma {:induction false} LayIsLaid(d: Disk, bm: seq<Byte>, current: U32, data: seq<Byte>)
    requires |bm| <= BITMAP_BYTES && data != [] && LayFrom(d, bm, current, data).Some?
    requires var r := LayFrom(d, bm, current, data).value; Distinct(r.chain) && 0 !in r.chain
    ensures var r := LayFrom(d, bm, current, data).value; Laid(r.disk, r.chain, data)
    decreases |data|
  {
    var r := LayFrom(d, bm, current, data).value;
    if |data| > CHUNK {
      var next := NextFree(bm, 0).value;
      var d1, bm1 := d[current := ChunkSector(next, data[..CHUNK])], WithMark(bm, next);
      var r1 := LayFrom(d1, bm1, next, data[CHUNK..]).value;
      assert r.chain[1..] == r1.chain;
      LayTouchesChain(d1, bm1, next, data[CHUNK..]);
      LayIsLaid(d1, bm1, next, data[CHUNK..]);
      ShiftLaid(r.disk, current, r1.chain, data);
    } else {
      assert Rest(data, 0) == data && data[Min(|data|, CHUNK)..] == [];
      assert Chunk(data, 0) == data;
    }
  }

  /** `write_data`: nothing for an empty file, otherwise a chain from the first free block. */
  function LaidOut(d: Disk, bm: seq<Byte>, data: seq<Byte>): Option<Layout>
    requires |bm| <= BITMAP_BYTES
  {
    if data == [] then Some(Layout(d, bm, []))
    else if NextFree(bm, 0).None? then None
    else LayFrom(d, WithMark(bm, NextFree(bm, 0).value), NextFree(bm, 0).value, data)
  }

  lemma LaidOutIsSound(d: Disk, bm: seq<Byte>, data: seq<Byte>)
    requires |bm| <= BITMAP_BYTES && SystemMarked(bm) && LaidOut(d, bm, data).Some?
    ensures var r := LaidOut(d, bm, data).value;
            Allocated(bm, r.bm, r.chain) && OnlyChain(d, r.disk, r.chain) && Laid(r.disk, r.chain, data)
  {
    if data != [] {
      var r := LaidOut(d, bm, data).value;
      LaidOutIsAllocated(d, bm, data);
      LayIsLaid(d, WithMark(bm, NextFree(bm, 0).value), NextFree(bm, 0).value, data);
    }
  }

  lemma LaidOutIsAllocated(d: Disk, bm: seq<Byte>, data: seq<Byte>)
    requires |bm| <= BITMAP_BYTES && SystemMarked(bm) && data != [] && LaidOut(d, bm, data).Some?
    ensures var r := LaidOut(d, bm, data).value;
            Allocated(bm, r.bm, r.chain) && OnlyChain(d, r.disk, r.chain) && Distinct(r.chain) && 0 !in r.chain
  {
    var none: seq<U32>, head, r := [], NextFree(bm, 0).value, LaidOut(d, bm, data).value;
    AllocationGrows(bm, bm, none, head);
    assert none + [head] == [head];
    LayIsAllocated(d, bm, none, d, WithMark(bm, head), head, data);
    assert none + r.chain == r.chain;
  }
}
