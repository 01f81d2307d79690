/** Free blocks: when a file fits, and what `disk_stats` counts. */
module SfsRoom {
  import opened Basics
  import opened SfsFormat
  import opened SfsVolume
  import opened SfsIsolation
  import opened SfsWrite

  /** Unmarked blocks from `s` on. */
  function FreeCount(bm: Bitmap, s: nat): nat
    decreases 8 * |bm| - s
  {
    if s >= MAP_BITS then 0 else (if Marked(bm, s) then 0 else 1) + FreeCount(bm, s + 1)
  }

  lemma {:induction false} NoneFree(bm: Bitmap, s: nat)
    ensures NextFree(bm, s).None? <==> FreeCount(bm, s) == 0
    decreases MAP_BITS - s
  {
    if s < MAP_BITS { NoneFree(bm, s + 1); }
  }

  lemma {:induction false} MarkTakesOne(bm: Bitmap, s: nat, t: nat)
    requires s < MAP_BITS && !Marked(bm, s)
    ensures FreeCount(WithMark(bm, s), t) == FreeCount(bm, t) - if t <= s then 1 else 0
    decreases MAP_BITS - t
  {
    if t < MAP_BITS {
      WithMarkIsExact(bm, s, t);
      MarkTakesOne(bm, s, t + 1);
    }
  }

  /** A file can be written exactly when it has no more chunks than there are free blocks, and takes that many. */
  lemma {:induction false} WrittenIffRoom(d: Draft, data: seq<Byte>)
    requires d.chain == [] || d.chain[|d.chain| - 1] in d.view
    ensures WriteAll(d, data).Some? <==> ChunkCount(data) <= FreeCount(d.bm, 0)
    ensures WriteAll(d, data).Some? ==>
              FreeCount(WriteAll(d, data).value.bm, 0) == FreeCount(d.bm, 0) - ChunkCount(data)
    decreases |data|
  {
    NoneFree(d.bm, 0);
    if data != [] && d.CanGrow() {
      MarkTakesOne(d.bm, NextFree(d.bm, 0).value, 0);
      WrittenIffRoom(d.Grown(data[..Min(|data|, CHUNK)]), data[Min(|data|, CHUNK)..]);
    }
  }

  /** `count_ones` of the low `n` bits. */
  function Ones(b: nat, n: nat): nat {
    if n == 0 then 0 else b % 2 + Ones(b / 2, n - 1)
  }

  /** Marked blocks among the `n` from bit `j` of byte `i`. */
  function MarkedIn(bm: Bitmap, i: nat, j: nat, n: nat): nat
    requires i < 512 && j + n <= 8
    decreases n
  {
    if n == 0 then 0 else (if Bit(bm[i], j) then 1 else 0) + MarkedIn(bm, i, j + 1, n - 1)
  }

  lemma {:induction false} OnesAreBits(bm: Bitmap, i: nat, j: nat, n: nat, b: nat)
    requires i < 512 && j + n <= 8 && forall k: nat :: Bit(b, k) == Bit(bm[i], j + k)
    ensures Ones(b, n) == MarkedIn(bm, i, j, n)
    decreases n
  {
    if n > 0 {
      assert Bit(b, 0) == Bit(bm[i], j + 0);
      forall k: nat ensures Bit(b / 2, k) == Bit(bm[i], j + 1 + k) { assert Bit(b, k + 1) == Bit(bm[i], j + (k + 1)); }
      OnesAreBits(bm, i, j + 1, n - 1, b / 2);
    }
  }

  lemma {:induction false} ByteFreeCount(bm: Bitmap, i: nat, j: nat, n: nat)
    requires i < 512 && j + n == 8
    ensures FreeCount(bm, 8 * i + j) == n - MarkedIn(bm, i, j, n) + FreeCount(bm, 8 * i + 8)
    decreases n
  {
    if n > 0 {
      assert (8 * i + j) / 8 == i && (8 * i + j) % 8 == j;
      ByteFreeCount(bm, i, j + 1, n - 1);
    }
  }

  /** `disk_stats`: used blocks are those not free, out of all the first bitmap sector covers. */
  method DiskStats(bm: Bitmap) returns (used: nat, total: nat)
    ensures total == MAP_BITS && used + FreeCount(bm, 0) == total
  {
    used := 0;
    for i := 0 to |bm|
      invariant used + FreeCount(bm, 0) == 8 * i + FreeCount(bm, 8 * i)
    {
      OnesAreBits(bm, i, 0, 8, bm[i]);
      ByteFreeCount(bm, i, 0, 8);
      used := used + Ones(bm[i], 8);
    }
    total := |bm| * 8;
  }
}
