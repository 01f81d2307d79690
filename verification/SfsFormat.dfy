/** The on-disk format of SFS, what reading a file means on a disk image, and what a reader is
    sensitive to. Sector 0 is the superblock, 1..64 hold the bitmap, 65..128 the directory. */
module SfsFormat {
  import opened Basics

  type Sector = s: seq<Byte> | |s| == 512 witness seq(512, _ => 0)
  type Disk = map<nat, Sector>

  const MAGIC: nat := 0x53465331
  const SEC_SUPER: nat := 0
  const SEC_MAP_START: nat := 1
  const SEC_DIR_START: nat := 65
  const SEC_DIR_COUNT: nat := 64
  const SEC_DATA_START: nat := 129
  /** Directory entries: 64 sectors of 16. */
  const DIR_SLOTS: nat := 1024
  /** Data bytes in a sector after its 4-byte link. */
  const CHUNK: nat := 508
  /** Blocks covered by the first bitmap sector, the only one the kernel caches. */
  const MAP_BITS: nat := 4096

  // ---------------------------------------------------------------------------
  // Little-endian words
  // ---------------------------------------------------------------------------

  function Le32(x: U32): (b: seq<Byte>)
    ensures |b| == 4
  {
    [x % 256, x / 256 % 256, x / 0x1_0000 % 256, x / 0x100_0000]
  }

  function FromLe32(b: seq<Byte>): U32
    requires |b| == 4
  {
    b[0] as int + 256 * (b[1] as int) + 0x1_0000 * (b[2] as int) + 0x100_0000 * (b[3] as int)
  }

  /** A stored word is the number that its four bytes write, least significant first. */
  lemma Le32IsLittleEndian(x: U32, b: seq<Byte>)
    requires |b| == 4
    ensures LittleEndian(Le32(x)) == x && FromLe32(b) == LittleEndian(b)
  {
    FromLe32Is(b);
    FromLe32Is(Le32(x));
    Le32RoundTrip(x);
  }

  lemma FromLe32Is(b: seq<Byte>)
    requires |b| == 4
    ensures FromLe32(b) == LittleEndian(b)
  {
    assert LittleEndian(b[3..]) == b[3] by { assert b[3..][1..] == []; }
    assert LittleEndian(b[2..]) == b[2] + 256 * LittleEndian(b[3..]) by { assert b[2..][1..] == b[3..]; }
    assert LittleEndian(b[1..]) == b[1] + 256 * LittleEndian(b[2..]) by { assert b[1..][1..] == b[2..]; }
  }

  lemma Le32RoundTrip(x: U32)
    ensures FromLe32(Le32(x)) == x
  {
    assert x == 256 * (x / 256) + x % 256;
    assert x / 256 == 256 * (x / 0x1_0000) + x / 256 % 256;
    assert x / 0x1_0000 == 256 * (x / 0x100_0000) + x / 0x1_0000 % 256;
  }

  // ---------------------------------------------------------------------------
  // Bitmap
  // ---------------------------------------------------------------------------

  function Pow2(k: nat): (w: nat)
    ensures w > 0
  {
    if k == 0 then 1 else 2 * Pow2(k - 1)
  }

  /** `b >> k & 1` */
  predicate Bit(b: nat, k: nat)
    decreases k
  {
    if k == 0 then b % 2 == 1 else Bit(b / 2, k - 1)
  }

  /** `b | 1 << k` */
  function WithBit(b: nat, k: nat): nat
    decreases k
  {
    if k == 0 then b - b % 2 + 1 else 2 * WithBit(b / 2, k - 1) + b % 2
  }

  lemma {:induction false} WithBitBits(b: nat, k: nat, j: nat)
    ensures Bit(WithBit(b, k), j) == (j == k || Bit(b, j))
    decreases k
  {
    if k > 0 && j > 0 { WithBitBits(b / 2, k - 1, j - 1); }
  }

  lemma {:induction false} WithBitFits(b: nat, k: nat, n: nat)
    requires b < Pow2(n) && k < n
    ensures WithBit(b, k) < Pow2(n)
    decreases k
  {
    if k > 0 { WithBitFits(b / 2, k - 1, n - 1); }
  }

  lemma {:induction false} OnesHaveBit(n: nat, j: nat)
    requires j < n
    ensures Bit(Pow2(n) - 1, j)
    decreases j
  {
    if j > 0 {
      assert (Pow2(n) - 1) / 2 == Pow2(n - 1) - 1;
      OnesHaveBit(n - 1, j - 1);
    }
  }

  lemma {:induction false} ClearBit(b: nat, n: nat) returns (j: nat)
    requires b + 1 < Pow2(n)
    ensures j < n && !Bit(b, j)
    decreases n
  {
    if b % 2 == 0 {
      j := 0;
    } else {
      j := ClearBit(b / 2, n - 1);
      j := j + 1;
    }
  }

  /** A byte map of blocks, one bit each. */
  predicate Marked(bitmap: seq<Byte>, s: nat)
    requires s < 8 * |bitmap|
  {
    Bit(bitmap[s / 8], s % 8)
  }

  function WithMark(bitmap: seq<Byte>, s: nat): (r: seq<Byte>)
    requires s < 8 * |bitmap|
    ensures |r| == |bitmap|
  {
    assert Pow2(8) == 256;
    WithBitFits(bitmap[s / 8], s % 8, 8);
    bitmap[s / 8 := WithBit(bitmap[s / 8], s % 8)]
  }

  /** Marking a block marks that block and no other. */
  lemma WithMarkIsExact(bitmap: seq<Byte>, s: nat, t: nat)
    requires s < 8 * |bitmap| && t < 8 * |bitmap|
    ensures Marked(WithMark(bitmap, s), t) == (t == s || Marked(bitmap, t))
  {
    WithBitBits(bitmap[s / 8], s % 8, t % 8);
  }

  lemma Halved(b: nat, m: nat, r: nat)
    requires b == r + 2 * m
    ensures b / 2 == m + r / 2 && b % 2 == r % 2
  {
  }

  lemma {:induction false} BitOfJoined(low: nat, n: nat, high: nat, k: nat)
    requires low < Pow2(n)
    ensures Bit(low + Pow2(n) * high, k) == if k < n then Bit(low, k) else Bit(high, k - n)
    decreases n
  {
    if n > 0 {
      var m := Pow2(n - 1) * high;
      assert Pow2(n) * high == 2 * m;
      Halved(low + 2 * m, m, low);
      if k > 0 { BitOfJoined(low / 2, n - 1, high, k - 1); }
    }
  }

  lemma BitIsHigh(b: nat, k: nat, low: nat, high: nat)
    requires low < Pow2(k) && b == low + Pow2(k) * high
    ensures Bit(b, k) <==> high % 2 == 1
  {
    BitOfJoined(low, k, high, k);
  }

  lemma QuotientAndRest(b: nat, p: nat) returns (low: nat, high: nat)
    requires p > 0
    ensures b == low + p * high && low < p && high == b / p
  {
    low, high := b % p, b / p;
  }

  lemma BitIsDigit(b: nat, k: nat)
    ensures Bit(b, k) <==> b / Pow2(k) % 2 == 1
  {
    var low, high := QuotientAndRest(b, Pow2(k));
    BitIsHigh(b, k, low, high);
  }

  lemma {:induction false} MarkIsBit(bitmap: seq<Byte>, s: nat)
    requires s < 8 * |bitmap|
    ensures Marked(bitmap, s) == Bit(LittleEndian(bitmap), s)
    decreases |bitmap|
  {
    assert Pow2(8) == 256;
    BitOfJoined(bitmap[0], 8, LittleEndian(bitmap[1..]), s);
    if s >= 8 {
      MarkIsBit(bitmap[1..], s - 8);
      assert bitmap[1..][(s - 8) / 8] == bitmap[s / 8] && (s - 8) % 8 == s % 8;
    }
  }

  /** The bitmap is one number written least significant byte first, and the mark of block `s` is its digit of
      weight 2 to the `s`. */
  lemma MarkIsDigit(bitmap: seq<Byte>, s: nat)
    requires s < 8 * |bitmap|
    ensures Marked(bitmap, s) <==> LittleEndian(bitmap) / Pow2(s) % 2 == 1
  {
    MarkIsBit(bitmap, s);
    BitIsDigit(LittleEndian(bitmap), s);
  }

  /** A byte is full exactly when all its eight blocks are marked. */
  lemma FullByte(bitmap: seq<Byte>, i: nat)
    requires i < |bitmap|
    ensures bitmap[i] == 0xFF <==> forall t: nat | 8 * i <= t < 8 * i + 8 :: Marked(bitmap, t)
  {
    assert Pow2(8) == 256;
    if bitmap[i] == 0xFF {
      forall t: nat | 8 * i <= t < 8 * i + 8 ensures Marked(bitmap, t) {
        OnesHaveBit(8, t % 8);
      }
    } else {
      var j := ClearBit(bitmap[i], 8);
      assert !Marked(bitmap, 8 * i + j);
    }
  }
}
