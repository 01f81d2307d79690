/** Sv39/Sv48 page tables: the PTE format, the table walk, and the mapping a walk stands for.
    Shifts and masks of 64-bit words are written as division and remainder by powers of two. */
module PageTable {

  /** A page number of 44 bits. */
  type PageNumber = x: int | 0 <= x < 0x1000_0000_0000

  /** The 64 bits of a PTE by field: flags in bits 0..7, software bits 8..9, the page number in
      bits 10..53 and the reserved bits 54..63. */
  datatype Pte = Pte(v: bool, r: bool, w: bool, x: bool, u: bool, g: bool, a: bool, d: bool,
                     rsw: nat, ppn: PageNumber, reserved: nat)
  {
    predicate Malformed() { !v || (!r && w) }
    predicate Pointer() { !r && !x }
    /** The word with both update bits forced, which forgets their value. */
    function NoAD(): Pte { this.(a := true, d := true) }
  }

  /** The page-number field `(word >> 10) & 0xFFF_FFFF_FFFF`. */
  function PpnBits(word: bv64): bv44 { ((word >> 10) & 0xFFF_FFFF_FFFF) as bv44 }

  function Decode(word: bv64): Pte {
    Pte((word >> 0) & 1 != 0, (word >> 1) & 1 != 0, (word >> 2) & 1 != 0, (word >> 3) & 1 != 0,
        (word >> 4) & 1 != 0, (word >> 5) & 1 != 0, (word >> 6) & 1 != 0, (word >> 7) & 1 != 0,
        ((word >> 8) & 3) as bv2 as nat, PpnBits(word) as int, (word >> 54) as bv10 as nat)
  }

  /** The walk's update of a word sets A, and on a store D, of its record and no more. */
  lemma DecodeSetBit(word: bv64)
    ensures Decode(word | (1 << 6)) == Decode(word).(a := true)
    ensures Decode(word | (1 << 7)) == Decode(word).(d := true)
  {
    assert PpnBits(word | (1 << 6)) == PpnBits(word);
    assert PpnBits(word | (1 << 7)) == PpnBits(word);
  }

  /** Memory as the bus shows it to a walk: 8-byte words, each seen through the PTE format.
      Loads and stores outside the map fail. */
  type Memory = map<nat, Pte>

  datatype Scheme = Sv39 | Sv48 {
    function Levels(): nat { if Sv39? then 3 else 4 }
    /** Number of virtual pages, a power of two. */
    function Pages(): nat { if Sv39? then 0x800_0000 else 0x10_0000_0000 }
  }

  /** `512^i`: pages covered by one entry of a level-`i` table. */
  function Span(i: nat): (s: nat)
    requires i < 4
    ensures s > 0
  {
    if i == 0 then 1 else if i == 1 then 0x200 else if i == 2 then 0x4_0000 else 0x800_0000
  }

  /** The 9-bit table indices of a virtual page number, lowest level first. */
  function Indices(vpn: nat): (f: seq<nat>)
    ensures |f| == 4
  {
    [vpn % 512, (vpn / 0x200) % 512, (vpn / 0x4_0000) % 512, (vpn / 0x800_0000) % 512]
  }

  datatype Walked =
    | BusError
    | Fault
    | Found(pte: Pte, slot: nat, level: nat)

  /** The walk from the table at `a`, level `i` downwards, ending at a leaf, a fault or a bus error. */
  function Walk(mem: Memory, a: nat, index: seq<nat>, i: nat): (r: Walked)
    requires i < 4 <= |index|
    ensures r.Found? ==>
              && r.level <= i && r.slot in mem && mem[r.slot] == r.pte
              && !r.pte.Malformed() && !r.pte.Pointer()
    decreases i
  {
    var slot := a + index[i] * 8;
    if slot !in mem then BusError
    else
      var pte := mem[slot];
      if pte.Malformed() then Fault
      else if !pte.Pointer() then Found(pte, slot, i)
      else if i == 0 then Fault
      else Walk(mem, pte.ppn * 4096, index, i - 1)
  }

  function WalkRoot(mem: Memory, scheme: Scheme, root: PageNumber, vpn: nat): (r: Walked)
    ensures r.Found? ==> r.level < 4
  {
    Walk(mem, root * 4096, Indices(vpn), scheme.Levels() - 1)
  }

  /** The permission bits that decide an access. */
  datatype Rights = Rights(r: bool, w: bool, x: bool, u: bool, g: bool)

  function RightsOf(p: Pte): Rights { Rights(p.r, p.w, p.x, p.u, p.g) }

  /** What a walk means to an access: where the page lies and with which rights. */
  datatype Mapping =
    | Unreadable
    | Unmapped
    | Mapped(ppn: nat, rights: Rights)
  {
    predicate Global() { Mapped? && rights.g }
  }

  predicate Aligned(pte: Pte, level: nat)
    requires level < 4
  {
    pte.ppn % Span(level) == 0
  }

  /** The leaf's page number with its low fields, on a superpage, taken from the address. */
  function LeafPpn(pte: Pte, level: nat, vpn: nat): nat
    requires level < 4
  {
    pte.ppn - pte.ppn % Span(level) + vpn % Span(level)
  }

  function MappingOf(w: Walked, vpn: nat): Mapping
    requires w.Found? ==> w.level < 4
  {
    match w
    case BusError => Unreadable
    case Fault => Unmapped
    case Found(pte, _, level) =>
      if Aligned(pte, level) then Mapped(LeafPpn(pte, level, vpn), RightsOf(pte)) else Unmapped
  }

  function Lookup(mem: Memory, scheme: Scheme, root: PageNumber, vpn: nat): Mapping {
    MappingOf(WalkRoot(mem, scheme, root, vpn), vpn)
  }

  // ---------------------------------------------------------------------------
  // Setting A and D never changes a mapping
  // ---------------------------------------------------------------------------

  /** The two memories differ at most in A and D bits, in any set of words. */
  ghost predicate EqualButAD(before: Memory, after: Memory) {
    && before.Keys == after.Keys
    && forall k | k in before :: before[k].NoAD() == after[k].NoAD()
  }

  /** Some A and D bits were set and none was cleared. */
  ghost predicate OnlySetsAD(before: Memory, after: Memory) {
    && EqualButAD(before, after)
    && forall k | k in before :: (before[k].a ==> after[k].a) && (before[k].d ==> after[k].d)
  }

  /** Two walks that reach the same leaf word, or fail alike, up to A and D. */
  predicate SameWalk(w: Walked, w': Walked) {
    if w.Found? && w'.Found? then w.slot == w'.slot && w.level == w'.level && w.pte.NoAD() == w'.pte.NoAD()
    else w == w'
  }

  /** Walk invariance, from any table address, also when one page serves at several levels. */
  lemma {:induction false} WalkIgnoresAD(mem: Memory, mem': Memory, a: nat, index: seq<nat>, i: nat)
    requires i < 4 <= |index| && EqualButAD(mem, mem')
    ensures SameWalk(Walk(mem, a, index, i), Walk(mem', a, index, i))
    decreases i
  {
    var slot := a + index[i] * 8;
    if slot in mem {
      var pte := mem[slot];
      assert pte.NoAD() == mem'[slot].NoAD();
      if !pte.Malformed() && pte.Pointer() && i > 0 {
        WalkIgnoresAD(mem, mem', pte.ppn * 4096, index, i - 1);
      }
    }
  }

  lemma LookupIgnoresAD(mem: Memory, mem': Memory, scheme: Scheme, root: PageNumber, vpn: nat)
    requires EqualButAD(mem, mem')
    ensures Lookup(mem, scheme, root, vpn) == Lookup(mem', scheme, root, vpn)
  {
    WalkIgnoresAD(mem, mem', root * 4096, Indices(vpn), scheme.Levels() - 1);
    SameWalkSameMapping(WalkRoot(mem, scheme, root, vpn), WalkRoot(mem', scheme, root, vpn), vpn);
  }

  lemma SameWalkSameMapping(w: Walked, w': Walked, vpn: nat)
    requires SameWalk(w, w') && (w.Found? ==> w.level < 4)
    ensures MappingOf(w, vpn) == MappingOf(w', vpn)
  {
  }
}
