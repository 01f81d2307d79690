/** The address translation algorithm of section 4.3.2 of the RISC-V Privileged Architecture (20211203) with the
    address rules of sections 4.4 and 4.5, written on the bits of table words, satp and mstatus, and compared with
    the walk. */
module Privileged {
  import opened Basics
  import opened Arith
  import opened PageTable
  import opened Tlb
  import opened Mmu
  import Translate

  type Words = map<nat, bv64>

  /** What `translate` is given: registers as words. */
  datatype Raw = Raw(mode: Mode, satp: bv64, mstatus: bv64, addr: U64, access: Access)

  function RequestOf(q: Raw): Request {
    Request(q.mode, DecodeSatp(q.satp), DecodeStatus(q.mstatus), q.addr, q.access)
  }

  // ---------------------------------------------------------------------------
  // The standard
  // ---------------------------------------------------------------------------

  /** Bytes mapped by a leaf at level `i`: `2^(12 + 9i)`. */
  function LeafBytes(i: nat): (n: nat)
    ensures n > 0
  {
    if i == 0 then 4096 else 512 * LeafBytes(i - 1)
  }

  /** Levels of the scheme satp selects, none if addresses are not translated. */
  function Levels(q: Raw): nat {
    if q.mode.Machine? then 0 else if q.satp >> 60 == 8 then 3 else if q.satp >> 60 == 9 then 4 else 0
  }

  /** The address is that of a byte in the lower or the upper half of the virtual address space. */
  predicate InHalves(levels: nat, addr: U64) {
    var half := LeafBytes(levels) / 2;
    addr < half || addr + half >= TWO64
  }

  /** Bits 10 to 53: the page number. */
  function PageOf(word: bv64): nat { ((word << 10) >> 20) as bv44 as nat }

  /** Bits 0 to 43: the page number of the root table. */
  function RootOf(satp: bv64): nat { ((satp << 20) >> 20) as bv44 as nat }

  /** V is clear, or W is set without R. */
  predicate Invalid(word: bv64) { word & 1 == 0 || word & 6 == 4 }

  /** R and X are clear. */
  predicate PointsOn(word: bv64) { word & 0xA == 0 }

  /** Encodings reserved for future use: bits 54 to 63, and U, A or D in a pointer. */
  predicate Reserved(word: bv64) { word >> 54 != 0 || (PointsOn(word) && word & 0xD0 != 0) }

  /** Step 5: a store needs W (bit 2), a fetch X (bit 3), a load R (bit 1) or, with MXR (mstatus bit 19), X. In user
      mode the page must have U (bit 4); in supervisor mode a page with U may not be fetched from, and be accessed
      only with SUM (mstatus bit 18). */
  predicate Allowed(q: Raw, word: bv64) {
    && (q.access.Store? ==> word & 4 != 0)
    && (q.access.Instruction? ==> word & 8 != 0)
    && (q.access.Load? ==> word & 2 != 0 || (q.mstatus & 0x8_0000 != 0 && word & 8 != 0))
    && (q.mode.User? ==> word & 0x10 != 0)
    && (q.mode.Supervisor? && word & 0x10 != 0 ==> !q.access.Instruction? && q.mstatus & 0x4_0000 != 0)
  }

  /** Steps 5, 6 and 8 at a leaf of level `i`. */
  function AtLeaf(q: Raw, word: bv64, i: nat): Result {
    if !Allowed(q, word) || PageOf(word) * 4096 % LeafBytes(i) != 0 then Err(PageFault(q.access, q.addr))
    else Ok(PageOf(word) * 4096 + q.addr % LeafBytes(i))
  }

  /** Step 2: the address of the entry for the request in the table at `a`. */
  function SlotAt(q: Raw, a: nat, i: nat): nat { a + q.addr / LeafBytes(i) % 512 * 8 }

  /** Steps 2 to 8, from the table at `a` and level `i`; `strict` is the rule that reserved encodings fault. */
  function Algorithm(words: Words, q: Raw, a: nat, i: nat, strict: bool): Result
    decreases i
  {
    var slot := SlotAt(q, a, i);
    if slot !in words then Err(AccessFault(q.access, q.addr))
    else
      var word := words[slot];
      if Invalid(word) || (strict && Reserved(word)) then Err(PageFault(q.access, q.addr))
      else if !PointsOn(word) then AtLeaf(q, word, i)
      else if i == 0 then Err(PageFault(q.access, q.addr))
      else Algorithm(words, q, PageOf(word) * 4096, i - 1, strict)
  }

  function Standard(words: Words, q: Raw, strict: bool): Result {
    if Levels(q) == 0 then Ok(q.addr)
    else if !InHalves(Levels(q), q.addr) then Err(PageFault(q.access, q.addr))
    else Algorithm(words, q, RootOf(q.satp) * 4096, Levels(q) - 1, strict)
  }

  // ---------------------------------------------------------------------------
  // Decoding agrees with the bits
  // ---------------------------------------------------------------------------

  lemma DecodesFlags(word: bv64)
    ensures Decode(word).Malformed() == Invalid(word) && Decode(word).Pointer() == PointsOn(word)
  {
    assert (word >> 0) & 1 != 0 <==> word & 1 != 0;
    assert (word >> 1) & 1 != 0 <==> word & 2 != 0;
    assert (word >> 2) & 1 != 0 <==> word & 4 != 0;
    assert (word >> 3) & 1 != 0 <==> word & 8 != 0;
  }

  lemma DecodesPage(word: bv64)
    ensures Decode(word).ppn == PageOf(word)
  {
    assert PpnBits(word) == ((word << 10) >> 20) as bv44;
  }

  /** The registers' fields: MODE in bits 60 to 63, ASID in 44 to 59, PPN in 0 to 43. */
  lemma DecodesSatp(satp: bv64)
    ensures DecodeSatp(satp).mode == (satp >> 60) as bv4 as nat
    ensures DecodeSatp(satp).asid == ((satp << 4) >> 48) as bv16 as nat
    ensures DecodeSatp(satp).root == RootOf(satp)
  {
    assert ((satp >> 60) & 0xF) as bv4 == (satp >> 60) as bv4;
    assert ((satp >> 44) & 0xFFFF) as bv16 == ((satp << 4) >> 48) as bv16;
    assert (satp & 0xFFF_FFFF_FFFF) as bv44 == ((satp << 20) >> 20) as bv44;
  }

  lemma PermitsIsAllowed(q: Raw, word: bv64)
    requires !q.mode.Machine?
    ensures Permits(q.mode, DecodeStatus(q.mstatus), RightsOf(Decode(word)), q.access) == Allowed(q, word)
  {
    assert (word >> 1) & 1 != 0 <==> word & 2 != 0;
    assert (word >> 2) & 1 != 0 <==> word & 4 != 0;
    assert (word >> 3) & 1 != 0 <==> word & 8 != 0;
    assert (word >> 4) & 1 != 0 <==> word & 0x10 != 0;
    assert (q.mstatus >> 19) & 1 == 1 <==> q.mstatus & 0x8_0000 != 0;
    assert (q.mstatus >> 18) & 1 == 1 <==> q.mstatus & 0x4_0000 != 0;
  }

  /** Whether and how an address is translated. */
  lemma DecodesMode(q: Raw)
    ensures Paged(RequestOf(q)) <==> Levels(q) > 0
    ensures Paged(RequestOf(q)) ==> SchemeOf(DecodeSatp(q.satp).mode).Levels() == Levels(q)
  {
    DecodesSatp(q.satp);
    var mode := (q.satp >> 60) as bv4;
    assert mode as nat == 8 <==> mode == 8;
    assert mode as nat == 9 <==> mode == 9;
    assert mode == 8 <==> q.satp >> 60 == 8;
    assert mode == 9 <==> q.satp >> 60 == 9;
  }

  lemma LeafBytesAre(i: nat)
    requires i < 4
    ensures LeafBytes(i) == 4096 * Span(i)
  {
    assert LeafBytes(0) == 4096;
    assert LeafBytes(1) == 512 * LeafBytes(0);
    assert LeafBytes(2) == 512 * LeafBytes(1);
    assert LeafBytes(3) == 512 * LeafBytes(2);
  }

  /** All bits of a number from its lowest on are equal. */
  lemma SignRepeats(high: nat, ones: nat)
    ensures high / 2 == (if high % 2 == 1 then ones else 0) <==> high == 0 || high == 2 * ones + 1
  {
  }

  lemma HalvesOf39(addr: U64)
    ensures Canonical(Sv39, addr) <==> addr < 0x40_0000_0000 || addr + 0x40_0000_0000 >= TWO64
  {
    var high := addr / 0x40_0000_0000;
    assert addr / 0x80_0000_0000 == high / 2;
    SignRepeats(high, 0x1FF_FFFF);
  }

  lemma HalvesOf48(addr: U64)
    ensures Canonical(Sv48, addr) <==> addr < 0x8000_0000_0000 || addr + 0x8000_0000_0000 >= TWO64
  {
    var high := addr / 0x8000_0000_0000;
    assert addr / 0x1_0000_0000_0000 == high / 2;
    SignRepeats(high, 0xFFFF);
  }

  /** The test of the bits above the address is the test for the two halves. */
  lemma CanonicalIsInHalves(scheme: Scheme, addr: U64)
    ensures Canonical(scheme, addr) <==> InHalves(scheme.Levels(), addr)
  {
    LeafBytesAre(3);
    assert LeafBytes(4) == 512 * LeafBytes(3);
    if scheme.Sv39? { HalvesOf39(addr); } else { HalvesOf48(addr); }
  }

  lemma IndexIs(q: Raw, i: nat)
    requires Levels(q) > 0 && i < Levels(q)
    ensures Indices(QueryVpn(RequestOf(q)))[i] == q.addr / LeafBytes(i) % 512
  {
    DecodesMode(q);
    LeafBytesAre(i);
    Translate.IndexOfAddress(SchemeOf(DecodeSatp(q.satp).mode), q.addr);
  }

  lemma SplitOffset(addr: nat, s: nat, high: nat, low: nat)
    requires s > 0 && addr / 4096 == s * high + low && low < s
    ensures addr % (4096 * s) == 4096 * low + addr % 4096
  {
    var off := 4096 * low + addr % 4096;
    assert addr == (4096 * s) * high + off;
    DigitOnTop(4096 * s, high, off);
  }

  /** A leaf at level `i` yields its page's address plus the offset of the address inside the leaf. */
  lemma LeafAddress(scheme: Scheme, addr: U64, pte: Pte, i: nat)
    requires i < scheme.Levels() && Aligned(pte, i)
    ensures LeafPpn(pte, i, VpnOf(scheme, addr)) * 4096 + addr % 4096 == pte.ppn * 4096 + addr % LeafBytes(i)
  {
    Translate.LowPartOfPage(scheme, addr, pte, i);
    LeafBytesAre(i);
    var page := addr / 4096;
    SplitOffset(addr, Span(i), page / Span(i), page % Span(i));
  }

  lemma AlignedIs(pte: Pte, i: nat)
    requires i < 4
    ensures Aligned(pte, i) <==> pte.ppn * 4096 % LeafBytes(i) == 0
  {
    LeafBytesAre(i);
    var page: nat := pte.ppn;
    SplitOffset(page * 4096, Span(i), page / Span(i), page % Span(i));
  }

  /** What a walk that ended so means for the request. */
  function AnswerTo(q: Raw, w: Walked): Result
    requires w.Found? ==> w.level < 4
  {
    Outcome(MappingOf(w, QueryVpn(RequestOf(q))), RequestOf(q))
  }

  lemma LeafIsStandard(q: Raw, word: bv64, slot: nat, i: nat)
    requires 0 < Levels(q) && i < Levels(q)
    ensures AnswerTo(q, Found(Decode(word), slot, i)) == AtLeaf(q, word, i)
  {
    DecodesMode(q);
    DecodesPage(word);
    PermitsIsAllowed(q, word);
    AlignedIs(Decode(word), i);
    if Aligned(Decode(word), i) {
      LeafAddress(SchemeOf(DecodeSatp(q.satp).mode), q.addr, Decode(word), i);
    }
  }

  function WalkFrom(words: Words, q: Raw, a: nat, i: nat): Walked
    requires i < 4
  {
    Walk(Translate.ViewOf(words), a, Indices(QueryVpn(RequestOf(q))), i)
  }

  /** One level of the walk, in terms of the bits of the word. */
  lemma WalkReads(words: Words, q: Raw, a: nat, i: nat)
    requires 0 < Levels(q) && i < Levels(q)
    ensures var slot, w := SlotAt(q, a, i), WalkFrom(words, q, a, i);
            if slot !in words then w == BusError
            else if Invalid(words[slot]) then w == Fault
            else if !PointsOn(words[slot]) then w == Found(Decode(words[slot]), slot, i)
            else w == if i == 0 then Fault else WalkFrom(words, q, PageOf(words[slot]) * 4096, i - 1)
  {
    IndexIs(q, i);
    Translate.WalkStep(Translate.ViewOf(words), a, Indices(QueryVpn(RequestOf(q))), i);
    if SlotAt(q, a, i) in words {
      DecodesFlags(words[SlotAt(q, a, i)]);
      DecodesPage(words[SlotAt(q, a, i)]);
    }
  }

  /** Level by level the walk does what the standard says of the bits, but for reserved encodings. */
  lemma {:induction false} WalkIsAlgorithm(words: Words, q: Raw, a: nat, i: nat)
    requires 0 < Levels(q) && i < Levels(q)
    ensures AnswerTo(q, WalkFrom(words, q, a, i)) == Algorithm(words, q, a, i, false)
    decreases i
  {
    var slot := SlotAt(q, a, i);
    WalkReads(words, q, a, i);
    if slot in words && !Invalid(words[slot]) {
      if !PointsOn(words[slot]) {
        LeafIsStandard(q, words[slot], slot, i);
      } else if i > 0 {
        WalkIsAlgorithm(words, q, PageOf(words[slot]) * 4096, i - 1);
      }
    }
  }

  /** The TLB-free translation is the standard's on the bits, but for reserved encodings. */
  lemma ReferenceIsStandard(words: Words, q: Raw)
    ensures Reference(Translate.ViewOf(words), RequestOf(q)) == Standard(words, q, false)
  {
    DecodesMode(q);
    if Levels(q) > 0 {
      CanonicalIsInHalves(SchemeOf(DecodeSatp(q.satp).mode), q.addr);
      DecodesSatp(q.satp);
      WalkIsAlgorithm(words, q, RootOf(q.satp) * 4096, Levels(q) - 1);
    }
  }

  // ---------------------------------------------------------------------------
  // The leaf decides
  // ---------------------------------------------------------------------------

  /** Where following the pointers ends: at a word that cannot be read, at one that is no leaf, or at a leaf. */
  datatype End = Unread | NoLeaf | Leaf(word: bv64, level: nat)

  function EndFrom(words: Words, q: Raw, a: nat, i: nat): End
    decreases i
  {
    var slot := SlotAt(q, a, i);
    if slot !in words then Unread
    else if Invalid(words[slot]) then NoLeaf
    else if !PointsOn(words[slot]) then Leaf(words[slot], i)
    else if i == 0 then NoLeaf
    else EndFrom(words, q, PageOf(words[slot]) * 4096, i - 1)
  }

  function EndFor(words: Words, q: Raw): End
    requires Levels(q) > 0
  {
    EndFrom(words, q, RootOf(q.satp) * 4096, Levels(q) - 1)
  }

  /** The leaf lies on a boundary of its size and its bits allow the access. */
  predicate Grants(q: Raw, word: bv64, i: nat) { PageOf(word) * 4096 % LeafBytes(i) == 0 && Allowed(q, word) }

  lemma {:induction false} EndDecides(words: Words, q: Raw, a: nat, i: nat)
    ensures Algorithm(words, q, a, i, false)
         == match EndFrom(words, q, a, i)
            case Unread => Err(AccessFault(q.access, q.addr))
            case NoLeaf => Err(PageFault(q.access, q.addr))
            case Leaf(word, level) => AtLeaf(q, word, level)
    decreases i
  {
    var slot := SlotAt(q, a, i);
    if slot in words && !Invalid(words[slot]) && PointsOn(words[slot]) && i > 0 {
      EndDecides(words, q, PageOf(words[slot]) * 4096, i - 1);
    }
  }

  // ---------------------------------------------------------------------------
  // Reserved encodings
  // ---------------------------------------------------------------------------

  /** No word that is read on the way and taken as valid uses a reserved encoding. */
  predicate PathClean(words: Words, q: Raw, a: nat, i: nat)
    decreases i
  {
    var slot := SlotAt(q, a, i);
    slot in words && !Invalid(words[slot]) ==>
      && !Reserved(words[slot])
      && (i > 0 && PointsOn(words[slot]) ==> PathClean(words, q, PageOf(words[slot]) * 4096, i - 1))
  }

  lemma {:induction false} ReservedFaults(words: Words, q: Raw, a: nat, i: nat)
    ensures Algorithm(words, q, a, i, true)
         == if PathClean(words, q, a, i) then Algorithm(words, q, a, i, false) else Err(PageFault(q.access, q.addr))
    decreases i
  {
    var slot := SlotAt(q, a, i);
    if slot in words && !Invalid(words[slot]) && PointsOn(words[slot]) && i > 0 {
      ReservedFaults(words, q, PageOf(words[slot]) * 4096, i - 1);
    }
  }

  /** The request is not translated, or meets no reserved encoding. */
  predicate Clean(words: Words, q: Raw) {
    Levels(q) > 0 && InHalves(Levels(q), q.addr) ==> PathClean(words, q, RootOf(q.satp) * 4096, Levels(q) - 1)
  }

  /** The request is refused whatever reserved bits say: its address is in neither half, or there is no leaf, or the
      leaf does not grant it. */
  predicate Refuses(words: Words, q: Raw) {
    && Levels(q) > 0
    && (InHalves(Levels(q), q.addr) ==> match EndFor(words, q)
                                        case Unread => false
                                        case NoLeaf => true
                                        case Leaf(word, level) => !Grants(q, word, level))
  }

  /** The walk gives the standard's result exactly when it meets no reserved encoding, or the tables refuse
      the request anyway. */
  lemma ReferenceIsStandardIff(words: Words, q: Raw)
    ensures Reference(Translate.ViewOf(words), RequestOf(q)) == Standard(words, q, true)
       <==> Clean(words, q) || Refuses(words, q)
  {
    ReferenceIsStandard(words, q);
    if Levels(q) > 0 {
      ReservedFaults(words, q, RootOf(q.satp) * 4096, Levels(q) - 1);
      EndDecides(words, q, RootOf(q.satp) * 4096, Levels(q) - 1);
    }
  }

  /** `translate` from the words in memory, satp and mstatus, with a TLB that is coherent with them: it succeeds
      exactly when the leaf grants the access, and gives the standard's result but for reserved encodings. */
  method TranslateWords(bus: Translate.Bus, tlb: TlbCache, q: Raw, ghost sp: Spaces) returns (r: Result)
    requires tlb.Valid() && Coherent(State(bus.View(), tlb.entries[..]), sp) && GlobalsAgree(bus.View(), sp)
    requires sp.Serves(RequestOf(q))
    modifies bus, tlb.entries
    ensures Coherent(State(bus.View(), tlb.entries[..]), sp) && GlobalsAgree(bus.View(), sp)
    ensures r == Standard(old(bus.words), q, false)
    ensures Levels(q) > 0 ==>
              (r.Ok? <==> && InHalves(Levels(q), q.addr)
                          && var end := EndFor(old(bus.words), q);
                             end.Leaf? && Grants(q, end.word, end.level))
    ensures r == Standard(old(bus.words), q, true) <==> Clean(old(bus.words), q) || Refuses(old(bus.words), q)
  {
    ghost var words := bus.words;
    StepRefinesReference(State(bus.View(), tlb.entries[..]), RequestOf(q), sp);
    ReferenceIsStandard(words, q);
    ReferenceIsStandardIff(words, q);
    if Levels(q) > 0 { EndDecides(words, q, RootOf(q.satp) * 4096, Levels(q) - 1); }
    r := Translate.Translate(bus, tlb, q.mode, q.satp, q.mstatus, q.addr, q.access);
  }

  /** A gigapage leaf with reserved bit 54 set: the walk maps address 0 where the standard faults. */
  lemma ReservedBitIsIgnored(q: Raw, words: Words)
    requires q == Raw(User, 0x8000_0000_0000_0001, 0, 0, Load) && words == map[4096 := 0x40_0000_0000_0053]
    ensures Standard(words, q, false) == Ok(0) && Standard(words, q, true) == Err(PageFault(Load, 0))
    ensures Reference(Translate.ViewOf(words), RequestOf(q)) == Ok(0)
  {
    var word: bv64 := 0x40_0000_0000_0053;
    assert PageOf(word) == 0 && RootOf(q.satp) == 1 && Levels(q) == 3 && SlotAt(q, 4096, 2) == 4096;
    assert !Invalid(word) && !PointsOn(word) && Reserved(word) && Allowed(q, word);
    ReferenceIsStandard(words, q);
  }
}
