/** The translation routine itself: bus, TLB array and walk loop, proved against `Mmu.Step`. */
module Translate {
  import opened Basics
  import opened Arith
  import opened PageTable
  import opened Tlb
  import opened Mmu

  /** Memory words seen through the PTE format. */
  function ViewOf(words: map<nat, bv64>): Memory { map k | k in words :: Decode(words[k]) }

  /** The part of the bus a walk uses: 64-bit loads and stores, failing outside memory. */
  class Bus {
    var words: map<nat, bv64>

    function View(): Memory
      reads this
    {
      ViewOf(words)
    }

    method Load(addr: nat) returns (ok: bool, word: bv64)
      ensures ok == (addr in words) && (ok ==> word == words[addr])
      ensures ok == (addr in View()) && (ok ==> View()[addr] == Decode(word))
    {
      ok, word := addr in words, 0;
      if ok { word := words[addr]; }
    }

    method Store(addr: nat, word: bv64) returns (ok: bool)
      modifies this
      ensures ok == old(addr in words)
      ensures words == if ok then old(words)[addr := word] else old(words)
    {
      ok := addr in words;
      if ok { words := words[addr := word]; }
    }
  }

  /** The index an address selects at a level is the one its page number holds there. */
  lemma IndexOfAddress(scheme: Scheme, addr: U64)
    ensures (addr / 4096) % 512 == Indices(VpnOf(scheme, addr))[0]
    ensures (addr / 0x20_0000) % 512 == Indices(VpnOf(scheme, addr))[1]
    ensures (addr / 0x4000_0000) % 512 == Indices(VpnOf(scheme, addr))[2]
    ensures scheme.Sv48? ==> (addr / 0x80_0000_0000) % 512 == Indices(VpnOf(scheme, addr))[3]
  {
    var page := addr / 4096;
    assert addr / 0x20_0000 == page / 0x200;
    assert addr / 0x4000_0000 == page / 0x4_0000;
    assert addr / 0x80_0000_0000 == page / 0x800_0000;
    if scheme.Sv39? { RemainderOfPage39(page); } else { RemainderOfPage48(page); }
  }

  lemma RemainderOfPage39(page: nat)
    ensures (page % 0x800_0000) % 512 == page % 512
    ensures (page % 0x800_0000) % 0x4_0000 == page % 0x4_0000
    ensures ((page % 0x800_0000) / 0x200) % 512 == (page / 0x200) % 512
    ensures ((page % 0x800_0000) / 0x4_0000) % 512 == (page / 0x4_0000) % 512
  {
    var high, low := page / 0x800_0000, page % 0x800_0000;
    LowPart(page, 0x200, 0x4_0000, high, low);
    LowPart(page, 0x4_0000, 0x200, high, low);
    LowPart(page / 0x200, 512, 512, page / 0x200 / 0x4_0000, low / 0x200);
  }

  lemma RemainderOfPage48(page: nat)
    ensures (page % 0x10_0000_0000) % 512 == page % 512
    ensures (page % 0x10_0000_0000) % 0x4_0000 == page % 0x4_0000
    ensures (page % 0x10_0000_0000) % 0x800_0000 == page % 0x800_0000
    ensures ((page % 0x10_0000_0000) / 0x200) % 512 == (page / 0x200) % 512
    ensures ((page % 0x10_0000_0000) / 0x4_0000) % 512 == (page / 0x4_0000) % 512
    ensures ((page % 0x10_0000_0000) / 0x800_0000) % 512 == (page / 0x800_0000) % 512
  {
    var high, low := page / 0x10_0000_0000, page % 0x10_0000_0000;
    LowPart(page, 0x200, 0x800_0000, high, low);
    LowPart(page, 0x4_0000, 0x4_0000, high, low);
    LowPart(page, 0x800_0000, 0x200, high, low);
    LowPart(page / 0x200, 512, 0x4_0000, page / 0x200 / 0x800_0000, low / 0x200);
    LowPart(page / 0x4_0000, 512, 512, page / 0x4_0000 / 0x4_0000, low / 0x4_0000);
  }

  lemma LowPartOfPage(scheme: Scheme, addr: U64, pte: Pte, level: nat)
    requires level < scheme.Levels()
    ensures LeafPpn(pte, level, addr / 4096) == LeafPpn(pte, level, VpnOf(scheme, addr))
  {
    if scheme.Sv39? { RemainderOfPage39(addr / 4096); } else { RemainderOfPage48(addr / 4096); }
  }

  /** `addr >> (12 + 9 * level)` */
  function ShiftToLevel(addr: U64, level: nat): nat
    requires level < 4
  {
    if level == 0 then addr / 4096
    else if level == 1 then addr / 0x20_0000
    else if level == 2 then addr / 0x4000_0000
    else addr / 0x80_0000_0000
  }

  /** The per-level table indices of an address, computed before the walk. */
  method AddressIndices(scheme: Scheme, addr: U64) returns (vpn: array<nat>)
    ensures fresh(vpn) && vpn.Length == 4
    ensures forall k | 0 <= k < scheme.Levels() :: vpn[k] == Indices(VpnOf(scheme, addr))[k]
  {
    vpn := new nat[4](_ => 0);
    for level := 0 to scheme.Levels()
      invariant forall k | 0 <= k < level :: vpn[k] == ShiftToLevel(addr, k) % 512
    {
      vpn[level] := ShiftToLevel(addr, level) % 512;
    }
    IndexOfAddress(scheme, addr);
  }

  /** The word with A set, and D on a store; `update` tells whether memory must change. */
  method MarkWord(word: bv64, access: Access) returns (newWord: bv64, entryD: bool, update: bool)
    ensures Decode(newWord) == MarkedPte(Decode(word), access)
    ensures entryD == (Decode(word).d || access.Store?)
    ensures !update ==> newWord == word
  {
    var pte := Decode(word);
    newWord, entryD, update := word, pte.d, false;
    if !pte.a {
      DecodeSetBit(word);
      newWord, update := newWord | (1 << 6), true;
    }
    if access.Store? && !entryD {
      DecodeSetBit(newWord);
      newWord, entryD, update := newWord | (1 << 7), true, true;
    }
  }

  /** The A/D update of a leaf in memory. */
  method MarkLeaf(bus: Bus, slot: nat, word: bv64, access: Access) returns (ok: bool, entryD: bool)
    requires slot in bus.words && bus.words[slot] == word
    modifies bus
    ensures ok && bus.View() == old(bus.View())[slot := MarkedPte(Decode(word), access)]
    ensures entryD == (Decode(word).d || access.Store?)
  {
    var newWord, d, update := MarkWord(word, access);
    ok, entryD := true, d;
    if update {
      ok := bus.Store(slot, newWord);
    }
  }

  /** What the word at one level decides. */
  lemma WalkStep(mem: Memory, a: nat, index: seq<nat>, i: nat)
    requires i < 4 <= |index|
    ensures var slot, w := a + index[i] * 8, Walk(mem, a, index, i);
            if slot !in mem then w == BusError
            else if mem[slot].Malformed() then w == Fault
            else if !mem[slot].Pointer() then w == Found(mem[slot], slot, i)
            else w == if i == 0 then Fault else Walk(mem, mem[slot].ppn * 4096, index, i - 1)
  {
  }

  /** The tail of the walk at a leaf: checks, A/D update in memory, TLB fill, physical address. */
  method FinishLeaf(bus: Bus, tlb: TlbCache, q: Request, slot: nat, word: bv64, pte: Pte, level: nat)
    returns (r: Result)
    requires tlb.Valid() && slot in bus.words && bus.words[slot] == word && pte == Decode(word)
    requires level < SchemeOf(q.satp.mode).Levels()
    requires WalkRoot(bus.View(), SchemeOf(q.satp.mode), q.satp.root, QueryVpn(q)) == Found(pte, slot, level)
    modifies bus, tlb.entries
    ensures (r, State(bus.View(), tlb.entries[..])) == Missed(old(State(bus.View(), tlb.entries[..])), q)
  {
    if !Permits(q.mode, q.status, RightsOf(pte), q.access) {
      return Err(PageFault(q.access, q.addr));
    }
    if level > 0 && !Aligned(pte, level) {
      return Err(PageFault(q.access, q.addr));
    }
    var stored, entryD := MarkLeaf(bus, slot, word, q.access);
    if !stored {
      return Err(AccessFault(q.access, q.addr));
    }
    var resultPpn := LeafPpn(pte, level, q.addr / 4096);
    assert resultPpn == LeafPpn(pte, level, QueryVpn(q)) by {
      LowPartOfPage(SchemeOf(q.satp.mode), q.addr, pte, level);
    }
    tlb.Insert(Entry(QueryVpn(q), resultPpn, q.satp.asid, RightsOf(pte), true, entryD, level, true));
    return Ok(resultPpn * 4096 + q.addr % 4096);
  }

  /** The loop over the levels, down to a leaf, a fault or a failed load. */
  method FindLeaf(bus: Bus, q: Request) returns (w: Walked, word: bv64)
    ensures w == LeafOf(bus.View(), q) && (w.Found? ==> w.slot in bus.words && bus.words[w.slot] == word)
  {
    var scheme := SchemeOf(q.satp.mode);
    var vpn := AddressIndices(scheme, q.addr);
    var a: nat, i: nat := q.satp.root * 4096, scheme.Levels() - 1;
    ghost var mem, index := bus.View(), Indices(QueryVpn(q));
    while true
      invariant i < scheme.Levels() && Walk(mem, a, index, i) == LeafOf(mem, q)
      invariant forall k | 0 <= k < scheme.Levels() :: vpn[k] == index[k]
      decreases i
    {
      var slot := a + vpn[i] * 8;
      assert slot == a + index[i] * 8;
      var loaded;
      loaded, word := bus.Load(slot);
      WalkStep(mem, a, index, i);
      if !loaded { return BusError, word; }
      var pte := Decode(word);
      if pte.Malformed() { return Fault, word; }
      if !pte.Pointer() { return Found(pte, slot, i), word; }
      if i == 0 { return Fault, word; }
      a, i := pte.ppn * 4096, i - 1;
    }
  }

  /** The table walk on a TLB miss. */
  method WalkTables(bus: Bus, tlb: TlbCache, q: Request) returns (r: Result)
    requires tlb.Valid()
    modifies bus, tlb.entries
    ensures (r, State(bus.View(), tlb.entries[..])) == Missed(old(State(bus.View(), tlb.entries[..])), q)
  {
    var w, word := FindLeaf(bus, q);
    match w
    case BusError => r := Err(AccessFault(q.access, q.addr));
    case Fault => r := Err(PageFault(q.access, q.addr));
    case Found(pte, slot, level) => r := FinishLeaf(bus, tlb, q, slot, word, pte, level);
  }

  /** `translate`: bare modes, canonical check, TLB hit, or the walk with its A/D updates. */
  method Translate(bus: Bus, tlb: TlbCache, mode: Mode, satp: bv64, mstatus: bv64, addr: U64, access: Access)
    returns (r: Result)
    requires tlb.Valid()
    modifies bus, tlb.entries
    ensures (r, State(bus.View(), tlb.entries[..]))
         == Step(old(State(bus.View(), tlb.entries[..])),
                 Request(mode, DecodeSatp(satp), DecodeStatus(mstatus), addr, access))
  {
    var q := Request(mode, DecodeSatp(satp), DecodeStatus(mstatus), addr, access);
    if mode == Machine || (q.satp.mode != 8 && q.satp.mode != 9) {
      return Ok(addr);
    }
    if !Canonical(SchemeOf(q.satp.mode), addr) {
      return Err(PageFault(access, addr));
    }
    var found, entry := tlb.Lookup(QueryVpn(q), q.satp.asid);
    if found {
      if Permits(mode, q.status, entry.rights, access) {
        return Ok(entry.ppn * 4096 + addr % 4096);
      } else {
        return Err(PageFault(access, addr));
      }
    }
    r := WalkTables(bus, tlb, q);
  }
}
