/** Address translation through the TLB, and its refinement of a plain table walk. */
module Mmu {
  import opened Basics
  import opened PageTable
  import opened Tlb

  datatype Mode = Machine | Supervisor | User
  datatype Access = Instruction | Load | Store

  datatype Trap = PageFault(access: Access, addr: U64) | AccessFault(access: Access, addr: U64)
  datatype Result = Ok(pa: nat) | Err(trap: Trap)

  /** The fields of the satp register. */
  datatype Satp = Satp(mode: nat, asid: Asid, root: PageNumber)

  function DecodeSatp(satp: bv64): Satp {
    Satp(((satp >> 60) & 0xF) as bv4 as nat, ((satp >> 44) & 0xFFFF) as bv16 as int,
         (satp & 0xFFF_FFFF_FFFF) as bv44 as int)
  }

  /** The two mstatus bits that permission checks read. */
  datatype Status = Status(mxr: bool, sum: bool)

  function DecodeStatus(mstatus: bv64): Status {
    Status((mstatus >> 19) & 1 == 1, (mstatus >> 18) & 1 == 1)
  }

  datatype Request = Request(mode: Mode, satp: Satp, status: Status, addr: U64, access: Access)

  /** Whether addresses are translated: not in machine mode, nor when satp selects no paging scheme. */
  predicate Paged(q: Request) { !q.mode.Machine? && q.satp.mode in {8, 9} }

  function SchemeOf(mode: nat): Scheme { if mode == 8 then Sv39 else Sv48 }

  /** The bits above the virtual address repeat its sign bit. */
  predicate Canonical(scheme: Scheme, addr: U64) {
    if scheme.Sv39?
    then addr / 0x80_0000_0000 == (if (addr / 0x40_0000_0000) % 2 == 1 then 0x1FF_FFFF else 0)
    else addr / 0x1_0000_0000_0000 == (if (addr / 0x8000_0000_0000) % 2 == 1 then 0xFFFF else 0)
  }

  function VpnOf(scheme: Scheme, addr: U64): nat { (addr / 4096) % scheme.Pages() }

  function QueryVpn(q: Request): nat { VpnOf(SchemeOf(q.satp.mode), q.addr) }

  predicate Permits(mode: Mode, status: Status, rights: Rights, access: Access) {
    && (mode.Supervisor? && rights.u ==> !access.Instruction? && status.sum)
    && (mode.User? ==> rights.u)
    && match access
       case Instruction => rights.x
       case Store => rights.w
       case Load => rights.r || (status.mxr && rights.x)
  }

  /** The outcome of an access to a page with a known mapping. */
  function Outcome(m: Mapping, q: Request): Result {
    match m
    case Unreadable => Err(AccessFault(q.access, q.addr))
    case Unmapped => Err(PageFault(q.access, q.addr))
    case Mapped(ppn, rights) =>
      if Permits(q.mode, q.status, rights, q.access) then Ok(ppn * 4096 + q.addr % 4096)
      else Err(PageFault(q.access, q.addr))
  }

  /** Translation with no TLB: the reference every cached translation must match. */
  function Reference(mem: Memory, q: Request): Result {
    if !Paged(q) then Ok(q.addr)
    else if !Canonical(SchemeOf(q.satp.mode), q.addr) then Err(PageFault(q.access, q.addr))
    else Outcome(Lookup(mem, SchemeOf(q.satp.mode), q.satp.root, QueryVpn(q)), q)
  }

  // ---------------------------------------------------------------------------
  // One translation as a step of memory and TLB
  // ---------------------------------------------------------------------------

  datatype State = State(mem: Memory, tlb: seq<Entry>)

  function MarkedPte(pte: Pte, access: Access): Pte { pte.(a := true, d := pte.d || access.Store?) }

  function EntryFor(q: Request, pte: Pte, level: nat): Entry
    requires level < 4
  {
    Entry(QueryVpn(q), LeafPpn(pte, level, QueryVpn(q)), q.satp.asid, RightsOf(pte),
          true, pte.d || q.access.Store?, level, true)
  }

  /** The leaf a request is translated by, as a walk of the tables finds it. */
  function LeafOf(mem: Memory, q: Request): Walked { WalkRoot(mem, SchemeOf(q.satp.mode), q.satp.root, QueryVpn(q)) }

  /** The walk on a TLB miss: faults change nothing, a success marks the leaf and fills the slot. */
  function Missed(s: State, q: Request): (Result, State)
    requires |s.tlb| == SIZE
  {
    match LeafOf(s.mem, q)
    case BusError => (Err(AccessFault(q.access, q.addr)), s)
    case Fault => (Err(PageFault(q.access, q.addr)), s)
    case Found(pte, slot, level) =>
      if !Permits(q.mode, q.status, RightsOf(pte), q.access) || !Aligned(pte, level)
      then (Err(PageFault(q.access, q.addr)), s)
      else
        var e := EntryFor(q, pte, level);
        (Ok(e.ppn * 4096 + q.addr % 4096),
         State(s.mem[slot := MarkedPte(pte, q.access)], s.tlb[e.vpn % SIZE := e]))
  }

  function Step(s: State, q: Request): (Result, State)
    requires |s.tlb| == SIZE
  {
    if !Paged(q) then (Ok(q.addr), s)
    else if !Canonical(SchemeOf(q.satp.mode), q.addr) then (Err(PageFault(q.access, q.addr)), s)
    else
      var vpn := QueryVpn(q);
      var e := s.tlb[vpn % SIZE];
      if Hit(e, vpn, q.satp.asid) then
        if Permits(q.mode, q.status, e.rights, q.access) then (Ok(e.ppn * 4096 + q.addr % 4096), s)
        else (Err(PageFault(q.access, q.addr)), s)
      else Missed(s, q)
  }

  // ---------------------------------------------------------------------------
  // Coherence
  // ---------------------------------------------------------------------------

  /** One paging scheme and one root table per address space. */
  datatype Spaces = Spaces(scheme: Scheme, root: Asid -> PageNumber) {
    predicate Serves(q: Request) {
      Paged(q) ==> SchemeOf(q.satp.mode) == scheme && q.satp.root == root(q.satp.asid)
    }
    function At(mem: Memory, asid: Asid, vpn: nat): Mapping { Lookup(mem, scheme, root(asid), vpn) }
    function WalkAt(mem: Memory, asid: Asid, vpn: nat): Walked { WalkRoot(mem, scheme, root(asid), vpn) }
  }

  /** Pages mapped global in one address space are mapped alike in all. */
  ghost predicate GlobalsAgree(mem: Memory, sp: Spaces) {
    forall a: Asid, b: Asid, vpn: nat :: sp.At(mem, a, vpn).Global() ==> sp.At(mem, b, vpn) == sp.At(mem, a, vpn)
  }

  /** A valid entry tells what a walk of the current tables would find: in its own address space,
      and in every one if it is global. */
  ghost predicate Agrees(mem: Memory, sp: Spaces, e: Entry) {
    forall asid: Asid :: e.rights.g || asid == e.asid ==> sp.At(mem, asid, e.vpn) == Mapped(e.ppn, e.rights)
  }

  ghost predicate Coherent(s: State, sp: Spaces) {
    && |s.tlb| == SIZE && InPlace(s.tlb)
    && forall i | 0 <= i < SIZE :: s.tlb[i].valid ==> Agrees(s.mem, sp, s.tlb[i])
  }

  /** Agreement survives marking of the tables. */
  lemma AgreesAfterMarking(mem: Memory, mem': Memory, sp: Spaces, e: Entry)
    requires EqualButAD(mem, mem') && Agrees(mem, sp, e)
    ensures Agrees(mem', sp, e)
  {
    forall asid: Asid | e.rights.g || asid == e.asid
      ensures sp.At(mem', asid, e.vpn) == Mapped(e.ppn, e.rights)
    {
      assert sp.At(mem, asid, e.vpn) == Mapped(e.ppn, e.rights);
      LookupIgnoresAD(mem, mem', sp.scheme, sp.root(asid), e.vpn);
    }
  }

  lemma GlobalsAgreeAfterMarking(mem: Memory, mem': Memory, sp: Spaces)
    requires EqualButAD(mem, mem') && GlobalsAgree(mem, sp)
    ensures GlobalsAgree(mem', sp)
  {
    forall a: Asid, b: Asid, vpn: nat | sp.At(mem', a, vpn).Global()
      ensures sp.At(mem', b, vpn) == sp.At(mem', a, vpn)
    {
      LookupIgnoresAD(mem, mem', sp.scheme, sp.root(a), vpn);
      LookupIgnoresAD(mem, mem', sp.scheme, sp.root(b), vpn);
      assert sp.At(mem, a, vpn).Global();
      assert sp.At(mem, b, vpn) == sp.At(mem, a, vpn);
    }
  }

  /** A translation changes memory only by setting A and D bits. */
  lemma StepOnlyMarks(s: State, q: Request)
    requires |s.tlb| == SIZE
    ensures OnlySetsAD(s.mem, Step(s, q).1.mem)
  {
    var w := LeafOf(s.mem, q);
    if w.Found? { MarkingOnlySets(s.mem, w.slot, q.access); }
  }

  lemma MarkingOnlySets(mem: Memory, slot: nat, access: Access)
    requires slot in mem
    ensures OnlySetsAD(mem, mem[slot := MarkedPte(mem[slot], access)]) && OnlySetsAD(mem, mem)
  {
  }

  /** A filled slot agrees with the tables as the walk left them. */
  lemma FilledEntryAgrees(s: State, q: Request, sp: Spaces)
    requires |s.tlb| == SIZE && Paged(q) && sp.Serves(q) && GlobalsAgree(s.mem, sp)
    requires Missed(s, q).0.Ok?
    ensures Agrees(Missed(s, q).1.mem, sp, Missed(s, q).1.tlb[QueryVpn(q) % SIZE])
  {
    var vpn, mem' := QueryVpn(q), Missed(s, q).1.mem;
    var w := sp.WalkAt(s.mem, q.satp.asid, vpn);
    var e := EntryFor(q, w.pte, w.level);
    assert sp.At(s.mem, q.satp.asid, vpn) == Mapped(e.ppn, e.rights);
    forall asid: Asid | e.rights.g || asid == e.asid
      ensures sp.At(mem', asid, vpn) == Mapped(e.ppn, e.rights)
    {
      assert sp.At(s.mem, asid, vpn) == Mapped(e.ppn, e.rights);
      LookupIgnoresAD(s.mem, mem', sp.scheme, sp.root(asid), vpn);
    }
  }

  lemma StepAnswers(s: State, q: Request, sp: Spaces)
    requires Coherent(s, sp) && sp.Serves(q)
    ensures Step(s, q).0 == Reference(s.mem, q)
  {
    if Paged(q) && Hit(s.tlb[QueryVpn(q) % SIZE], QueryVpn(q), q.satp.asid) {
      var e := s.tlb[QueryVpn(q) % SIZE];
      assert sp.At(s.mem, q.satp.asid, e.vpn) == Mapped(e.ppn, e.rights);
    }
  }

  /** TLB refinement: with a coherent TLB a translation gives what the plain walk gives,
      and leaves the TLB coherent with the marked tables. */
  lemma StepRefinesReference(s: State, q: Request, sp: Spaces)
    requires Coherent(s, sp) && GlobalsAgree(s.mem, sp) && sp.Serves(q)
    ensures Step(s, q).0 == Reference(s.mem, q)
    ensures Coherent(Step(s, q).1, sp) && GlobalsAgree(Step(s, q).1.mem, sp)
  {
    var s' := Step(s, q).1;
    StepAnswers(s, q, sp);
    StepOnlyMarks(s, q);
    GlobalsAgreeAfterMarking(s.mem, s'.mem, sp);
    if s' != s {
      FilledEntryAgrees(s, q, sp);
    }
    forall i | 0 <= i < SIZE && s'.tlb[i].valid
      ensures Agrees(s'.mem, sp, s'.tlb[i])
    {
      if s'.tlb[i] == s.tlb[i] {
        AgreesAfterMarking(s.mem, s'.mem, sp, s.tlb[i]);
      }
    }
  }

  // ---------------------------------------------------------------------------
  // Accessed and dirty bits
  // ---------------------------------------------------------------------------

  /** The leaf an entry was filled from carries A, and D where the entry does. */
  ghost predicate LeafMarked(mem: Memory, sp: Spaces, e: Entry) {
    var w := sp.WalkAt(mem, e.asid, e.vpn);
    w.Found? && e.a && w.pte.a && (e.d ==> w.pte.d)
  }

  ghost predicate AllMarked(s: State, sp: Spaces) {
    |s.tlb| == SIZE && forall i | 0 <= i < SIZE :: s.tlb[i].valid ==> LeafMarked(s.mem, sp, s.tlb[i])
  }

  /** Every cached page has A set in the tables, and D if the entry has it; translations keep this. */
  lemma StepKeepsMarks(s: State, q: Request, sp: Spaces)
    requires AllMarked(s, sp) && sp.Serves(q)
    ensures AllMarked(Step(s, q).1, sp)
  {
    var s' := Step(s, q).1;
    StepOnlyMarks(s, q);
    forall i | 0 <= i < SIZE && s'.tlb[i].valid
      ensures LeafMarked(s'.mem, sp, s'.tlb[i])
    {
      var e := s'.tlb[i];
      WalkIgnoresAD(s.mem, s'.mem, sp.root(e.asid) * 4096, Indices(e.vpn), sp.scheme.Levels() - 1);
      if s'.tlb[i] == s.tlb[i] {
        assert LeafMarked(s.mem, sp, e);
      } else {
        var w := sp.WalkAt(s.mem, q.satp.asid, QueryVpn(q));
        assert s'.mem[w.slot] == MarkedPte(w.pte, q.access);
      }
    }
  }

  predicate Dirty(w: Walked) { w.Found? && w.pte.d }

  predicate Cached(s: State, q: Request)
    requires |s.tlb| == SIZE
  {
    Hit(s.tlb[QueryVpn(q) % SIZE], QueryVpn(q), q.satp.asid)
  }

  /** A store leaves D set in its leaf exactly when it missed the TLB or D was set before: a hit writes nothing. */
  lemma StoreMarksDirtyIff(s: State, q: Request)
    requires |s.tlb| == SIZE && Paged(q) && q.access.Store? && Step(s, q).0.Ok?
    ensures Dirty(LeafOf(Step(s, q).1.mem, q)) <==> !Cached(s, q) || Dirty(LeafOf(s.mem, q))
    ensures if Cached(s, q) then Step(s, q).1 == s else LeafOf(Step(s, q).1.mem, q).pte.a
  {
    if !Cached(s, q) {
      StepOnlyMarks(s, q);
      WalkIgnoresAD(s.mem, Step(s, q).1.mem, q.satp.root * 4096, Indices(QueryVpn(q)),
                    SchemeOf(q.satp.mode).Levels() - 1);
    }
  }

  /** One writable page, its leaf in the root table, and an empty TLB. */
  function OnePage(): State {
    State(map[4096 := Pte(true, true, true, false, false, false, false, false, 0, 0, 0)], seq(SIZE, _ => EMPTY))
  }

  function Touching(access: Access): Request {
    Request(Supervisor, Satp(8, 0, 1), Status(false, false), 0, access)
  }

  lemma LoadMarksAccessed()
    ensures Step(OnePage(), Touching(Load)).0 == Ok(0)
    ensures var s := Step(OnePage(), Touching(Load)).1;
            && |s.tlb| == SIZE && Hit(s.tlb[0], 0, 0) && s.tlb[0].rights.w && !s.tlb[0].rights.u && s.tlb[0].ppn == 0
            && s.mem == map[4096 := MarkedPte(OnePage().mem[4096], Load)]
  {
    var s0, q := OnePage(), Touching(Load);
    assert QueryVpn(q) == 0 && Indices(0)[2] == 0;
    assert LeafOf(s0.mem, q) == Found(s0.mem[4096], 4096, 2);
    assert s0.mem[4096 := MarkedPte(s0.mem[4096], Load)] == map[4096 := MarkedPte(s0.mem[4096], Load)];
  }

  lemma StoreHits(s: State, q: Request)
    requires |s.tlb| == SIZE && q == Touching(Store)
    requires Hit(s.tlb[0], 0, 0) && s.tlb[0].rights.w && !s.tlb[0].rights.u && s.tlb[0].ppn == 0
    ensures Step(s, q) == (Ok(0), s)
  {
    assert QueryVpn(q) == 0;
  }

  lemma OnlyLeaf(mem: Memory, q: Request, pte: Pte)
    requires q == Touching(Store) && mem == map[4096 := pte] && pte.v && pte.r
    ensures LeafOf(mem, q) == Found(pte, 4096, 2)
  {
    assert QueryVpn(q) == 0 && Indices(0)[2] == 0;
  }

  /** A load brings the page into the TLB; the store that follows succeeds and leaves D clear. */
  lemma StoreAfterLoadStaysClean()
    ensures Step(OnePage(), Touching(Load)).0 == Ok(0)
    ensures var s := Step(OnePage(), Touching(Load)).1;
            && |s.tlb| == SIZE && Step(s, Touching(Store)).0 == Ok(0)
            && LeafOf(Step(s, Touching(Store)).1.mem, Touching(Store)).Found?
            && !Dirty(LeafOf(Step(s, Touching(Store)).1.mem, Touching(Store)))
  {
    LoadMarksAccessed();
    var s := Step(OnePage(), Touching(Load)).1;
    StoreHits(s, Touching(Store));
    OnlyLeaf(s.mem, Touching(Store), s.mem[4096]);
  }
}
