/** Fences after table rewrites, and whole runs of translations, rewrites and fences. */
module MmuRuns {
  import opened Basics
  import opened Arith
  import opened PageTable
  import opened Tlb
  import opened Mmu

  /** The rewrite touched only mappings of one address space, and no global one. */
  ghost predicate RewritesOnlySpace(mem: Memory, mem': Memory, sp: Spaces, asid: Asid) {
    && (forall b: Asid, vpn: nat :: b != asid ==> sp.At(mem', b, vpn) == sp.At(mem, b, vpn))
    && (forall vpn: nat :: sp.At(mem, asid, vpn).Global() || sp.At(mem', asid, vpn).Global()
                           ==> sp.At(mem', asid, vpn) == sp.At(mem, asid, vpn))
  }

  /** The rewrite touched only one page: in one address space, and elsewhere only if it was global. */
  ghost predicate RewritesOnlyPage(mem: Memory, mem': Memory, sp: Spaces, vpn: nat, asid: Asid) {
    forall b: Asid, p: nat :: p != vpn || (b != asid && !sp.At(mem, b, p).Global())
                              ==> sp.At(mem', b, p) == sp.At(mem, b, p)
  }

  /** flush_asid restores coherence after such a rewrite and keeps every other entry. */
  lemma FlushAsidRestores(s: State, mem': Memory, sp: Spaces, asid: Asid)
    requires Coherent(s, sp) && GlobalsAgree(s.mem, sp) && RewritesOnlySpace(s.mem, mem', sp, asid)
    ensures Coherent(State(mem', FlushedAsid(s.tlb, asid)), sp) && GlobalsAgree(mem', sp)
    ensures forall i | 0 <= i < SIZE ::
              s.tlb[i].rights.g || s.tlb[i].asid != asid ==> FlushedAsid(s.tlb, asid)[i] == s.tlb[i]
  {
    var t := FlushedAsid(s.tlb, asid);
    forall i | 0 <= i < SIZE && t[i].valid
      ensures Agrees(mem', sp, t[i])
    {
      forall b: Asid | t[i].rights.g || b == t[i].asid
        ensures sp.At(mem', b, t[i].vpn) == Mapped(t[i].ppn, t[i].rights)
      {
        assert Agrees(s.mem, sp, s.tlb[i]);
        assert sp.At(s.mem, b, t[i].vpn) == Mapped(t[i].ppn, t[i].rights);
      }
    }
    forall a: Asid, b: Asid, vpn: nat | sp.At(mem', a, vpn).Global()
      ensures sp.At(mem', b, vpn) == sp.At(mem', a, vpn)
    {
      assert sp.At(s.mem, a, vpn) == sp.At(mem', a, vpn);
      assert sp.At(s.mem, b, vpn) == sp.At(s.mem, a, vpn);
    }
  }

  /** flush_page restores coherence after a rewrite of one page. */
  lemma FlushPageRestores(s: State, mem': Memory, sp: Spaces, vpn: nat, asid: Asid)
    requires Coherent(s, sp) && RewritesOnlyPage(s.mem, mem', sp, vpn, asid)
    ensures Coherent(State(mem', FlushedPage(s.tlb, vpn, asid)), sp)
  {
    var t := FlushedPage(s.tlb, vpn, asid);
    forall i | 0 <= i < SIZE && t[i].valid
      ensures Agrees(mem', sp, t[i])
    {
      FlushedPageIsExact(s.tlb, vpn, asid, i, vpn, asid);
      forall b: Asid | t[i].rights.g || b == t[i].asid
        ensures sp.At(mem', b, t[i].vpn) == Mapped(t[i].ppn, t[i].rights)
      {
        assert Agrees(s.mem, sp, s.tlb[i]);
        assert sp.At(s.mem, b, t[i].vpn) == Mapped(t[i].ppn, t[i].rights);
      }
    }
  }

  /** A full flush is coherent with any tables, roots and scheme. */
  lemma FlushAllRestores(tlb: seq<Entry>, mem': Memory, sp': Spaces)
    requires |tlb| == SIZE
    ensures Coherent(State(mem', FlushedAll(tlb)), sp')
  {
  }

  /** Every valid entry holds a page number of the scheme, as all entries filled by a walk do. */
  ghost predicate PagesOf(scheme: Scheme, tlb: seq<Entry>) {
    |tlb| == SIZE && InPlace(tlb) && forall i | 0 <= i < SIZE :: tlb[i].valid ==> tlb[i].vpn < scheme.Pages()
  }

  ghost predicate Holds(tlb: seq<Entry>, vpn: nat) { exists i | 0 <= i < |tlb| :: tlb[i].valid && tlb[i].vpn == vpn }

  function LowerHalf(scheme: Scheme): nat { scheme.Pages() / 2 * 4096 }

  lemma SameSlot(scheme: Scheme, page: nat)
    ensures page % scheme.Pages() % SIZE == page % SIZE
  {
    if scheme.Sv39? {
      LowPart(page, 64, 0x20_0000, page / 0x800_0000, page % 0x800_0000);
    } else {
      LowPart(page, 64, 0x4000_0000, page / 0x10_0000_0000, page % 0x10_0000_0000);
    }
  }

  lemma CanonicalHalves(scheme: Scheme, va: U64)
    requires Canonical(scheme, va)
    ensures if va < LowerHalf(scheme) then va / 4096 < scheme.Pages() else va / 4096 >= scheme.Pages()
  {
  }

  lemma UnmaskedPage(scheme: Scheme, va: U64)
    requires Canonical(scheme, va)
    ensures VpnOf(scheme, va) == va / 4096 <==> va < LowerHalf(scheme)
    ensures VpnOf(scheme, va) % SIZE == (va / 4096) % SIZE
  {
    SameSlot(scheme, va / 4096);
    CanonicalHalves(scheme, va);
  }

  /** flush_va compares the unmasked page number: it removes the page of every TLB content exactly
      when the address lies in the lower half of the address space. */
  lemma FlushVaWorksIffLowerHalf(scheme: Scheme, va: U64)
    requires Canonical(scheme, va)
    ensures (forall tlb | PagesOf(scheme, tlb) :: !Holds(FlushedVa(tlb, va), VpnOf(scheme, va)))
              <==> va < LowerHalf(scheme)
  {
    var vpn, slot := VpnOf(scheme, va), VpnOf(scheme, va) % SIZE;
    UnmaskedPage(scheme, va);
    if va >= LowerHalf(scheme) {
      var e := EMPTY.(vpn := vpn, valid := true);
      var tlb := seq(SIZE, i => if i == slot then e else EMPTY);
      assert PagesOf(scheme, tlb);
      assert FlushedVa(tlb, va)[slot] == e;
      assert Holds(FlushedVa(tlb, va), vpn);
    }
  }

  // ---------------------------------------------------------------------------
  // Runs
  // ---------------------------------------------------------------------------

  /** What happens to the MMU: translations, and table rewrites each followed by its fence. */
  datatype Event =
    | Translate(q: Request)
    | RewriteSpace(mem: Memory, asid: Asid)
    | RewritePage(mem: Memory, vpn: nat, asid: Asid)
    | RewriteAll(mem: Memory, sp: Spaces)

  function Fenced(s: State, e: Event): (s': State)
    requires |s.tlb| == SIZE && !e.Translate?
    ensures |s'.tlb| == SIZE
  {
    match e
    case RewriteSpace(mem, asid) => State(mem, FlushedAsid(s.tlb, asid))
    case RewritePage(mem, vpn, asid) => State(mem, FlushedPage(s.tlb, vpn, asid))
    case RewriteAll(mem, _) => State(mem, FlushedAll(s.tlb))
  }

  function SpacesAfter(sp: Spaces, e: Event): Spaces { if e.RewriteAll? then e.sp else sp }

  /** The tables as software wrote them, without any hardware marks. */
  function Written(mem: Memory, e: Event): Memory { if e.Translate? then mem else e.mem }

  /** Each translation uses the current roots, and each fence covers what its rewrite touched. */
  ghost predicate Legal(mem: Memory, sp: Spaces, e: Event) {
    match e
    case Translate(q) => sp.Serves(q)
    case RewriteSpace(mem', asid) => RewritesOnlySpace(mem, mem', sp, asid)
    case RewritePage(mem', vpn, asid) => RewritesOnlyPage(mem, mem', sp, vpn, asid) && GlobalsAgree(mem', sp)
    case RewriteAll(mem', sp') => GlobalsAgree(mem', sp')
  }

  ghost predicate LegalRun(mem: Memory, sp: Spaces, run: seq<Event>)
    decreases |run|
  {
    run == [] || (Legal(mem, sp, run[0]) && LegalRun(Written(mem, run[0]), SpacesAfter(sp, run[0]), run[1..]))
  }

  /** Results of the machine with TLB and A/D marking. */
  function Cached(s: State, run: seq<Event>): seq<Result>
    requires |s.tlb| == SIZE
    decreases |run|
  {
    if run == [] then []
    else if run[0].Translate? then [Step(s, run[0].q).0] + Cached(Step(s, run[0].q).1, run[1..])
    else Cached(Fenced(s, run[0]), run[1..])
  }

  /** Results of plain walks of the tables as written. */
  function Plain(mem: Memory, run: seq<Event>): seq<Result>
    decreases |run|
  {
    if run == [] then []
    else if run[0].Translate? then [Reference(mem, run[0].q)] + Plain(mem, run[1..])
    else Plain(run[0].mem, run[1..])
  }

  lemma ReferenceIgnoresAD(mem: Memory, mem': Memory, q: Request)
    requires EqualButAD(mem, mem')
    ensures Reference(mem, q) == Reference(mem', q)
  {
    LookupIgnoresAD(mem, mem', SchemeOf(q.satp.mode), q.satp.root, QueryVpn(q));
  }

  lemma RewriteLegalIgnoresAD(mem: Memory, mem': Memory, sp: Spaces, e: Event)
    requires EqualButAD(mem, mem') && Legal(mem, sp, e)
    ensures Legal(mem', sp, e)
  {
    forall b: Asid, vpn: nat ensures sp.At(mem', b, vpn) == sp.At(mem, b, vpn) {
      LookupIgnoresAD(mem, mem', sp.scheme, sp.root(b), vpn);
    }
  }

  lemma FenceRestores(s: State, sp: Spaces, e: Event)
    requires Coherent(s, sp) && GlobalsAgree(s.mem, sp) && !e.Translate? && Legal(s.mem, sp, e)
    ensures Coherent(Fenced(s, e), SpacesAfter(sp, e)) && GlobalsAgree(e.mem, SpacesAfter(sp, e))
  {
    match e
    case RewriteSpace(mem', asid) => FlushAsidRestores(s, mem', sp, asid);
    case RewritePage(mem', vpn, asid) => FlushPageRestores(s, mem', sp, vpn, asid);
    case RewriteAll(mem', sp') => FlushAllRestores(s.tlb, mem', sp');
  }

  /** Over every legal run the cached machine answers each translation as a plain walk of the tables
      last written by software would. */
  lemma {:induction false} RunsAgree(s: State, mem: Memory, sp: Spaces, run: seq<Event>)
    requires Coherent(s, sp) && GlobalsAgree(mem, sp) && EqualButAD(mem, s.mem) && LegalRun(mem, sp, run)
    ensures Cached(s, run) == Plain(mem, run)
    decreases |run|
  {
    if run != [] {
      var e := run[0];
      GlobalsAgreeAfterMarking(mem, s.mem, sp);
      if e.Translate? {
        StepRefinesReference(s, e.q, sp);
        StepOnlyMarks(s, e.q);
        ReferenceIgnoresAD(mem, s.mem, e.q);
        RunsAgree(Step(s, e.q).1, mem, sp, run[1..]);
      } else {
        RewriteLegalIgnoresAD(mem, s.mem, sp, e);
        FenceRestores(s, sp, e);
        RunsAgree(Fenced(s, e), e.mem, SpacesAfter(sp, e), run[1..]);
      }
    }
  }
}
