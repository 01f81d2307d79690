/** The direct-mapped TLB: 64 entries, one slot per page number modulo 64. */
module Tlb {
  import opened Basics
  import opened PageTable

  const SIZE: nat := 64

  type Asid = x: int | 0 <= x < 0x1_0000

  datatype Entry = Entry(vpn: nat, ppn: nat, asid: Asid, rights: Rights, a: bool, d: bool, level: nat, valid: bool)

  const EMPTY: Entry := Entry(0, 0, 0, Rights(false, false, false, false, false), false, false, 0, false)

  /** A lookup hits a valid entry of the page that is global or of the current address space. */
  predicate Hit(e: Entry, vpn: nat, asid: Asid) {
    e.valid && e.vpn == vpn && (e.rights.g || e.asid == asid)
  }

  function Dropped(e: Entry, drop: bool): Entry { e.(valid := e.valid && !drop) }

  function FlushedAll(s: seq<Entry>): seq<Entry> {
    seq(|s|, i requires 0 <= i < |s| => Dropped(s[i], true))
  }

  function FlushedAsid(s: seq<Entry>, asid: Asid): seq<Entry> {
    seq(|s|, i requires 0 <= i < |s| => Dropped(s[i], !s[i].rights.g && s[i].asid == asid))
  }

  function FlushedPage(s: seq<Entry>, vpn: nat, asid: Asid): seq<Entry>
    requires |s| == SIZE
  {
    s[vpn % SIZE := Dropped(s[vpn % SIZE], Hit(s[vpn % SIZE], vpn, asid))]
  }

  function FlushedVa(s: seq<Entry>, va: U64): seq<Entry>
    requires |s| == SIZE
  {
    var vpn := va / 4096;
    s[vpn % SIZE := Dropped(s[vpn % SIZE], s[vpn % SIZE].vpn == vpn)]
  }

  /** Every valid entry sits in the slot its page number selects. */
  ghost predicate InPlace(s: seq<Entry>) {
    forall i | 0 <= i < |s| :: s[i].valid ==> s[i].vpn % SIZE == i
  }

  /** A page flush leaves no hit for that page and address space, and every other hit untouched. */
  lemma FlushedPageIsExact(s: seq<Entry>, vpn: nat, asid: Asid, i: nat, q: nat, b: Asid)
    requires |s| == SIZE && InPlace(s) && i < SIZE
    ensures !Hit(FlushedPage(s, vpn, asid)[i], vpn, asid)
    ensures q != vpn ==> Hit(FlushedPage(s, vpn, asid)[i], q, b) == Hit(s[i], q, b)
    ensures b != asid && !s[i].rights.g ==> Hit(FlushedPage(s, vpn, asid)[i], q, b) == Hit(s[i], q, b)
  {
    assert s[i].valid && s[i].vpn == vpn ==> i == vpn % SIZE;
  }

  class TlbCache {
    var entries: array<Entry>

    ghost predicate Valid() reads this { entries.Length == SIZE }

    constructor ()
      ensures Valid() && fresh(entries)
      ensures forall i | 0 <= i < SIZE :: entries[i] == EMPTY
    {
      entries := new Entry[SIZE](_ => EMPTY);
    }

    method Lookup(vpn: nat, asid: Asid) returns (found: bool, e: Entry)
      requires Valid()
      ensures found == Hit(entries[vpn % SIZE], vpn, asid)
      ensures found ==> e == entries[vpn % SIZE]
    {
      e := entries[vpn % SIZE];
      found := e.valid && e.vpn == vpn && (e.rights.g || e.asid == asid);
    }

    method Insert(e: Entry)
      requires Valid()
      modifies entries
      ensures entries[..] == old(entries[..])[e.vpn % SIZE := e]
      ensures old(InPlace(entries[..])) ==> InPlace(entries[..])
    {
      entries[e.vpn % SIZE] := e;
    }

    method Flush()
      requires Valid()
      modifies entries
      ensures entries[..] == FlushedAll(old(entries[..]))
    {
      for i := 0 to SIZE
        invariant forall k | 0 <= k < SIZE :: entries[k] == Dropped(old(entries[k]), k < i)
      {
        entries[i] := entries[i].(valid := false);
      }
    }

    method FlushAsid(asid: U64)
      requires Valid()
      modifies entries
      ensures entries[..] == FlushedAsid(old(entries[..]), asid % 0x1_0000)
    {
      var asid16 := asid % 0x1_0000;
      for i := 0 to SIZE
        invariant forall k | 0 <= k < SIZE ::
                    entries[k] == Dropped(old(entries[k]),
                                          k < i && !old(entries[k]).rights.g && old(entries[k]).asid == asid16)
      {
        if !entries[i].rights.g && entries[i].asid == asid16 {
          entries[i] := entries[i].(valid := false);
        }
      }
    }

    method FlushVa(va: U64)
      requires Valid()
      modifies entries
      ensures entries[..] == FlushedVa(old(entries[..]), va)
    {
      var vpn := va / 4096;
      if entries[vpn % SIZE].vpn == vpn {
        entries[vpn % SIZE] := entries[vpn % SIZE].(valid := false);
      }
    }

    method FlushPage(vpn: nat, asid: U64)
      requires Valid()
      modifies entries
      ensures entries[..] == FlushedPage(old(entries[..]), vpn, asid % 0x1_0000)
    {
      var e := entries[vpn % SIZE];
      if e.valid && e.vpn == vpn {
        if e.rights.g || e.asid == asid % 0x1_0000 {
          entries[vpn % SIZE] := e.(valid := false);
        }
      }
    }
  }
}
