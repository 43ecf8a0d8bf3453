/**
  Properties of the translation engine: the invariant every call preserves,
  what each of the three translation stages does to the state and reports,
  and what a sequence of calls guarantees.
 */
module MemMgmtLemmas {
  import opened Ints
  import opened Wrappers
  import opened Counting
  import opened Address
  import opened Tlb
  import opened Frames
  import opened MemMgmt

  /** A lookup that finds no matching slot: no live entry names vpn. */
  lemma MissMeansNotCached(t: TlbState, vpn: nat)
    requires Tlb.Bounded(t) && Lookup(t, vpn).None?
    ensures !Cached(t, vpn)
  {
  }

  /**
    Installing a mapping (vpn, pfn) that the new page table holds, for a VPN
    the TLB does not cache, keeps the TLB coherent with the page table as
    long as no other slot of the page table changed.
   */
  lemma InsertKeepsCoherent(s: MemState, s': MemState, vpn: uint16, pfn: uint16)
    requires WellFormed(s) && TlbCoherent(s)
    requires !Cached(s.tlb, vpn)
    requires |s'.pageTable| == |s.pageTable| && vpn < |s.pageTable|
    requires pfn != Unmapped && s'.pageTable[vpn] == pfn
    requires forall v :: 0 <= v < |s.pageTable| && v != vpn ==> s'.pageTable[v] == s.pageTable[v]
    requires s'.tlb == Insert(s.tlb, vpn, pfn)
    ensures TlbCoherent(s')
  {
    var t, t' := s.tlb, s'.tlb;
    forall i | 0 <= i < t'.count
      ensures t'.entries[i].vpn < |s'.pageTable|
      ensures t'.entries[i].pfn != Unmapped
      ensures s'.pageTable[t'.entries[i].vpn] == t'.entries[i].pfn
    {
      if i != t.index {
        assert Matches(t.entries[i], t.entries[i].vpn);
        assert t.entries[i].vpn != vpn;
      }
    }
    forall i, j | 0 <= i < j < t'.count
      ensures t'.entries[i].vpn != t'.entries[j].vpn
    {
      if i == t.index {
        assert Matches(t.entries[j], t.entries[j].vpn);
      } else if j == t.index {
        assert Matches(t.entries[i], t.entries[i].vpn);
      }
    }
  }

  /** A page-table hit installs the mapping in the TLB and keeps the invariant. */
  lemma PageTableHitKeepsValid(s: MemState, va: uint64)
    requires Valid(s)
    requires Lookup(s.tlb, Vpn(s.cfg.vpnBits, va)).None? && s.pageTable[Vpn(s.cfg.vpnBits, va)] != Unmapped
    ensures Valid(Translate(s, va).state)
  {
    var vpn := Vpn(s.cfg.vpnBits, va);
    var s' := Translate(s, va).state;
    assert s' == s.(tlb := Insert(s.tlb, vpn, s.pageTable[vpn]));
    InsertKeepsCoherent(s, s', vpn, s.pageTable[vpn]);
  }

  /** Mapping an unmapped slot to frame n extends a page table backed by frames below n to one backed by frames below n + 1. */
  lemma MapNextFrame(pageTable: seq<uint16>, n: uint16, vpn: nat)
    requires MapsFramesBelow(pageTable, n) && n < Unmapped
    requires vpn < |pageTable| && pageTable[vpn] == Unmapped
    ensures MapsFramesBelow(pageTable[vpn := n], n + 1)
  {
    CountIfUpdate(pageTable, vpn, n, IsMapped);
  }

  /** Taking frame n from a table whose used frames are 0..n-1 leaves the used frames 0..n. */
  lemma TakeNextFrame(frames: seq<bool>, n: nat)
    requires UsedBelow(frames, n) && n < |frames|
    ensures FirstFree(frames) == Some(n)
    ensures UsedBelow(frames[n := false], n + 1)
    ensures CountFree(frames[n := false]) + 1 == CountFree(frames)
  {
    FirstFitAfterPrefix(frames, n);
    TakeLowersCount(frames, n);
  }

  /**
    The allocation stage, when a frame is free: the frame taken is the lowest
    free one, which is frame allocatedPages, and the state after it is the
    old one with that frame used, mapped at the VPN and installed in the TLB.
   */
  lemma AllocationStep(s: MemState, va: uint64)
    requires WellFormed(s) && FramesSound(s)
    requires Lookup(s.tlb, Vpn(s.cfg.vpnBits, va)).None? && s.pageTable[Vpn(s.cfg.vpnBits, va)] == Unmapped
    requires s.allocatedPages < s.cfg.totalFrames
    ensures FirstFree(s.freeFrames) == Some(s.allocatedPages as nat)
    ensures var vpn, f := Vpn(s.cfg.vpnBits, va), s.allocatedPages;
            (Translate(s, va).state
             == s.(freeFrames := s.freeFrames[f := false],
                   freeFrameCount := s.freeFrameCount - 1,
                   pageTable := s.pageTable[vpn := f],
                   tlb := Insert(s.tlb, vpn, f),
                   allocatedPages := f + 1))
  {
    var f := s.allocatedPages;
    TakeNextFrame(s.freeFrames, f);
    assert s.freeFrameCount >= 1;
    DivModUnique(s.freeFrameCount - 1, UINT16_LIMIT, 0, s.freeFrameCount - 1);
    DivModUnique(f + 1, UINT16_LIMIT, 0, f + 1);
  }

  /** The allocation stage, when a frame is free, keeps the invariant. */
  lemma AllocationKeepsValid(s: MemState, va: uint64)
    requires Valid(s)
    requires Lookup(s.tlb, Vpn(s.cfg.vpnBits, va)).None? && s.pageTable[Vpn(s.cfg.vpnBits, va)] == Unmapped
    requires s.allocatedPages < s.cfg.totalFrames
    ensures FirstFree(s.freeFrames) == Some(s.allocatedPages as nat)
    ensures Valid(Translate(s, va).state)
  {
    var vpn := Vpn(s.cfg.vpnBits, va);
    var f: uint16 := s.allocatedPages;
    AllocationStep(s, va);
    TakeNextFrame(s.freeFrames, f);
    MapNextFrame(s.pageTable, f, vpn);
    var s' := Translate(s, va).state;
    assert FramesSound(s');
    assert PageTableSound(s');
    MissMeansNotCached(s.tlb, vpn);
    InsertKeepsCoherent(s, s', vpn, f);
  }

  /** Every translation, whichever stage answers it and whether or not it fails, keeps the invariant. */
  lemma TranslateKeepsValid(s: MemState, va: uint64)
    requires Valid(s)
    ensures Valid(Translate(s, va).state)
  {
    var vpn := Vpn(s.cfg.vpnBits, va);
    if Lookup(s.tlb, vpn).None? {
      if s.pageTable[vpn] != Unmapped {
        PageTableHitKeepsValid(s, va);
      } else if s.allocatedPages < s.cfg.totalFrames {
        AllocationKeepsValid(s, va);
      } else {
        FirstFitAfterPrefix(s.freeFrames, s.allocatedPages);
      }
    }
  }

  /**
    A TLB hit changes nothing and reports the cached frame with the
    address's offset, tlb_hit set and new_frame clear. The cached frame is
    the page table's frame for the VPN.
   */
  lemma TlbHitIsPure(s: MemState, va: uint64)
    requires Valid(s) && Cached(s.tlb, Vpn(s.cfg.vpnBits, va))
    ensures Translate(s, va).state == s
    ensures Translate(s, va).outcome
         == Translated(TranslateResult(PhysicalFor(s.cfg, s.pageTable[Vpn(s.cfg.vpnBits, va)], va), true, false))
  {
  }

  /**
    Which stage answers: the TLB exactly when it caches the VPN, a new frame
    exactly when the VPN is unmapped and a frame is free, failure exactly
    when the VPN is unmapped and no frame is free; the return code is 1 in
    that last case and 0 otherwise.
   */
  lemma TranslateClassifies(s: MemState, va: uint64)
    requires Valid(s)
    ensures var step := Translate(s, va);
            var vpn := Vpn(s.cfg.vpnBits, va);
            && (step.outcome.OutOfFrames? <==> s.pageTable[vpn] == Unmapped && s.freeFrameCount == 0)
            && (step.outcome.Translated? ==>
                  && (step.outcome.result.tlbHit <==> Cached(s.tlb, vpn))
                  && (step.outcome.result.newFrame <==> s.pageTable[vpn] == Unmapped))
            && (ReturnCode(step.outcome) == 0 || ReturnCode(step.outcome) == 1)
            && (ReturnCode(step.outcome) == 1 <==> step.outcome.OutOfFrames?)
  {
    var vpn := Vpn(s.cfg.vpnBits, va);
    FirstFitAfterPrefix(s.freeFrames, s.allocatedPages);
    if Cached(s.tlb, vpn) {
      var i :| 0 <= i < s.tlb.count && Matches(s.tlb.entries[i], vpn);
      assert s.pageTable[vpn] != Unmapped;
    }
  }

  /**
    Exhaustion: when the VPN is unmapped and every frame is allocated, the
    call fails with return code 1 and the whole state is left as it was.
   */
  lemma ExhaustionChangesNothing(s: MemState, va: uint64)
    requires Valid(s)
    requires s.pageTable[Vpn(s.cfg.vpnBits, va)] == Unmapped && s.allocatedPages == s.cfg.totalFrames
    ensures Translate(s, va) == Step(s, OutOfFrames)
    ensures ReturnCode(Translate(s, va).outcome) == 1
  {
    TranslateClassifies(s, va);
  }

  /**
    Frame accounting: a new frame moves exactly one frame from the free
    count to the allocated count; any other outcome leaves the frame table,
    the page table and both counters unchanged.
   */
  lemma NewFrameAccounting(s: MemState, va: uint64)
    requires Valid(s)
    ensures var step := Translate(s, va);
            if step.outcome.Translated? && step.outcome.result.newFrame then
              && step.state.allocatedPages == s.allocatedPages + 1
              && step.state.freeFrameCount + 1 == s.freeFrameCount
            else
              && step.state.allocatedPages == s.allocatedPages
              && step.state.freeFrameCount == s.freeFrameCount
              && step.state.freeFrames == s.freeFrames
              && step.state.pageTable == s.pageTable
  {
    var vpn := Vpn(s.cfg.vpnBits, va);
    if Lookup(s.tlb, vpn).None? && s.pageTable[vpn] == Unmapped && s.allocatedPages < s.cfg.totalFrames {
      AllocationKeepsValid(s, va);
      TakeLowersCount(s.freeFrames, s.allocatedPages);
    }
  }

  /**
    First fit: a new frame is the lowest-numbered free frame, which is frame
    allocatedPages; it is marked used, written into the page slot of the VPN
    (which was unmapped), and the physical address is built from it.
   */
  lemma FirstFitAllocation(s: MemState, va: uint64)
    requires Valid(s)
    requires Translate(s, va).outcome.Translated? && Translate(s, va).outcome.result.newFrame
    ensures var f := s.allocatedPages;
            var vpn := Vpn(s.cfg.vpnBits, va);
            var step := Translate(s, va);
            && f < |s.freeFrames| && s.freeFrames[f]
            && (forall j :: 0 <= j < f ==> !s.freeFrames[j])
            && s.pageTable[vpn] == Unmapped
            && step.state.pageTable == s.pageTable[vpn := f]
            && step.state.freeFrames == s.freeFrames[f := false]
            && step.outcome.result.phyAddress == PhysicalFor(s.cfg, f, va)
  {
    TranslateClassifies(s, va);
    AllocationStep(s, va);
  }

  /**
    Mapped page-table slots never change, used frames stay used and the
    allocated count never decreases: no translation unmaps or reclaims.
    Only the slot of the translated page can change.
   */
  lemma TranslateIsMonotone(s: MemState, va: uint64)
    requires Valid(s)
    ensures var s' := Translate(s, va).state;
            && (forall v :: 0 <= v < |s.pageTable| && s.pageTable[v] != Unmapped ==> s'.pageTable[v] == s.pageTable[v])
            && (forall f :: 0 <= f < |s.freeFrames| && !s.freeFrames[f] ==> !s'.freeFrames[f])
            && s.allocatedPages <= s'.allocatedPages
            && (forall v :: 0 <= v < |s.pageTable| && v != Vpn(s.cfg.vpnBits, va) ==> s'.pageTable[v] == s.pageTable[v])
  {
    NewFrameAccounting(s, va);
    var vpn := Vpn(s.cfg.vpnBits, va);
    if Lookup(s.tlb, vpn).None? && s.pageTable[vpn] == Unmapped && s.allocatedPages < s.cfg.totalFrames {
      AllocationKeepsValid(s, va);
    }
  }

  /**
    A successful translation leaves the VPN mapped and cached, and the
    address it reports is the mapped frame with the address's offset.
   */
  lemma TranslateAgreesWithPageTable(s: MemState, va: uint64)
    requires Valid(s) && Translate(s, va).outcome.Translated?
    ensures var step := Translate(s, va);
            var vpn := Vpn(s.cfg.vpnBits, va);
            && step.state.pageTable[vpn] != Unmapped
            && Cached(step.state.tlb, vpn)
            && step.outcome.result.phyAddress == PhysicalFor(s.cfg, step.state.pageTable[vpn], va)
  {
    var vpn := Vpn(s.cfg.vpnBits, va);
    if Cached(s.tlb, vpn) {
      TlbHitIsPure(s, va);
    } else {
      TranslateClassifies(s, va);
      if s.pageTable[vpn] == Unmapped {
        FirstFitAllocation(s, va);
      }
    }
  }

  /**
    After a successful translation, any address on the same page is a TLB
    hit that changes nothing, reports no new frame, and carries the same
    frame-number field as the first translation.
   */
  lemma SamePageHitsAfterward(s: MemState, va: uint64, va2: uint64)
    requires Valid(s) && Translate(s, va).outcome.Translated?
    requires Vpn(s.cfg.vpnBits, va2) == Vpn(s.cfg.vpnBits, va)
    ensures var s' := Translate(s, va).state;
            var r := Translate(s, va).outcome.result;
            var step2 := Translate(s', va2);
            && step2.state == s'
            && step2.outcome.Translated?
            && step2.outcome.result.tlbHit && !step2.outcome.result.newFrame
            && FrameField(s.cfg.pfnBits, step2.outcome.result.phyAddress) == FrameField(s.cfg.pfnBits, r.phyAddress)
  {
    var s' := Translate(s, va).state;
    var vpn := Vpn(s.cfg.vpnBits, va);
    TranslateKeepsValid(s, va);
    TranslateAgreesWithPageTable(s, va);
    TlbHitIsPure(s', va2);
  }

  /**
    The status report gives the number of free flags in the frame table, the
    number of mapped page-table slots and the number of valid TLB slots, and
    the first two add up to the total number of frames.
   */
  lemma StatusReportsTables(s: MemState)
    requires Valid(s)
    ensures Status(s) == StatusResult(CountFree(s.freeFrames), CountMapped(s.pageTable), CountIf(s.tlb.entries, IsValid))
    ensures Status(s).freeFrameCount + Status(s).allocatedPageCount == s.cfg.totalFrames
    ensures Status(s).tlbEntriesCount <= s.cfg.tlbMaxSize
  {
    CountIsValidSlots(s.tlb);
  }

  /** Right after initialisation the status reports every frame free, nothing allocated and an empty TLB. */
  lemma StatusAfterSetup(cfg: Config)
    requires ConfigOk(cfg)
    ensures Status(Setup(cfg)) == StatusResult(cfg.totalFrames, 0, 0)
    ensures CountMapped(Setup(cfg).pageTable) == 0
  {
  }

  /** A session: the calls translate the addresses in order, each seeing the state the previous one left. */
  function Run(s: MemState, vas: seq<uint64>): (final: MemState)
    requires WellFormed(s)
    ensures WellFormed(final) && final.cfg == s.cfg
    decreases |vas|
  {
    if |vas| == 0 then s else Run(Translate(s, vas[0]).state, vas[1..])
  }

  /**
    Across a whole session the invariant holds, mapped slots keep their
    frames, used frames stay used and the allocated count never decreases.
   */
  lemma {:induction false} RunIsMonotone(s: MemState, vas: seq<uint64>)
    requires Valid(s)
    ensures var final := Run(s, vas);
            && Valid(final)
            && (forall v :: 0 <= v < |s.pageTable| && s.pageTable[v] != Unmapped ==> final.pageTable[v] == s.pageTable[v])
            && (forall f :: 0 <= f < |s.freeFrames| && !s.freeFrames[f] ==> !final.freeFrames[f])
            && s.allocatedPages <= final.allocatedPages
    decreases |vas|
  {
    if |vas| > 0 {
      TranslateKeepsValid(s, vas[0]);
      TranslateIsMonotone(s, vas[0]);
      RunIsMonotone(Translate(s, vas[0]).state, vas[1..]);
    }
  }

  /**
    Every translation that consults the page table pushes the page's mapping
    onto the TLB's FIFO queue, dropping the oldest entry when the TLB is
    full; a hit or a failure leaves the TLB as it was.
   */
  lemma TranslateUpdatesTlbQueue(s: MemState, va: uint64)
    requires Valid(s)
    ensures var step := Translate(s, va);
            var vpn := Vpn(s.cfg.vpnBits, va);
            if step.outcome.Translated? && !step.outcome.result.tlbHit then
              Queue(step.state.tlb)
              == (if s.tlb.count < s.cfg.tlbMaxSize then Queue(s.tlb) else Queue(s.tlb)[1..])
                 + [TlbEntry(vpn, step.state.pageTable[vpn], true)]
            else
              step.state.tlb == s.tlb
  {
    var vpn := Vpn(s.cfg.vpnBits, va);
    TranslateClassifies(s, va);
    if Lookup(s.tlb, vpn).None? {
      if s.pageTable[vpn] != Unmapped {
        InsertIsFifoPush(s.tlb, vpn, s.pageTable[vpn]);
      } else if s.allocatedPages < s.cfg.totalFrames {
        AllocationStep(s, va);
        InsertIsFifoPush(s.tlb, vpn, s.allocatedPages);
      }
    }
  }

  /**
    FIFO eviction in the engine: when the TLB is full and a translation
    misses it and succeeds, the page of the oldest TLB entry misses
    afterwards while the pages of all younger entries still hit.
   */
  lemma TranslateEvictsOldest(s: MemState, va: uint64)
    requires Valid(s) && s.tlb.count == s.cfg.tlbMaxSize
    requires !Cached(s.tlb, Vpn(s.cfg.vpnBits, va)) && Translate(s, va).outcome.Translated?
    ensures !Cached(Translate(s, va).state.tlb, Queue(s.tlb)[0].vpn)
    ensures forall k :: 1 <= k < |Queue(s.tlb)| ==> Cached(Translate(s, va).state.tlb, Queue(s.tlb)[k].vpn)
  {
    var vpn := Vpn(s.cfg.vpnBits, va);
    TranslateClassifies(s, va);
    if s.pageTable[vpn] != Unmapped {
      FifoEviction(s.tlb, vpn, s.pageTable[vpn]);
    } else {
      AllocationStep(s, va);
      FifoEviction(s.tlb, vpn, s.allocatedPages);
    }
  }

  /**
    A translation that takes a new frame missed the TLB, so it installs one
    more entry: the live count grows by one until the TLB is full.
   */
  lemma NewFrameGrowsTlb(s: MemState, va: uint64)
    requires Valid(s)
    requires s.pageTable[Vpn(s.cfg.vpnBits, va)] == Unmapped && s.allocatedPages < s.cfg.totalFrames
    ensures Translate(s, va).state.tlb.count == Min(s.tlb.count + 1, s.cfg.tlbMaxSize)
  {
    var vpn := Vpn(s.cfg.vpnBits, va);
    TranslateClassifies(s, va);
    assert !Cached(s.tlb, vpn);
    AllocationStep(s, va);
  }

  /** The addresses lie on pairwise distinct pages. */
  predicate DistinctPages(cfg: Config, vas: seq<uint64>)
    requires ConfigOk(cfg)
  {
    forall i, j :: 0 <= i < j < |vas| ==> Vpn(cfg.vpnBits, vas[i]) != Vpn(cfg.vpnBits, vas[j])
  }

  /** Page v is none of the pages of vas. */
  predicate OffThePages(cfg: Config, v: nat, vas: seq<uint64>)
    requires ConfigOk(cfg)
  {
    forall i :: 0 <= i < |vas| ==> v != Vpn(cfg.vpnBits, vas[i])
  }

  /**
    Translating addresses on distinct, still unmapped pages, while enough
    frames are free, takes one new frame per address: the allocated count
    grows and the free count shrinks by the number of addresses, each of them
    adds a TLB entry until the TLB is full, every one of
    those pages ends up mapped, and no other page-table slot changes.
   */
  lemma {:induction false} DistinctPagesTakeFrames(s: MemState, vas: seq<uint64>)
    requires Valid(s) && DistinctPages(s.cfg, vas)
    requires forall i :: 0 <= i < |vas| ==> s.pageTable[Vpn(s.cfg.vpnBits, vas[i])] == Unmapped
    requires |vas| <= s.freeFrameCount
    ensures var final := Run(s, vas);
            && final.allocatedPages == s.allocatedPages + |vas|
            && final.freeFrameCount == s.freeFrameCount - |vas|
            && final.tlb.count == Min(s.tlb.count + |vas|, s.cfg.tlbMaxSize)
            && (forall i :: 0 <= i < |vas| ==> final.pageTable[Vpn(s.cfg.vpnBits, vas[i])] != Unmapped)
            && (forall v :: 0 <= v < |s.pageTable| && OffThePages(s.cfg, v, vas) ==> final.pageTable[v] == s.pageTable[v])
    decreases |vas|
  {
    if |vas| > 0 {
      var va := vas[0];
      var s' := Translate(s, va).state;
      var rest := vas[1..];
      TranslateClassifies(s, va);
      NewFrameAccounting(s, va);
      TranslateKeepsValid(s, va);
      TranslateIsMonotone(s, va);
      TranslateAgreesWithPageTable(s, va);
      NewFrameGrowsTlb(s, va);
      assert DistinctPages(s'.cfg, rest) by {
        forall i, j | 0 <= i < j < |rest|
          ensures Vpn(s.cfg.vpnBits, rest[i]) != Vpn(s.cfg.vpnBits, rest[j])
        {
          assert rest[i] == vas[i + 1] && rest[j] == vas[j + 1];
        }
      }
      forall i | 0 <= i < |rest|
        ensures s'.pageTable[Vpn(s'.cfg.vpnBits, rest[i])] == Unmapped
      {
        assert rest[i] == vas[i + 1];
      }
      DistinctPagesTakeFrames(s', rest);
      RunIsMonotone(s', rest);
      forall i | 0 <= i < |vas|
        ensures Run(s, vas).pageTable[Vpn(s.cfg.vpnBits, vas[i])] != Unmapped
      {
        if i > 0 {
          assert vas[i] == rest[i - 1];
        }
      }
      forall v | 0 <= v < |s.pageTable| && OffThePages(s.cfg, v, vas)
        ensures Run(s, vas).pageTable[v] == s.pageTable[v]
      {
        assert v != Vpn(s.cfg.vpnBits, vas[0]);
        assert OffThePages(s'.cfg, v, rest) by {
          forall i | 0 <= i < |rest|
            ensures v != Vpn(s'.cfg.vpnBits, rest[i])
          {
            assert rest[i] == vas[i + 1];
          }
        }
      }
    }
  }

  /**
    From initialisation, translating one address on each of totalFrames
    distinct pages allocates every frame, the status then reports no free
    frame, totalFrames allocated pages and a TLB holding as many entries as
    it can (one per page, up to its capacity), and translating an address on
    any further page fails with the state unchanged.
   */
  lemma FillThenExhaust(cfg: Config, vas: seq<uint64>, va: uint64)
    requires ConfigOk(cfg) && DistinctPages(cfg, vas) && |vas| == cfg.totalFrames
    requires OffThePages(cfg, Vpn(cfg.vpnBits, va), vas)
    ensures var final := Run(Setup(cfg), vas);
            && Status(final).freeFrameCount == 0
            && Status(final).allocatedPageCount == cfg.totalFrames
            && Status(final).tlbEntriesCount == Min(cfg.totalFrames, cfg.tlbMaxSize)
            && Translate(final, va) == Step(final, OutOfFrames)
  {
    var s := Setup(cfg);
    DistinctPagesTakeFrames(s, vas);
    var final := Run(s, vas);
    RunIsMonotone(s, vas);
        ExhaustionChangesNothing(final, va);
  }
}
