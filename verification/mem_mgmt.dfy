/**
  The translation engine: configuration, the engine state (TLB, page table,
  frame table and counters), initialisation, address translation and the
  status report.

  The engine state is one immutable record; each operation is a function
  from the state before the call to the state after it, together with the
  result the call reports.
 */
module MemMgmt {
  import opened Ints
  import opened Wrappers
  import opened Counting
  import opened Address
  import opened Tlb
  import opened Frames

  /** The page-table value of a VPN that has no frame yet (a 16-bit all-ones slot). */
  const Unmapped: uint16 := 0xFFFF

  /** Parameters fixed at initialisation. */
  datatype Config = Config(tlbMaxSize: uint8, totalFrames: uint16, pfnBits: uint8, vpnBits: uint8)

  /**
    The parameter ranges under which translation is defined: a TLB of at
    least one slot (the FIFO index is advanced modulo its size), a VPN of 1
    to 16 bits (it is stored in 16 bits and the page table has 2^vpnBits
    slots), and a frame-number width of 1 to 64 bits.
   */
  predicate ConfigOk(c: Config)
  {
    && 1 <= c.tlbMaxSize
    && 1 <= c.pfnBits <= 64
    && 1 <= c.vpnBits <= 16
  }

  datatype MemState = MemState(
    cfg: Config,
    tlb: TlbState,
    pageTable: seq<uint16>,
    freeFrames: seq<bool>,
    freeFrameCount: uint16,
    allocatedPages: uint16)

  /** What a successful translation reports. */
  datatype TranslateResult = TranslateResult(phyAddress: uint64, tlbHit: bool, newFrame: bool)

  /** A translation either succeeds or fails because no frame is free. */
  datatype Outcome = Translated(result: TranslateResult) | OutOfFrames

  /** The state after a call and what the call reported. */
  datatype Step = Step(state: MemState, outcome: Outcome)

  /** The three counters the status call reports. */
  datatype StatusResult = StatusResult(freeFrameCount: uint16, allocatedPageCount: uint16, tlbEntriesCount: uint16)

  /** Table sizes agree with the configuration: what translation needs to stay in bounds. */
  predicate WellFormed(s: MemState)
  {
    && ConfigOk(s.cfg)
    && Tlb.Bounded(s.tlb)
    && |s.tlb.entries| == s.cfg.tlbMaxSize
    && |s.pageTable| == Pow2(s.cfg.vpnBits)
    && |s.freeFrames| == s.cfg.totalFrames
  }

  predicate IsMapped(slot: uint16)
  {
    slot != Unmapped
  }

  /** Number of page-table slots that hold a frame. */
  function CountMapped(pageTable: seq<uint16>): nat
  {
    CountIf(pageTable, IsMapped)
  }

  /**
    Every live TLB entry caches the page table's own mapping, and no two
    live entries are for the same VPN.
   */
  predicate TlbCoherent(s: MemState)
  {
    && FifoShape(s.tlb)
    && (forall i :: 0 <= i < s.tlb.count ==>
          && s.tlb.entries[i].vpn < |s.pageTable|
          && s.tlb.entries[i].pfn != Unmapped
          && s.pageTable[s.tlb.entries[i].vpn] == s.tlb.entries[i].pfn)
    && (forall i, j :: 0 <= i < j < s.tlb.count ==> s.tlb.entries[i].vpn != s.tlb.entries[j].vpn)
  }

  /**
    A page table backed by frames 0..n-1: mapped slots hold frames below n,
    no frame backs two pages, and exactly n slots are mapped.
   */
  predicate MapsFramesBelow(pageTable: seq<uint16>, n: nat)
  {
    && (forall v :: 0 <= v < |pageTable| && pageTable[v] != Unmapped ==> pageTable[v] < n)
    && (forall v, w :: 0 <= v < |pageTable| && 0 <= w < |pageTable| && v != w && pageTable[v] != Unmapped ==>
          pageTable[v] != pageTable[w])
    && CountMapped(pageTable) == n
  }

  /** Mapped slots hold allocated frames, no frame backs two pages, one page per allocated frame. */
  predicate PageTableSound(s: MemState)
  {
    MapsFramesBelow(s.pageTable, s.allocatedPages)
  }

  /** A frame table whose used frames are exactly 0..n-1 (first fit, never freed). */
  predicate UsedBelow(frames: seq<bool>, n: nat)
  {
    && n <= |frames|
    && forall f :: 0 <= f < |frames| ==> (frames[f] <==> f >= n)
  }

  /**
    The used frames are exactly the first allocatedPages ones, the free
    counter counts the free flags, and free plus allocated is the total.
   */
  predicate FramesSound(s: MemState)
  {
    && UsedBelow(s.freeFrames, s.allocatedPages)
    && s.freeFrameCount == CountFree(s.freeFrames)
    && s.freeFrameCount + s.allocatedPages == s.cfg.totalFrames
  }

  /** The invariant of every state the engine can reach from initialisation. */
  predicate Valid(s: MemState)
  {
    && WellFormed(s)
    && TlbCoherent(s)
    && PageTableSound(s)
    && FramesSound(s)
  }

  /**
    Initialisation: an empty TLB, a page table of 2^vpnBits unmapped slots,
    every frame free, all frames counted free and none allocated.
   */
  function Setup(cfg: Config): (s: MemState)
    requires ConfigOk(cfg)
    ensures Valid(s) && s.cfg == cfg
    ensures forall v :: 0 <= v < |s.pageTable| ==> s.pageTable[v] == Unmapped
    ensures forall f :: 0 <= f < |s.freeFrames| ==> s.freeFrames[f]
    ensures s.freeFrameCount == cfg.totalFrames && s.allocatedPages == 0
    ensures s.tlb.count == 0 && s.tlb.index == 0
  {
    var pageTable: seq<uint16> := seq(Pow2(cfg.vpnBits), _ => Unmapped);
    var freeFrames := seq(cfg.totalFrames, _ => true);
    CountIfPrefix(pageTable, IsMapped, 0);
    FirstFitAfterPrefix(freeFrames, 0);
    MemState(cfg, Empty(cfg.tlbMaxSize), pageTable, freeFrames, cfg.totalFrames, 0)
  }

  /** The physical address of the given frame with the offset taken from va. */
  function PhysicalFor(cfg: Config, pfn: nat, va: uint64): uint64
    requires ConfigOk(cfg)
  {
    PhysicalAddress(cfg.pfnBits, pfn, Offset(cfg.pfnBits, va))
  }

  /**
    Translation of one virtual address, in three stages: a TLB hit answers
    from the cache and changes nothing; otherwise a mapped page-table slot
    answers and is installed in the TLB; otherwise the lowest free frame is
    taken, mapped and installed in the TLB, or the call fails with nothing
    changed when no frame is free. The 16-bit counters are updated with
    16-bit wrap-around.
   */
  function Translate(s: MemState, va: uint64): (step: Step)
    requires WellFormed(s)
    ensures WellFormed(step.state) && step.state.cfg == s.cfg
    ensures step.outcome.OutOfFrames? ==> step.state == s
    ensures step.outcome.Translated? ==> !(step.outcome.result.tlbHit && step.outcome.result.newFrame)
  {
    var vpn := Vpn(s.cfg.vpnBits, va);
    match Lookup(s.tlb, vpn)
    case Some(i) =>
      Step(s, Translated(TranslateResult(PhysicalFor(s.cfg, s.tlb.entries[i].pfn, va), true, false)))
    case None =>
      if s.pageTable[vpn] != Unmapped then
        var pfn := s.pageTable[vpn];
        Step(s.(tlb := Insert(s.tlb, vpn, pfn)),
             Translated(TranslateResult(PhysicalFor(s.cfg, pfn, va), false, false)))
      else
        match FirstFree(s.freeFrames)
        case None => Step(s, OutOfFrames)
        case Some(frame) =>
          var pfn: uint16 := frame;
          var s' := s.(freeFrames := s.freeFrames[frame := false],
                       freeFrameCount := (s.freeFrameCount - 1) % UINT16_LIMIT,
                       pageTable := s.pageTable[vpn := pfn],
                       tlb := Insert(s.tlb, vpn, pfn),
                       allocatedPages := (s.allocatedPages + 1) % UINT16_LIMIT);
          Step(s', Translated(TranslateResult(PhysicalFor(s.cfg, pfn, va), false, true)))
  }

  /** The integer a translation returns to its caller: 0 on success, 1 when out of frames. */
  function ReturnCode(o: Outcome): int
  {
    match o
    case Translated(_) => 0
    case OutOfFrames => 1
  }

  /** The status report: a read of the three counters. */
  function Status(s: MemState): StatusResult
  {
    StatusResult(s.freeFrameCount, s.allocatedPages, s.tlb.count)
  }
}
