# MMU translation engine: a Dafny model

This project models the address-translation engine of a small
memory-management-unit simulator. The engine keeps a translation lookaside
buffer (TLB) with FIFO replacement, a page table indexed by virtual page
number (VPN), a table of free/used flags over the physical frames, and four
counters. It offers three operations. `setup` builds the tables. `translate`
maps a 64-bit virtual address to a physical address: TLB first, then the
page table, then first-fit allocation of a new frame. `status` reads the
counters.

The engine state is one immutable record, `MemMgmt.MemState`. Each call is a
pure function from the state before it to the state after it plus the result
it reports. The C globals map onto the record like this:

- `TLB`, `tlbIndex` and `tlbEntriesCount` become `Tlb.TlbState`. `tlbMaxSize`
  is the length of its entry sequence.
- `pageTable`, `freeFrames`, `freeFrameCount` and `allocatedPages` become
  fields of `MemState`.
- `tlbMaxSize`, `totalFrames`, `pfnBits` and `vpnBits` become `MemMgmt.Config`.

Integer widths follow the C declarations (`uint8`, `uint16`, `uint64` subset
types). The two 16-bit counters that `translate` changes are updated with
explicit 16-bit wrap-around. The invariant `MemMgmt.Valid` shows that this
wrap never happens in a reachable state. The page table keeps the 16-bit
all-ones value `0xFFFF` as its "unmapped" marker, as the code does. It cannot
collide with a real frame, because every frame number is below
`totalFrames <= 65535`.

Addresses are natural numbers below 2^64:

- The VPN is the address divided by 2^(64 - vpnBits), masked to vpnBits
  bits: the top vpnBits bits.
- The offset is the address modulo 2^(64 - pfnBits).
- The physical address is (pfn * 2^(64 - pfnBits)) mod 2^64 plus the
  offset.

The C code combines the shifted frame number and the offset with a bitwise
or. Addition is the same thing here, because the shifted value has zero low
bits and the offset fits below them. The contract of `Address.PhysicalAddress`
states exactly this: splitting the result again gives back the frame number
(mod 2^pfnBits) and the offset. The widths of the VPN field and the offset
field are configured separately, so the two fields may overlap or leave a gap
of ignored bits. The model keeps that layout unchanged.

Modules: `Ints` (widths, powers of two, division facts), `Wrappers`
(`Option`), `Counting` (counting table slots), `Address`, `Tlb`, `Frames`,
`MemMgmt` (the engine) and `MemMgmtLemmas` (properties of the engine).

## Model

| member | source | states |
|---|---|---|
| `MemMgmt.Setup` | mem_mgmt.c:28-68 | The initial state satisfies the engine invariant. Every page-table slot is unmapped and every frame is free. The free count is the total, the allocated count 0, and the TLB count and FIFO index are 0. |
| `MemMgmtLemmas.StatusAfterSetup` | mem_mgmt.c:61-65 | Right after setup, status reports (totalFrames, 0, 0) and no page is mapped. |
| `Address.Vpn` | mem_mgmt.c:72 | The VPN is below 2^vpnBits (so it indexes the page table) and is the top vpnBits bits of the address: the address lies in page [vpn * 2^(64-vpnBits), (vpn+1) * 2^(64-vpnBits)). |
| `Address.Offset` | mem_mgmt.c:74 | The offset is below 2^(64-pfnBits) and differs from the address by a multiple of 2^(64-pfnBits): it is the low 64-pfnBits bits. |
| `Address.PhysicalAddress` | mem_mgmt.c:89 | The assembled 64-bit physical address splits back into frame field = pfn mod 2^pfnBits (bits shifted past bit 63 are lost) and offset field = the offset. |
| `Tlb.FindFrom` | mem_mgmt.c:79-85 | The scan result is the first live slot that holds a valid entry for the VPN; "none" means no live slot matches. |
| `Tlb.Scan` | mem_mgmt.c:78-85 | The probe loop reports a hit exactly when some live slot holds a valid entry for the VPN, and then returns the frame of the first such slot. |
| `Tlb.Empty` | mem_mgmt.c:36 | A zero-filled TLB has the FIFO shape, no valid slot, and index and count 0. |
| `Tlb.Insert` | mem_mgmt.c:100-106 | FIFO insertion advances the index modulo the capacity and raises the count by one up to the capacity. It preserves the FIFO shape: while not full, index == count and exactly slots [0, count) are valid. Afterwards the inserted VPN hits. Every live slot other than the old index is an unchanged old live slot. |
| `Tlb.InsertIsFifoPush` | mem_mgmt.c:100-106 | Insertion is a push onto a bounded FIFO queue of live entries (oldest first). When the TLB is full, the oldest entry drops out. |
| `Tlb.QueueIsLive` | mem_mgmt.c:79-85 | The queue view holds exactly the live entries, all valid. A VPN hits exactly when it appears in the queue. |
| `Tlb.FifoEviction` | mem_mgmt.c:135-141 | When a full TLB of distinct VPNs receives a VPN that misses, the oldest VPN misses afterwards and every younger VPN still hits. |
| `Tlb.CountIsValidSlots` | mem_mgmt.c:104-106 | The live-entry counter equals the number of valid slots. |
| `Frames.FirstFreeFrom` | mem_mgmt.c:116-124 | First fit: the chosen frame is free and every lower frame is used; "none" means no frame is free. |
| `Frames.FindFreeFrame` | mem_mgmt.c:115-129 | The allocation loop answers -1 exactly when no frame is free, and otherwise the first-fit frame. |
| `Frames.TakeLowersCount` | mem_mgmt.c:118-121 | Marking a free frame used lowers the number of free flags by exactly one. |
| `Frames.FirstFitAfterPrefix` | mem_mgmt.c:116-124 | When the used frames are exactly 0..n-1, first fit picks frame n (or none when n is the total) and |frames| - n frames are free. |
| `MemMgmt.Translate` | mem_mgmt.c:70-150 | Translation keeps the tables sized to the configuration and never changes the configuration. A failed call changes nothing. A result never reports both a TLB hit and a new frame. |
| `MemMgmtLemmas.InsertKeepsCoherent` | mem_mgmt.c:96-106 | Installing a mapping that the page table holds, for a VPN the TLB does not cache, keeps every live TLB entry equal to the page table's mapping, with distinct VPNs. |
| `MemMgmtLemmas.PageTableHitKeepsValid` | mem_mgmt.c:95-112 | The page-table stage keeps the engine invariant. |
| `MemMgmtLemmas.MapNextFrame` | mem_mgmt.c:131-133 | Writing frame n into an unmapped slot keeps the page table injective, backed by frames below n+1, with one more mapped slot. |
| `MemMgmtLemmas.TakeNextFrame` | mem_mgmt.c:116-124 | When frames 0..n-1 are used, first fit takes frame n; afterwards frames 0..n are used and the free flags number one fewer. |
| `MemMgmtLemmas.AllocationStep` | mem_mgmt.c:114-149 | When a frame is free, the allocation stage takes frame allocatedPages, marks it used, decrements the free count, maps the VPN to it, installs it in the TLB and increments the allocated count. |
| `MemMgmtLemmas.AllocationKeepsValid` | mem_mgmt.c:114-149 | The allocation stage keeps the engine invariant. |
| `MemMgmtLemmas.TranslateKeepsValid` | mem_mgmt.c:70-150 | Every translation keeps the invariant. It covers the TLB shape, TLB/page-table coherence with distinct live VPNs, injective mappings backed by frames 0..allocatedPages-1, the free count equal to the number of free flags, and free + allocated == total. |
| `MemMgmtLemmas.TlbHitIsPure` | mem_mgmt.c:79-93 | On a TLB hit the state is unchanged. The result is the page table's frame with the address's offset, tlb_hit true and new_frame false. |
| `MemMgmtLemmas.TranslateClassifies` | mem_mgmt.h:40 | Failure happens exactly when the VPN is unmapped and no frame is free. tlb_hit holds exactly when the TLB caches the VPN, and new_frame exactly when the VPN was unmapped. The return code is 0 or 1, and 1 exactly on failure. |
| `MemMgmtLemmas.ExhaustionChangesNothing` | mem_mgmt.c:116-129 | With the VPN unmapped and every frame allocated, the call returns 1 and leaves the whole state unchanged. |
| `MemMgmtLemmas.NewFrameAccounting` | mem_mgmt.c:118-147 | new_frame moves exactly one frame from the free count to the allocated count. Any other outcome leaves both counters, the frame table and the page table unchanged. |
| `MemMgmtLemmas.FirstFitAllocation` | mem_mgmt.c:115-133 | A new frame is the lowest free frame, which is frame allocatedPages. It goes into the VPN's previously unmapped slot and is marked used, and the physical address is built from it. |
| `MemMgmtLemmas.TranslateIsMonotone` | mem_mgmt.c:96-133 | Mapped slots keep their frame, used frames stay used, the allocated count never decreases, and only the translated page's slot can change. |
| `MemMgmtLemmas.TranslateAgreesWithPageTable` | mem_mgmt.c:87-149 | After a successful call the VPN is mapped and cached. The reported address is its mapped frame with the address's offset. |
| `MemMgmtLemmas.SamePageHitsAfterward` | mem_mgmt.c:100-106 | After a successful translation, any address on the same page is a TLB hit. It changes nothing, reports no new frame and has the same frame field. |
| `MemMgmtLemmas.StatusReportsTables` | mem_mgmt.c:152-157 | Status reports the number of free flags, the number of mapped slots and the number of valid TLB slots. Free + allocated is the total, and the TLB count is at most its capacity. |
| `MemMgmtLemmas.Run` | mem_mgmt.c:70-150 | A session of translations keeps the tables sized to the configuration. |
| `MemMgmtLemmas.RunIsMonotone` | mem_mgmt.c:116-133 | Across a whole session the invariant holds, mappings never change, used frames stay used and the allocated count never decreases. |
| `MemMgmtLemmas.TranslateUpdatesTlbQueue` | mem_mgmt.c:100-106 | A successful TLB miss pushes (vpn, frame) onto the FIFO queue, dropping the oldest entry when the TLB is full. A hit or a failure leaves the TLB unchanged. |
| `MemMgmtLemmas.TranslateEvictsOldest` | mem_mgmt.c:135-141 | With a full TLB, a successful miss evicts the oldest page: it misses afterwards while all younger pages still hit. |
| `MemMgmtLemmas.NewFrameGrowsTlb` | mem_mgmt.c:100-106 | A translation that takes a new frame adds one live TLB entry: the count becomes min(count + 1, tlbMaxSize). |
| `MemMgmtLemmas.DistinctPagesTakeFrames` | mem_mgmt.c:100-149 | Translating addresses on distinct unmapped pages, with enough free frames, takes one new frame per address and adds one TLB entry per address up to the capacity. All those pages end up mapped and no other slot changes. |
| `MemMgmtLemmas.FillThenExhaust` | simulator.c:106-115 | From setup, one address on each of totalFrames distinct pages allocates every frame, and status then reports (0, totalFrames, min(totalFrames, tlbMaxSize)), which is (0, PHYSICAL_FRAMES, TLB_MAX_SIZE) for the harness's sizes. Any further page fails and changes nothing. |

## Left out

- Heap management: the allocation-failure paths of `setup` (mem_mgmt.c:38, 42-45, 51-55) and `teardown` (mem_mgmt.c:159-164) are not modelled. `MemMgmt.Setup` is total and there is nothing to release in an immutable state.
- `MemMgmt.ConfigOk` requires `tlbMaxSize >= 1`, although the header documents 0-255. With 0 slots, mem_mgmt.c:100 writes out of bounds and mem_mgmt.c:103 divides by zero.
- `MemMgmt.ConfigOk` requires `1 <= vpnBits <= 16` and `1 <= pfnBits <= 64`, ranges the code does not check. vpnBits 0 or pfnBits 0 would shift a 64-bit value by 64 (undefined behaviour). A VPN wider than 16 bits would not fit the `uint16_t` VPN and its page-table index.
- `Address.Offset`: the C mask `(1 << (64 - pfnBits)) - 1` at mem_mgmt.c:74 shifts an `int`, which is undefined behaviour once 64 - pfnBits >= 31. The model uses the evidently intended mask 2^(64-pfnBits) - 1 for every width.
- `MemMgmt.Config` allows `totalFrames` up to 65535, the range of its `uint16_t` type. The header documents 0-16k.
- `MemMgmt.Status` and `MemMgmt.ReturnCode` carry no contract of their own. They are specified through `MemMgmtLemmas.StatusReportsTables` and `MemMgmtLemmas.TranslateClassifies`.
- A failed translation reports no result record. The C code leaves the caller's record untouched in that case.
- The address-specific expectations of the simulator.c harness are not modelled. With vpnBits = 8, the VPN is the top 8 bits of the address. The fourteen addresses of its `virt_addrs` table (simulator.c:48-53) all have a zero top byte, so every one of them has VPN 0 under this code; only its exhaustion address `0xFFFFFFFFFFFFFFFF` (simulator.c:114) lies on another page, VPN 255. Only its address-independent expectations are stated: hit after a first translation, and exhaustion leaving the status unchanged.
- Printing, assertions and the process lifecycle of the harness are not modelled.
