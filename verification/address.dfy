/**
  Address decomposition and physical-address assembly.

  A 64-bit virtual address carries its virtual page number (VPN) in its top
  vpnBits bits and its offset in its bottom 64 - pfnBits bits. The two widths
  are configured independently, so the fields may leave a gap of ignored bits
  between them or overlap; the arithmetic below keeps that layout as it is.
  A physical address carries the frame number shifted up by 64 - pfnBits
  bits, with the offset in the bits below.
 */
module Address {
  import opened Ints

  /** Width of the offset field, for both virtual and physical addresses. */
  function OffsetBits(pfnBits: nat): nat
    requires pfnBits <= 64
  {
    64 - pfnBits
  }

  /**
    The VPN: the address shifted right by 64 - vpnBits and masked to vpnBits
    bits. The result is exactly the top vpnBits bits: the unique q below
    2^vpnBits whose page [q * 2^(64-vpnBits), (q+1) * 2^(64-vpnBits)) holds va.
   */
  function Vpn(vpnBits: nat, va: uint64): (vpn: uint16)
    requires 1 <= vpnBits <= 16
    ensures vpn < Pow2(vpnBits)
    ensures vpn * Pow2(64 - vpnBits) <= va < vpn * Pow2(64 - vpnBits) + Pow2(64 - vpnBits)
  {
    var page := Pow2(64 - vpnBits);
    VpnFacts(vpnBits, va);
    (va / page) % Pow2(vpnBits)
  }

  lemma VpnFacts(vpnBits: nat, va: uint64)
    requires 1 <= vpnBits <= 16
    ensures var page := Pow2(64 - vpnBits);
            var q := va / page;
            && q % Pow2(vpnBits) == q
            && q < Pow2(vpnBits) <= UINT16_LIMIT
            && q * page <= va < q * page + page
  {
    Pow2Split64(vpnBits);
    Pow2AtMost16(vpnBits);
    HighField(va, Pow2(vpnBits), Pow2(64 - vpnBits));
  }

  /**
    The offset: the address masked to its bottom 64 - pfnBits bits. The
    result is below 2^(64-pfnBits) and differs from va by a multiple of it.
   */
  function Offset(pfnBits: nat, va: uint64): (offset: uint64)
    requires 1 <= pfnBits <= 64
    ensures offset < Pow2(OffsetBits(pfnBits))
    ensures offset <= va && (va - offset) % Pow2(OffsetBits(pfnBits)) == 0
  {
    var k := Pow2(OffsetBits(pfnBits));
    OffsetFacts(k, va);
    va % k
  }

  /**
    Physical address of a frame: the frame number shifted left by
    64 - pfnBits bits in a 64-bit register (bits shifted past bit 63 are
    lost), combined with the offset. Since the shifted value has zero low
    bits and the offset fits below them, the bitwise or is an addition.
    Splitting the result again gives back the frame number reduced to pfnBits
    bits and the offset.
   */
  function PhysicalAddress(pfnBits: nat, pfn: nat, offset: nat): (pa: uint64)
    requires 1 <= pfnBits <= 64
    requires offset < Pow2(OffsetBits(pfnBits))
    ensures pa / Pow2(OffsetBits(pfnBits)) == pfn % Pow2(pfnBits)
    ensures pa % Pow2(OffsetBits(pfnBits)) == offset
  {
    PhysicalLayout(pfnBits, pfn, offset);
    (pfn * Pow2(OffsetBits(pfnBits))) % UINT64_LIMIT + offset
  }

  lemma OffsetFacts(k: nat, va: nat)
    requires k >= 1
    ensures va % k <= va && (va - va % k) % k == 0
  {
    DivModParts(va, k);
    DivModUnique(va - va % k, k, va / k, 0);
  }

  /** The frame-number field of a physical address. */
  function FrameField(pfnBits: nat, pa: uint64): int
    requires 1 <= pfnBits <= 64
  {
    pa / Pow2(OffsetBits(pfnBits))
  }

  lemma PhysicalLayout(pfnBits: nat, pfn: nat, offset: nat)
    requires 1 <= pfnBits <= 64
    requires offset < Pow2(OffsetBits(pfnBits))
    ensures var k := Pow2(OffsetBits(pfnBits));
            var pa := (pfn * k) % UINT64_LIMIT + offset;
            && pa < UINT64_LIMIT
            && pa / k == pfn % Pow2(pfnBits)
            && pa % k == offset
  {
    Pow2Split64(pfnBits);
    ShiftedFields(pfn, offset, Pow2(pfnBits), Pow2(OffsetBits(pfnBits)));
  }
}
