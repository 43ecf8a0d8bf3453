/**
  The translation lookaside buffer: a fixed-capacity array of (VPN, PFN,
  valid) entries, a live-entry counter and a circular FIFO index. Lookups
  scan the live prefix; insertions overwrite the slot at the FIFO index and
  advance it modulo the capacity, so once the buffer is full each insertion
  evicts the entry written longest ago.
 */
module Tlb {
  import opened Ints
  import opened Wrappers
  import opened Counting

  datatype TlbEntry = TlbEntry(vpn: uint16, pfn: uint16, valid: bool)

  /** A zero-filled slot, as a freshly allocated buffer holds. */
  const EmptyEntry: TlbEntry := TlbEntry(0, 0, false)

  /** The buffer, its FIFO index and its live-entry count; the capacity is |entries|. */
  datatype TlbState = TlbState(entries: seq<TlbEntry>, index: uint8, count: uint8)

  /** The shape every operation relies on: capacity 1..255, index and count in range. */
  predicate Bounded(t: TlbState)
  {
    && 1 <= |t.entries| <= 255
    && t.index < |t.entries|
    && t.count <= |t.entries|
  }

  /**
    The shape FIFO insertion maintains: while the buffer is not full the
    index is the count, and the valid slots are exactly the first count ones.
   */
  predicate FifoShape(t: TlbState)
  {
    && Bounded(t)
    && (t.count < |t.entries| ==> t.index == t.count)
    && forall i :: 0 <= i < |t.entries| ==> (t.entries[i].valid <==> i < t.count)
  }

  predicate IsValid(e: TlbEntry)
  {
    e.valid
  }

  predicate Matches(e: TlbEntry, vpn: nat)
  {
    e.valid && e.vpn == vpn
  }

  /** A zero-filled buffer of the given capacity: no valid entry, index and count 0. */
  function Empty(capacity: uint8): (t: TlbState)
    requires 1 <= capacity
    ensures FifoShape(t) && |t.entries| == capacity
    ensures t.count == 0 && t.index == 0
    ensures CountIf(t.entries, IsValid) == 0
  {
    var t := TlbState(seq(capacity, _ => EmptyEntry), 0, 0);
    CountIfPrefix(t.entries, IsValid, 0);
    t
  }

  /** The first live slot at or after i that matches vpn. */
  function FindFrom(t: TlbState, vpn: nat, i: nat): (r: Option<nat>)
    requires Bounded(t) && i <= t.count
    ensures r.Some? ==> i <= r.value < t.count && Matches(t.entries[r.value], vpn)
    ensures r.Some? ==> forall j :: i <= j < r.value ==> !Matches(t.entries[j], vpn)
    ensures r.None? ==> forall j :: i <= j < t.count ==> !Matches(t.entries[j], vpn)
    decreases t.count - i
  {
    if i == t.count then None
    else if Matches(t.entries[i], vpn) then Some(i)
    else FindFrom(t, vpn, i + 1)
  }

  /** The first live slot that holds a valid entry for vpn, if any. */
  function Lookup(t: TlbState, vpn: nat): Option<nat>
    requires Bounded(t)
  {
    FindFrom(t, vpn, 0)
  }

  /** vpn has a valid entry among the live slots. */
  predicate Cached(t: TlbState, vpn: nat)
    requires Bounded(t)
  {
    exists i :: 0 <= i < t.count && Matches(t.entries[i], vpn)
  }

  /** The linear probe of the live slots, reporting a hit and the cached frame. */
  method Scan(t: TlbState, vpn: nat) returns (hit: bool, pfn: uint16)
    requires Bounded(t)
    ensures hit <==> Cached(t, vpn)
    ensures hit ==> Lookup(t, vpn).Some? && pfn == t.entries[Lookup(t, vpn).value].pfn
  {
    hit, pfn := false, 0;
    var i := 0;
    while i < t.count
      invariant 0 <= i <= t.count
      invariant forall j :: 0 <= j < i ==> !Matches(t.entries[j], vpn)
      invariant FindFrom(t, vpn, i) == Lookup(t, vpn)
    {
      if t.entries[i].valid && t.entries[i].vpn == vpn {
        hit, pfn := true, t.entries[i].pfn;
        return;
      }
      i := i + 1;
    }
  }

  /**
    FIFO insertion: the slot at the index receives the new valid entry, the
    index advances circularly and the count grows until the buffer is full.
    Afterwards the new entry is live, so a lookup of its VPN hits.
   */
  function Insert(t: TlbState, vpn: uint16, pfn: uint16): (t': TlbState)
    requires Bounded(t)
    ensures Bounded(t') && |t'.entries| == |t.entries|
    ensures t'.index == (t.index + 1) % |t.entries|
    ensures t'.count == Min(t.count + 1, |t.entries|)
    ensures FifoShape(t) ==> FifoShape(t') && Cached(t', vpn)
    ensures FifoShape(t) ==> forall i :: 0 <= i < t'.count ==>
              if i == t.index then t'.entries[i] == TlbEntry(vpn, pfn, true)
              else i < t.count && t'.entries[i] == t.entries[i]
  {
    var capacity := |t.entries|;
    NextSlot(t.index, capacity);
    var t' := TlbState(t.entries[t.index := TlbEntry(vpn, pfn, true)],
                       (t.index + 1) % capacity,
                       if t.count < capacity then t.count + 1 else t.count);
    assert FifoShape(t) ==> t.index < t'.count && Matches(t'.entries[t.index], vpn);
    t'
  }

  /** Advancing a circular index: the successor, or 0 past the last slot. */
  lemma NextSlot(i: nat, n: nat)
    requires i < n
    ensures (i + 1) % n == if i + 1 == n then 0 else i + 1
  {
    if i + 1 == n {
      DivModUnique(i + 1, n, 1, 0);
    } else {
      DivModUnique(i + 1, n, 0, i + 1);
    }
  }

  /**
    The live entries in insertion order, oldest first: the live prefix while
    the buffer is filling, the rotation starting at the index once it is full.
   */
  function Queue(t: TlbState): seq<TlbEntry>
    requires Bounded(t)
  {
    if t.count < |t.entries| then t.entries[..t.count]
    else t.entries[t.index..] + t.entries[..t.index]
  }

  /** Insertion is a push onto a bounded FIFO queue: when full, the oldest entry drops out. */
  lemma InsertIsFifoPush(t: TlbState, vpn: uint16, pfn: uint16)
    requires FifoShape(t)
    ensures Queue(Insert(t, vpn, pfn))
         == (if t.count < |t.entries| then Queue(t) else Queue(t)[1..]) + [TlbEntry(vpn, pfn, true)]
  {
    var e := TlbEntry(vpn, pfn, true);
    var n := |t.entries|;
    var t' := Insert(t, vpn, pfn);
    assert t'.entries == t.entries[t.index := e];
    assert t'.index == (t.index + 1) % n;
    if t.count < n {
      assert t.index == t.count && t'.count == t.count + 1;
      PushWhileFilling(t.entries, t.count, e);
      if t.count + 1 == n {
        DivModUnique(n, n, 1, 0);
        assert t'.index == 0;
        assert Queue(t') == t'.entries[0..] + t'.entries[..0];
      } else {
        assert Queue(t') == t'.entries[..t.count + 1];
      }
      assert Queue(t) == t.entries[..t.count];
    } else {
      assert t'.count == n;
      PushWhenFull(t.entries, t.index, e);
      assert Queue(t') == t'.entries[t'.index..] + t'.entries[..t'.index];
      assert Queue(t) == t.entries[t.index..] + t.entries[..t.index];
    }
  }

  lemma PushWhileFilling(s: seq<TlbEntry>, c: nat, e: TlbEntry)
    requires c < |s|
    ensures var s' := s[c := e];
            (if c + 1 < |s| then s'[..c + 1] else s'[0..] + s'[..0]) == s[..c] + [e]
  {
    var s' := s[c := e];
    if c + 1 < |s| {
      assert s'[..c + 1] == s[..c] + [e];
    } else {
      assert s'[0..] + s'[..0] == s';
      assert s' == s[..c] + [e];
    }
  }

  lemma PushWhenFull(s: seq<TlbEntry>, i: nat, e: TlbEntry)
    requires i < |s|
    ensures var s' := s[i := e];
            var i' := (i + 1) % |s|;
            s'[i'..] + s'[..i'] == (s[i..] + s[..i])[1..] + [e]
  {
    var s' := s[i := e];
    assert (s[i..] + s[..i])[1..] == s[i + 1..] + s[..i];
    if i + 1 < |s| {
      DivModUnique(i + 1, |s|, 0, i + 1);
      assert s'[i + 1..] == s[i + 1..];
      assert s'[..i + 1] == s[..i] + [e];
    } else {
      DivModUnique(i + 1, |s|, 1, 0);
      assert s'[0..] + s'[..0] == s';
      assert s' == s[..i] + [e];
    }
  }

  /** The queue holds exactly the live entries, all of them valid. */
  lemma QueueIsLive(t: TlbState)
    requires FifoShape(t)
    ensures |Queue(t)| == t.count
    ensures forall k :: 0 <= k < |Queue(t)| ==> Queue(t)[k].valid
    ensures forall vpn: nat :: Cached(t, vpn) <==> exists k :: 0 <= k < |Queue(t)| && Queue(t)[k].vpn == vpn
  {
    var q := Queue(t);
    var n := |t.entries|;
    forall vpn: nat | Cached(t, vpn)
      ensures exists k :: 0 <= k < |q| && q[k].vpn == vpn
    {
      var i :| 0 <= i < t.count && Matches(t.entries[i], vpn);
      if t.count < n {
        assert q[i] == t.entries[i];
      } else if i >= t.index {
        assert q[i - t.index] == t.entries[i];
      } else {
        assert q[n - t.index + i] == t.entries[i];
      }
    }
    forall vpn: nat | exists k :: 0 <= k < |q| && q[k].vpn == vpn
      ensures Cached(t, vpn)
    {
      var k :| 0 <= k < |q| && q[k].vpn == vpn;
      if t.count < n {
        assert Matches(t.entries[k], vpn);
      } else if k < n - t.index {
        assert Matches(t.entries[t.index + k], vpn);
      } else {
        assert Matches(t.entries[k - (n - t.index)], vpn);
      }
    }
  }

  /** The slot that holds the k-th oldest entry of a full buffer. */
  function SlotOf(t: TlbState, k: nat): nat
    requires Bounded(t) && k < |t.entries|
  {
    if k < |t.entries| - t.index then t.index + k else k - (|t.entries| - t.index)
  }

  /** In a full buffer the k-th oldest entry sits k slots after the index, circularly. */
  lemma QueueOfFull(t: TlbState)
    requires FifoShape(t) && t.count == |t.entries|
    ensures |Queue(t)| == |t.entries|
    ensures forall k :: 0 <= k < |Queue(t)| ==>
              SlotOf(t, k) < t.count && Queue(t)[k] == t.entries[SlotOf(t, k)] && (SlotOf(t, k) == t.index <==> k == 0)
  {
  }

  /**
    FIFO eviction: inserting a VPN that misses into a full buffer whose live
    entries name distinct VPNs makes the oldest VPN miss, while every younger
    one still hits.
   */
  lemma FifoEviction(t: TlbState, vpn: uint16, pfn: uint16)
    requires FifoShape(t) && t.count == |t.entries|
    requires !Cached(t, vpn)
    requires forall i, j :: 0 <= i < j < t.count ==> t.entries[i].vpn != t.entries[j].vpn
    ensures !Cached(Insert(t, vpn, pfn), Queue(t)[0].vpn)
    ensures forall k :: 1 <= k < |Queue(t)| ==> Cached(Insert(t, vpn, pfn), Queue(t)[k].vpn)
  {
    var t' := Insert(t, vpn, pfn);
    var q := Queue(t);
    QueueIsLive(t);
    QueueIsLive(t');
    InsertIsFifoPush(t, vpn, pfn);
    QueueOfFull(t);
    var q' := Queue(t');
    assert q' == q[1..] + [TlbEntry(vpn, pfn, true)];
    assert Matches(t.entries[t.index], q[0].vpn);
    forall k | 1 <= k < |q|
      ensures Cached(t', q[k].vpn)
    {
      assert q'[k - 1].vpn == q[k].vpn;
    }
    forall k | 0 <= k < |q'|
      ensures q'[k].vpn != q[0].vpn
    {
      if k < |q| - 1 {
        assert q'[k] == q[k + 1];
        var i := SlotOf(t, k + 1);
        if i < t.index {
          assert t.entries[i].vpn != t.entries[t.index].vpn;
        } else {
          assert t.entries[t.index].vpn != t.entries[i].vpn;
        }
      }
    }
  }

  /** While the FIFO shape holds, the live count is the number of valid slots. */
  lemma CountIsValidSlots(t: TlbState)
    requires FifoShape(t)
    ensures CountIf(t.entries, IsValid) == t.count
  {
    CountIfPrefix(t.entries, IsValid, t.count);
  }
}
