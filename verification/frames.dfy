/**
  The frame table: one flag per physical frame, true while the frame is
  free. Allocation is first fit: the lowest-numbered free frame is taken.
  Frames are never returned to the pool.
 */
module Frames {
  import opened Wrappers
  import opened Counting

  predicate IsFree(free: bool)
  {
    free
  }

  /** Number of free frames in the table. */
  function CountFree(frames: seq<bool>): nat
  {
    CountIf(frames, IsFree)
  }

  /** The lowest free frame at or after i. */
  function FirstFreeFrom(frames: seq<bool>, i: nat): (r: Option<nat>)
    requires i <= |frames|
    ensures r.Some? ==> i <= r.value < |frames| && frames[r.value]
    ensures r.Some? ==> forall j :: i <= j < r.value ==> !frames[j]
    ensures r.None? ==> forall j :: i <= j < |frames| ==> !frames[j]
    decreases |frames| - i
  {
    if i == |frames| then None
    else if frames[i] then Some(i)
    else FirstFreeFrom(frames, i + 1)
  }

  /** The lowest free frame of the whole table, if any. */
  function FirstFree(frames: seq<bool>): Option<nat>
  {
    FirstFreeFrom(frames, 0)
  }

  /**
    The upward scan for a free frame, answering -1 when every frame is in
    use, otherwise the frame that first fit chooses.
   */
  method FindFreeFrame(frames: seq<bool>) returns (frame: int)
    ensures frame == -1 <==> forall j :: 0 <= j < |frames| ==> !frames[j]
    ensures frame != -1 ==> FirstFree(frames) == Some(frame)
  {
    frame := -1;
    var i := 0;
    while i < |frames|
      invariant 0 <= i <= |frames|
      invariant forall j :: 0 <= j < i ==> !frames[j]
      invariant FirstFreeFrom(frames, i) == FirstFree(frames)
    {
      if frames[i] {
        frame := i;
        return;
      }
      i := i + 1;
    }
  }

  /** Taking a free frame lowers the free count by exactly one. */
  lemma TakeLowersCount(frames: seq<bool>, f: nat)
    requires f < |frames| && frames[f]
    ensures CountFree(frames[f := false]) + 1 == CountFree(frames)
  {
    CountIfUpdate(frames, f, false, IsFree);
  }

  /**
    When the used frames are exactly the first n, first fit picks frame n
    (or nothing if n is the whole table), and |frames| - n frames are free.
   */
  lemma FirstFitAfterPrefix(frames: seq<bool>, n: nat)
    requires n <= |frames|
    requires forall i :: 0 <= i < |frames| ==> (frames[i] <==> i >= n)
    ensures FirstFree(frames) == (if n < |frames| then Some(n) else None)
    ensures CountFree(frames) == |frames| - n
  {
    CountIfSuffix(frames, IsFree, n);
    var r := FirstFreeFrom(frames, 0);
    if n < |frames| {
      assert frames[n];
      assert r.Some?;
      assert r.value >= n;
    }
  }
}
