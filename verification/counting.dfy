/**
  Counting the elements of a table that satisfy a predicate: the number of
  free frames, of mapped page-table slots and of valid TLB entries are all
  instances of this one function.
 */
module Counting {

  function CountIf<T>(s: seq<T>, p: T -> bool): (n: nat)
    ensures n <= |s|
  {
    if |s| == 0 then 0 else (if p(s[0]) then 1 else 0) + CountIf(s[1..], p)
  }

  /** Overwriting one slot changes the count by what left and what arrived. */
  lemma {:induction false} CountIfUpdate<T>(s: seq<T>, i: nat, x: T, p: T -> bool)
    requires i < |s|
    ensures CountIf(s[i := x], p) + (if p(s[i]) then 1 else 0)
         == CountIf(s, p) + (if p(x) then 1 else 0)
    decreases i
  {
    if i > 0 {
      assert s[i := x][1..] == s[1..][i - 1 := x];
      CountIfUpdate(s[1..], i - 1, x, p);
    }
  }

  /** When p holds exactly on the first n slots, n slots satisfy p. */
  lemma {:induction false} CountIfPrefix<T>(s: seq<T>, p: T -> bool, n: nat)
    requires n <= |s|
    requires forall i :: 0 <= i < |s| ==> (p(s[i]) <==> i < n)
    ensures CountIf(s, p) == n
    decreases |s|
  {
    if |s| > 0 {
      var n' := if n == 0 then 0 else n - 1;
      assert forall i :: 0 <= i < |s| - 1 ==> s[1..][i] == s[i + 1];
      CountIfPrefix(s[1..], p, n');
    }
  }

  /** When p holds exactly from slot n onwards, |s| - n slots satisfy p. */
  lemma {:induction false} CountIfSuffix<T>(s: seq<T>, p: T -> bool, n: nat)
    requires n <= |s|
    requires forall i :: 0 <= i < |s| ==> (p(s[i]) <==> i >= n)
    ensures CountIf(s, p) == |s| - n
    decreases |s|
  {
    if |s| > 0 {
      var n' := if n == 0 then 0 else n - 1;
      assert forall i :: 0 <= i < |s| - 1 ==> s[1..][i] == s[i + 1];
      CountIfSuffix(s[1..], p, n');
    }
  }
}
