/** The loop with which both tables close the gap that a deleted record leaves. */
module Shifting {
  /** Records i + 1 to n - 1 move down by one; slot n - 1 keeps its record. */
  method ShiftDown<T>(a: array<T>, i: nat, n: nat)
    requires i < n <= a.Length
    modifies a
    ensures a[..n - 1] == old(a[..i] + a[i + 1..n])
    ensures a[n - 1..] == old(a[n - 1..])
  {
    ghost var was := a[..];
    var j := i;
    while j < n - 1
      invariant i <= j <= n - 1
      invariant forall k :: i <= k < j ==> a[k] == was[k + 1]
      invariant forall k :: 0 <= k < i ==> a[k] == was[k]
      invariant forall k :: j <= k < a.Length ==> a[k] == was[k]
    {
      a[j] := a[j + 1];
      j := j + 1;
    }
    Closed(was, a[..], i, n);
  }

  lemma Closed<T>(was: seq<T>, now: seq<T>, i: nat, n: nat)
    requires i < n <= |was| == |now|
    requires forall k :: i <= k < n - 1 ==> now[k] == was[k + 1]
    requires forall k :: 0 <= k < i ==> now[k] == was[k]
    requires forall k :: n - 1 <= k < |was| ==> now[k] == was[k]
    ensures now[..n - 1] == was[..i] + was[i + 1..n] && now[n - 1..] == was[n - 1..]
  {
  }
}
