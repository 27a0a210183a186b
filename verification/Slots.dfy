/** Edits of a run of slots, the vocabulary in which in-place shifting is specified. */
module Slots {

  function InsertAt<T>(s: seq<T>, i: nat, x: T): (r: seq<T>)
    requires i <= |s|
    ensures |r| == |s| + 1
    ensures forall j | 0 <= j < |r| :: r[j] == if j < i then s[j] else if j == i then x else s[j - 1]
  {
    s[..i] + [x] + s[i..]
  }

  function RemoveAt<T>(s: seq<T>, i: nat): (r: seq<T>)
    requires i < |s|
    ensures |r| == |s| - 1
    ensures forall j | 0 <= j < |r| :: r[j] == if j < i then s[j] else s[j + 1]
  {
    s[..i] + s[i + 1..]
  }

  /** Closing a gap by shifting left removes one element of the used slots. */
  lemma ShiftedLeft<T>(s: seq<T>, s': seq<T>, n: nat, idx: nat)
    requires idx < n <= |s| == |s'|
    requires forall j | 0 <= j < idx :: s'[j] == s[j]
    requires forall j | idx <= j < n - 1 :: s'[j] == s[j + 1]
    ensures s'[..n - 1] == RemoveAt(s[..n], idx)
  {
  }

  /** Opening a gap by shifting right and filling it inserts one element into the used slots. */
  lemma ShiftedRight<T>(s: seq<T>, s': seq<T>, n: nat, idx: nat, x: T)
    requires idx <= n < |s| == |s'|
    requires forall j | 0 <= j < idx :: s'[j] == s[j]
    requires forall j | idx < j <= n :: s'[j] == s[j - 1]
    requires s'[idx] == x
    ensures s'[..n + 1] == InsertAt(s[..n], idx, x)
  {
  }
}
