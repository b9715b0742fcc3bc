/** Insertion into and removal from a sequence at a position, described position by position. */
module Seqs {

  ghost function InsertAt<T>(s: seq<T>, p: nat, x: T): (r: seq<T>)
    requires p <= |s|
    ensures |r| == |s| + 1
    ensures forall i {:trigger r[i]} ::
      0 <= i < |r| ==> r[i] == if i < p then s[i] else if i == p then x else s[i - 1]
  {
    var w := s[..p] + [x] + s[p..];
    assert |w| == |s| + 1 && forall i {:trigger w[i]} ::
      0 <= i < |w| ==> w[i] == if i < p then s[i] else if i == p then x else s[i - 1];
    var r: seq<T> :| |r| == |s| + 1 && forall i {:trigger r[i]} ::
      0 <= i < |r| ==> r[i] == if i < p then s[i] else if i == p then x else s[i - 1];
    r
  }

  ghost function RemoveAt<T>(s: seq<T>, p: nat): (r: seq<T>)
    requires p < |s|
    ensures |r| == |s| - 1
    ensures forall i {:trigger r[i]} :: 0 <= i < |r| ==> r[i] == if i < p then s[i] else s[i + 1]
  {
    var w := s[..p] + s[p + 1..];
    assert |w| == |s| - 1 && forall i {:trigger w[i]} ::
      0 <= i < |w| ==> w[i] == if i < p then s[i] else s[i + 1];
    var r: seq<T> :| |r| == |s| - 1 && forall i {:trigger r[i]} ::
      0 <= i < |r| ==> r[i] == if i < p then s[i] else s[i + 1];
    r
  }

  lemma {:induction false} RemoveThenInsert<T>(s: seq<T>, p: nat)
    requires p < |s|
    ensures InsertAt(RemoveAt(s, p), p, s[p]) == s
  {
  }
}
