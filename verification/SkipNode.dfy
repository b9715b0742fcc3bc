/** The nodes of a skip list and the link structure a list of towers must have. */
module SkipNode {
  import opened Seqs

  class Node {
    const key: string
    var value: string
    const nodeLevel: nat
    const forward: array<Node?>

    constructor (k: string, v: string, level: nat)
      ensures key == k && value == v && nodeLevel == level
      ensures fresh(forward) && forward.Length == level + 1
      ensures forall i :: 0 <= i <= level ==> forward[i] == null
    {
      key, value, nodeLevel := k, v, level;
      forward := new Node?[level + 1](_ => null);
    }

    method SetValue(v: string)
      modifies this
      ensures value == v
    {
      value := v;
    }
  }

  ghost predicate IsNext(all: seq<Node>, a: nat, i: nat, b: nat) {
    && a < b <= |all|
    && (b < |all| ==> all[b].nodeLevel >= i)
    && (forall c :: a < c < b ==> all[c].nodeLevel < i)
  }

  lemma {:induction false} NextExists(all: seq<Node>, a: nat, i: nat) returns (b: nat)
    requires a < |all|
    ensures IsNext(all, a, i, b)
    decreases |all| - a
  {
    b := a + 1;
    if b < |all| && all[b].nodeLevel < i {
      b := NextExists(all, b, i);
    }
  }

  /** The first tower after position a that reaches level i; |all| if there is none. */
  ghost function Next(all: seq<Node>, a: nat, i: nat): (b: nat)
    requires a < |all|
    ensures IsNext(all, a, i, b)
  {
    assert exists b: nat :: IsNext(all, a, i, b) by { var b := NextExists(all, a, i); }
    var b: nat :| IsNext(all, a, i, b);
    b
  }

  lemma {:induction false} NextIs(all: seq<Node>, a: nat, i: nat, b: nat)
    requires IsNext(all, a, i, b)
    ensures Next(all, a, i) == b
  {
  }

  /** What forward[i] of the node at position a has to be. */
  ghost function Link(all: seq<Node>, a: nat, i: nat): Node?
    requires a < |all|
  {
    if Next(all, a, i) < |all| then all[Next(all, a, i)] else null
  }

  ghost predicate Apart(m: Node, n: Node) {
    m != n && m.forward != n.forward
  }

  /** Towers and their arrays are pairwise different and each array has one slot per level. */
  ghost predicate Towers(all: seq<Node>) {
    && (forall a :: 0 <= a < |all| ==> all[a].forward.Length == all[a].nodeLevel + 1)
    && (forall a, b {:trigger Apart(all[a], all[b])} ::
          0 <= a < |all| && 0 <= b < |all| && a != b ==> Apart(all[a], all[b]))
  }

  ghost function Arrays(all: seq<Node>): (r: set<object>)
    ensures forall a :: 0 <= a < |all| ==> all[a].forward in r
  {
    set a | 0 <= a < |all| :: all[a].forward
  }

  /** Every level is the nil-ended chain of exactly the towers that reach it. */
  ghost predicate Linked(all: seq<Node>)
    requires Towers(all)
    reads Arrays(all)
  {
    forall a, i :: 0 <= a < |all| && 0 <= i <= all[a].nodeLevel ==> all[a].forward[i] == Link(all, a, i)
  }

  /** b is the last tower of level i at or before position p. */
  ghost predicate IsPred(all: seq<Node>, p: nat, i: nat, b: nat) {
    b <= p < |all| && all[b].nodeLevel >= i && Next(all, b, i) > p
  }

  /** Every tower is on level 0, so the walk along it stops exactly at p. */
  lemma {:induction false} PredOnGround(all: seq<Node>, p: nat, b: nat)
    requires IsPred(all, p, 0, b)
    ensures b == p && Next(all, p, 0) == p + 1
  {
    assert all[p].nodeLevel >= 0;
    assert p + 1 < |all| ==> all[p + 1].nodeLevel >= 0;
  }

  lemma {:induction false} PrevExists(all: seq<Node>, p: nat, i: nat) returns (b: nat)
    requires p < |all| && i <= all[0].nodeLevel
    ensures IsPred(all, p, i, b)
  {
    b := p;
    if all[p].nodeLevel < i {
      b := PrevExists(all, p - 1, i);
    }
  }

  /** The last tower of level i at or before position p. */
  ghost function Prev(all: seq<Node>, p: nat, i: nat): (b: nat)
    requires p < |all| && i <= all[0].nodeLevel
    ensures IsPred(all, p, i, b)
  {
    assert exists b: nat :: IsPred(all, p, i, b) by { var b := PrevExists(all, p, i); }
    var b: nat :| IsPred(all, p, i, b);
    b
  }

  /** What a descent finds at level i is Prev, and the link out of it skips past p. */
  lemma {:induction false} PredIsPrev(all: seq<Node>, p: nat, i: nat, b: nat)
    requires IsPred(all, p, i, b) && i <= all[0].nodeLevel
    ensures b == Prev(all, p, i)
    ensures Next(all, b, i) == Next(all, p, i)
  {
  }

  /** How links change when n is put after position p. */
  lemma {:induction false} NextInserted(all: seq<Node>, p: nat, n: Node, a: nat, i: nat)
    requires p < |all| && a <= |all|
    ensures |InsertAt(all, p + 1, n)| == |all| + 1
    ensures Next(InsertAt(all, p + 1, n), a, i) ==
      if a > p + 1 then Next(all, a - 1, i) + 1
      else if a == p + 1 then Next(all, p, i) + 1
      else if Next(all, a, i) <= p then Next(all, a, i)
      else if i <= n.nodeLevel then p + 1
      else Next(all, a, i) + 1
  {
    var was := if a > p + 1 then Next(all, a - 1, i) else if a == p + 1 then Next(all, p, i) else Next(all, a, i);
    var b := if a <= p && was <= p then was else if a <= p && i <= n.nodeLevel then p + 1 else was + 1;
    NextIs(InsertAt(all, p + 1, n), a, i, b);
  }

  /** The same for links instead of positions. */
  lemma {:induction false} LinkInserted(all: seq<Node>, p: nat, n: Node, a: nat, i: nat)
    requires p < |all| && a <= |all|
    ensures var all' := InsertAt(all, p + 1, n);
      Link(all', a, i) ==
      if a > p + 1 then Link(all, a - 1, i)
      else if a == p + 1 then Link(all, p, i)
      else if Next(all, a, i) > p && i <= n.nodeLevel then n
      else Link(all, a, i)
  {
    NextInserted(all, p, n, a, i);
  }

  /** n is a tower that is not among the others. */
  ghost predicate Outside(all: seq<Node>, n: Node) {
    && Towers(all) && n.forward.Length == n.nodeLevel + 1
    && (forall a {:trigger Apart(all[a], n)} :: 0 <= a < |all| ==> Apart(all[a], n))
  }

  lemma {:induction false} InsertedTowers(all: seq<Node>, q: nat, n: Node)
    requires Outside(all, n) && q <= |all|
    ensures Towers(InsertAt(all, q, n))
  {
    var all' := InsertAt(all, q, n);
    forall a, b | 0 <= a < |all'| && 0 <= b < |all'| && a != b
      ensures Apart(all'[a], all'[b])
    {
      var a', b' := if a < q then a else a - 1, if b < q then b else b - 1;
      if a == q {
        assert Apart(all[b'], n);
      } else if b == q {
        assert Apart(all[a'], n);
      } else {
        assert Apart(all[a'], all[b']);
      }
    }
  }

  lemma {:induction false} RemovedTowers(all: seq<Node>, q: nat)
    requires Towers(all) && q < |all|
    ensures Outside(RemoveAt(all, q), all[q])
  {
  }

  /** The links while n is being put after position p: done below level i, untouched from there. */
  ghost predicate Splicing(all: seq<Node>, p: nat, n: Node, i: nat)
    requires Outside(all, n) && p < |all|
    reads Arrays(all), n.forward
  {
    && (forall j :: 0 <= j < i && j <= n.nodeLevel ==> n.forward[j] == Link(all, p, j))
    && (forall a, j :: 0 <= a < |all| && 0 <= j <= all[a].nodeLevel ==>
          all[a].forward[j] == if j < i && a <= p && Next(all, a, j) > p then n else Link(all, a, j))
  }

  /** One level of the splice: n takes over the out-link of its predecessor. */
  method SpliceLevel(prev: Node, n: Node, i: nat, ghost all: seq<Node>, ghost p: nat)
    requires Outside(all, n) && p < |all| && i <= n.nodeLevel && i <= all[0].nodeLevel
    requires prev == all[Prev(all, p, i)] && Splicing(all, p, n, i)
    modifies prev.forward, n.forward
    ensures Splicing(all, p, n, i + 1)
  {
    ghost var u := Prev(all, p, i);
    PredIsPrev(all, p, i, u);
    forall a | 0 <= a < |all|
      ensures all[a].forward != n.forward && (a != u ==> all[a].forward != prev.forward)
    {
      assert Apart(all[a], n);
      assert a != u ==> Apart(all[a], all[u]);
    }
    n.forward[i] := prev.forward[i];
    prev.forward[i] := n;
  }

  /** The splice: on every level of n, from the bottom up. */
  method SpliceAll(n: Node, update: array<Node?>, ghost all: seq<Node>, ghost p: nat)
    requires Outside(all, n) && p < |all| && Linked(all) && n.nodeLevel <= all[0].nodeLevel
    requires n.nodeLevel < update.Length && update != n.forward && update !in Arrays(all)
    requires forall i :: 0 <= i <= n.nodeLevel ==> update[i] == all[Prev(all, p, i)]
    modifies Arrays(all), n.forward
    ensures Towers(InsertAt(all, p + 1, n)) && Linked(InsertAt(all, p + 1, n))
  {
    for i := 0 to n.nodeLevel + 1
      invariant forall j :: 0 <= j <= n.nodeLevel ==> update[j] == all[Prev(all, p, j)]
      invariant Splicing(all, p, n, i)
    {
      SpliceLevel(update[i], n, i, all, p);
    }
    SplicedLinks(all, p, n);
  }

  /** The state the splice loop reaches is the link structure of the longer list. */
  lemma {:induction false} SplicedLinks(all: seq<Node>, p: nat, n: Node)
    requires Outside(all, n) && p < |all| && Splicing(all, p, n, n.nodeLevel + 1)
    ensures Towers(InsertAt(all, p + 1, n)) && Linked(InsertAt(all, p + 1, n))
  {
    InsertedTowers(all, p + 1, n);
    var all' := InsertAt(all, p + 1, n);
    forall a, j | 0 <= a < |all'| && 0 <= j <= all'[a].nodeLevel
      ensures all'[a].forward[j] == Link(all', a, j)
    {
      LinkInserted(all, p, n, a, j);
    }
  }

  /** The same state read backwards: n is being taken out, level i is the next to unlink. */
  ghost predicate Unlinking(all: seq<Node>, p: nat, n: Node, i: nat)
    requires Outside(all, n) && p < |all|
    reads Arrays(all), n.forward
  {
    && (forall j :: 0 <= j <= n.nodeLevel ==> n.forward[j] == Link(all, p, j))
    && (forall a, j :: 0 <= a < |all| && 0 <= j <= all[a].nodeLevel ==>
          all[a].forward[j] ==
          if i <= j && j <= n.nodeLevel && a <= p && Next(all, a, j) > p then n else Link(all, a, j))
  }

  /** One level of the removal. */
  method UnlinkLevel(prev: Node, n: Node, i: nat, ghost all: seq<Node>, ghost p: nat)
    requires Outside(all, n) && p < |all| && i <= n.nodeLevel && i <= all[0].nodeLevel
    requires prev == all[Prev(all, p, i)] && Unlinking(all, p, n, i)
    modifies prev.forward
    ensures Unlinking(all, p, n, i + 1)
  {
    ghost var u := Prev(all, p, i);
    PredIsPrev(all, p, i, u);
    forall a | 0 <= a < |all|
      ensures all[a].forward != n.forward && (a != u ==> all[a].forward != prev.forward)
    {
      assert Apart(all[a], n);
      assert a != u ==> Apart(all[a], all[u]);
    }
    prev.forward[i] := n.forward[i];
  }

  /** From the bottom up, until the first level the node is not on. */
  method UnlinkAll(n: Node, update: array<Node?>, top: nat, ghost all: seq<Node>, ghost p: nat)
    requires Outside(all, n) && p < |all| && Unlinking(all, p, n, 0)
    requires n.nodeLevel <= top <= all[0].nodeLevel && top < update.Length && update !in Arrays(all)
    requires forall i :: 0 <= i <= top ==> update[i] == all[Prev(all, p, i)]
    modifies Arrays(all)
    ensures Linked(all)
  {
    var i := 0;
    while i <= top
      invariant i <= n.nodeLevel + 1
      invariant forall j :: 0 <= j <= top ==> update[j] == all[Prev(all, p, j)]
      invariant Unlinking(all, p, n, i)
    {
      UnlinkTest(all, p, n, i);
      if update[i].forward[i] != n {
        break;
      }
      UnlinkLevel(update[i], n, i, all, p);
      i := i + 1;
    }
  }

  /** The source's test for leaving the loop: it fires exactly above the node's own levels. */
  lemma {:induction false} UnlinkTest(all: seq<Node>, p: nat, n: Node, i: nat)
    requires Outside(all, n) && p < |all| && i <= all[0].nodeLevel && Unlinking(all, p, n, i)
    ensures all[Prev(all, p, i)].forward[i] == n <==> i <= n.nodeLevel
  {
  }

  lemma {:induction false} RemovedPrev(all: seq<Node>, p: nat, i: nat)
    requires p + 1 < |all| && i <= all[0].nodeLevel
    ensures Prev(RemoveAt(all, p + 1), p, i) == Prev(all, p, i)
  {
    var rest := RemoveAt(all, p + 1);
    var b := Prev(rest, p, i);
    assert forall c :: 0 <= c <= p ==> rest[c] == all[c];
    PredIsPrev(all, p, i, b);
  }

  /** A well-linked list is where the removal loop starts. */
  lemma {:induction false} BeginUnlinking(all: seq<Node>, p: nat)
    requires Towers(all) && p + 1 < |all| && Linked(all)
    ensures Outside(RemoveAt(all, p + 1), all[p + 1])
    ensures Unlinking(RemoveAt(all, p + 1), p, all[p + 1], 0)
  {
    var rest, n := RemoveAt(all, p + 1), all[p + 1];
    RemovedTowers(all, p + 1);
    RemoveThenInsert(all, p + 1);
    forall a, j | 0 <= a < |rest| && 0 <= j <= rest[a].nodeLevel
      ensures rest[a].forward[j] == if j <= n.nodeLevel && a <= p && Next(rest, a, j) > p then n else Link(rest, a, j)
    {
      LinkInserted(rest, p, n, if a <= p then a else a + 1, j);
    }
    forall j | 0 <= j <= n.nodeLevel
      ensures n.forward[j] == Link(rest, p, j)
    {
      LinkInserted(rest, p, n, p + 1, j);
    }
  }
}
