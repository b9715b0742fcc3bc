/** Timers and the binary heap that keeps the earliest of them on top. */
module TimerHeap {

  const SIZE_RANGE: nat := 0x1_0000_0000_0000_0000

  /** When a timer made at now is due. The sum is one of unsigned 64-bit numbers. */
  function Deadline(now: nat, timeout: int): (e: nat)
    ensures 0 <= now + timeout < 0x1_0000_0000_0000_0000 ==> e == now + timeout
    ensures -0x1_0000_0000_0000_0000 <= now + timeout < 0 ==> e == now + timeout + 0x1_0000_0000_0000_0000
  {
    (now + timeout) % SIZE_RANGE
  }

  class TimerNode {
    var expiration: nat
    const interval: nat
    const repeat: bool
    var deleted: bool

    /** now is what the clock says when the timer is made. */
    constructor (now: nat, timeout: int, interval: nat)
      ensures expiration == Deadline(now, timeout) && this.interval == interval
      ensures (repeat <==> interval > 0) && !deleted
    {
      this.expiration := Deadline(now, timeout);
      this.interval, this.repeat, this.deleted := interval, interval > 0, false;
    }

    /** Not due yet; a due timer is marked deleted on the way. */
    method IsValid(now: nat) returns (valid: bool)
      modifies this`deleted
      ensures valid <==> now < expiration
      ensures deleted == if valid then old(deleted) else true
    {
      if now < expiration {
        return true;
      }
      deleted := true;
      return false;
    }

    method Restart(now: nat)
      modifies this
      ensures expiration == if repeat then old(expiration) + interval else now
      ensures deleted == if repeat then false else old(deleted)
    {
      if repeat {
        expiration := expiration + interval;
        deleted := false;
      } else {
        expiration := now;
      }
    }
  }

  ghost predicate Differ(h: seq<TimerNode>, i: nat, j: nat)
    requires i < |h| && j < |h|
  {
    h[i] != h[j]
  }

  ghost predicate Distinct(h: seq<TimerNode>) {
    forall i: nat, j: nat {:trigger Differ(h, i, j)} :: i < j < |h| ==> Differ(h, i, j)
  }

  ghost function Nodes(h: seq<TimerNode>): (r: set<TimerNode>) {
    set n | n in h
  }

  lemma {:induction false} CountNodes(h: seq<TimerNode>)
    ensures |Nodes(h)| <= |h| && (Distinct(h) ==> |Nodes(h)| == |h|)
  {
    if h == [] {
      assert Nodes(h) == {};
    } else {
      var n := |h| - 1;
      CountNodes(h[..n]);
      assert Nodes(h) == Nodes(h[..n]) + {h[n]};
      if Distinct(h) {
        forall i: nat, j: nat | i < j < n
          ensures Differ(h[..n], i, j)
        {
          assert Differ(h, i, j);
        }
        forall i: nat | i < n
          ensures h[i] != h[n]
        {
          assert Differ(h, i, n);
        }
        assert h[n] !in Nodes(h[..n]);
      }
    }
  }

  /** Pushing a timer that is queued already, wherever it ends up, has it queued twice. */
  lemma {:induction false} PushedTwice(h: seq<TimerNode>, n: TimerNode, r: seq<TimerNode>)
    requires n in h && |r| == |h| + 1 && Nodes(r) == Nodes(h) + {n}
    ensures !Distinct(r)
  {
    assert Nodes(r) == Nodes(h);
    CountNodes(h);
    CountNodes(r);
  }

  function Parent(i: nat): (p: nat)
    ensures i > 0 ==> p < i
  {
    if i == 0 then 0 else (i - 1) / 2
  }

  /** The node at i expires no later than the one at j. */
  ghost predicate InOrder(h: seq<TimerNode>, i: nat, j: nat)
    requires i < |h| && j < |h|
    reads h`expiration
  {
    h[i].expiration <= h[j].expiration
  }

  /** No node expires before its parent. */
  ghost predicate IsHeap(h: seq<TimerNode>)
    reads h`expiration
  {
    forall j: nat {:trigger Parent(j)} :: 0 < j < |h| ==> InOrder(h, Parent(j), j)
  }

  /** As a heap, but the node at i may expire before its parent. */
  ghost predicate RisingAt(h: seq<TimerNode>, i: nat)
    requires i < |h|
    reads h`expiration
  {
    && (forall j: nat {:trigger Parent(j)} :: 0 < j < |h| && j != i ==> InOrder(h, Parent(j), j))
    && (forall j: nat {:trigger Parent(j)} :: 0 < j < |h| && Parent(j) == i ==> InOrder(h, Parent(i), j))
  }

  /** As a heap, but the node at i may expire after its children. */
  ghost predicate SinkingAt(h: seq<TimerNode>, i: nat)
    requires i < |h|
    reads h`expiration
  {
    && (forall j: nat {:trigger Parent(j)} :: 0 < j < |h| && Parent(j) != i ==> InOrder(h, Parent(j), j))
    && (forall j: nat {:trigger Parent(j)} :: 0 < j < |h| && Parent(j) == i && i > 0 ==> InOrder(h, Parent(i), j))
  }

  /** The top of a heap expires first. */
  lemma {:induction false} TopIsEarliest(h: seq<TimerNode>, i: nat)
    requires IsHeap(h) && i < |h|
    ensures InOrder(h, 0, i)
  {
    if i > 0 {
      TopIsEarliest(h, Parent(i));
    }
  }

  function Swapped(h: seq<TimerNode>, i: nat, p: nat): (r: seq<TimerNode>)
    requires p < i < |h|
    ensures |r| == |h| && r[i] == h[p] && r[p] == h[i]
    ensures forall k {:trigger r[k]} :: 0 <= k < |h| && k != i && k != p ==> r[k] == h[k]
  {
    h[i := h[p]][p := h[i]]
  }

  lemma {:induction false} SwappedKeepsNodes(h: seq<TimerNode>, i: nat, p: nat)
    requires p < i < |h| && Distinct(h)
    ensures Nodes(Swapped(h, i, p)) == Nodes(h) && Distinct(Swapped(h, i, p))
  {
    var r := Swapped(h, i, p);
    forall n | n in h
      ensures n in r
    {
      var k :| 0 <= k < |h| && h[k] == n;
      assert r[if k == i then p else if k == p then i else k] == n;
    }
    forall n | n in r
      ensures n in h
    {
      var k :| 0 <= k < |r| && r[k] == n;
      assert h[if k == i then p else if k == p then i else k] == n;
    }
    forall a: nat, b: nat | a < b < |r|
      ensures Differ(r, a, b)
    {
      var c: nat := if a == i then p else if a == p then i else a;
      var d: nat := if b == i then p else if b == p then i else b;
      assert if c < d then Differ(h, c, d) else Differ(h, d, c);
    }
  }

  lemma {:induction false} RaiseOnce(h: seq<TimerNode>, i: nat)
    requires 0 < i < |h| && RisingAt(h, i)
    requires h[Parent(i)].expiration > h[i].expiration
    ensures RisingAt(Swapped(h, i, Parent(i)), Parent(i))
  {
  }

  lemma {:induction false} SinkOnce(h: seq<TimerNode>, i: nat, c: nat)
    requires i < c < |h| && Parent(c) == i && SinkingAt(h, i)
    requires h[c].expiration < h[i].expiration
    requires forall j: nat {:trigger Parent(j)} :: 0 < j < |h| && Parent(j) == i ==> InOrder(h, c, j)
    ensures SinkingAt(Swapped(h, c, i), c)
  {
  }

  /** std::push_heap: up while the parent expires strictly later. */
  method SiftUp(h: seq<TimerNode>) returns (r: seq<TimerNode>)
    requires |h| > 0 && RisingAt(h, |h| - 1) && Distinct(h)
    ensures IsHeap(r) && Distinct(r) && |r| == |h| && Nodes(r) == Nodes(h)
    ensures r[0] == if h[|h| - 1].expiration < h[0].expiration then h[|h| - 1] else h[0]
  {
    r := h;
    var i: nat := |h| - 1;
    while i > 0 && r[Parent(i)].expiration > r[i].expiration
      invariant i < |r| == |h|
      invariant r[i] == h[|h| - 1] && Distinct(r) && Nodes(r) == Nodes(h)
      invariant RisingAt(r, i)
      invariant if i > 0 then r[0] == h[0] else i == |h| - 1 || r[i].expiration < h[0].expiration
    {
      RaiseOnce(r, i);
      SwappedKeepsNodes(r, i, Parent(i));
      r := Swapped(r, i, Parent(i));
      i := Parent(i);
    }
    if i > 0 {
      assert IsHeap(r);
      TopIsEarliest(r, i);
    }
  }

  lemma {:induction false} AddedKeepsDistinct(h: seq<TimerNode>, n: TimerNode)
    requires Distinct(h) && n !in h
    ensures Distinct(h + [n]) && Nodes(h + [n]) == Nodes(h) + {n}
  {
    forall a: nat, b: nat | a < b < |h + [n]|
      ensures Differ(h + [n], a, b)
    {
      if b < |h| {
        assert Differ(h, a, b);
      }
    }
  }

  /** std::priority_queue::push. */
  method Push(h: seq<TimerNode>, n: TimerNode) returns (r: seq<TimerNode>)
    requires IsHeap(h) && Distinct(h) && n !in h
    ensures IsHeap(r) && Distinct(r) && Nodes(r) == Nodes(h) + {n} && |r| == |h| + 1
    ensures r[0] == if h == [] || n.expiration < h[0].expiration then n else h[0]
  {
    var g := h + [n];
    AddedKeepsDistinct(h, n);
    forall j: nat | 0 < j < |g| && j != |h|
      ensures InOrder(g, Parent(j), j)
    {
      assert InOrder(h, Parent(j), j);
    }
    forall j: nat | 0 < j < |g|
      ensures Parent(j) != |h|
    {
    }
    r := SiftUp(g);
  }

  /** The child of i that expires first, or i itself when it has none. */
  function EarlierChild(h: seq<TimerNode>, i: nat): (c: nat)
    requires i < |h|
    reads h`expiration
    ensures i <= c < |h|
    ensures c > i ==> Parent(c) == i
    ensures c == i ==> 2 * i + 1 >= |h|
    ensures forall j: nat {:trigger Parent(j)} :: 0 < j < |h| && Parent(j) == i ==> InOrder(h, c, j)
  {
    if 2 * i + 1 >= |h| then i
    else if 2 * i + 2 < |h| && h[2 * i + 2].expiration < h[2 * i + 1].expiration then 2 * i + 2
    else 2 * i + 1
  }

  method SiftDown(h: seq<TimerNode>) returns (r: seq<TimerNode>)
    requires |h| > 0 && SinkingAt(h, 0) && Distinct(h)
    ensures IsHeap(r) && Distinct(r) && Nodes(r) == Nodes(h)
  {
    r := h;
    var i: nat := 0;
    while r[EarlierChild(r, i)].expiration < r[i].expiration
      invariant i < |r| == |h|
      invariant Distinct(r) && Nodes(r) == Nodes(h)
      invariant SinkingAt(r, i)
      decreases |h| - i
    {
      var c := EarlierChild(r, i);
      SinkOnce(r, i, c);
      SwappedKeepsNodes(r, c, i);
      r := Swapped(r, c, i);
      i := c;
    }
  }

  /** std::priority_queue::pop: the last node takes the place of the top and sinks. */
  method Pop(h: seq<TimerNode>) returns (r: seq<TimerNode>)
    requires |h| > 0 && IsHeap(h) && Distinct(h)
    ensures IsHeap(r) && Distinct(r) && Nodes(r) == Nodes(h) - {h[0]}
  {
    if |h| == 1 {
      assert Nodes(h) == {h[0]};
      return [];
    }
    var g := h[..|h| - 1][0 := h[|h| - 1]];
    TakeOutTop(h);
    r := SiftDown(g);
  }

  lemma {:induction false} TakeOutTop(h: seq<TimerNode>)
    requires |h| > 1 && IsHeap(h) && Distinct(h)
    ensures var g := h[..|h| - 1][0 := h[|h| - 1]]; SinkingAt(g, 0) && Distinct(g) && Nodes(g) == Nodes(h) - {h[0]}
  {
    var g := h[..|h| - 1][0 := h[|h| - 1]];
    forall j: nat | 0 < j < |g| && Parent(j) != 0
      ensures InOrder(g, Parent(j), j)
    {
      assert InOrder(h, Parent(j), j);
    }
    forall n | n in h && n != h[0]
      ensures n in g
    {
      var k :| 0 <= k < |h| && h[k] == n;
      assert g[if k == |h| - 1 then 0 else k] == n;
    }
    forall n | n in g
      ensures n in h && n != h[0]
    {
      var k :| 0 <= k < |g| && g[k] == n;
      var l: nat := if k == 0 then |h| - 1 else k;
      assert n == h[l] && Differ(h, 0, l);
    }
    forall a: nat, b: nat | a < b < |g|
      ensures Differ(g, a, b)
    {
      assert if a == 0 then Differ(h, b, |h| - 1) else Differ(h, a, b);
    }
  }
}
