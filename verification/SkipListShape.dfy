/** What the invariant of the skip list means level by level. */
module SkipListShape {
  import opened Keys
  import opened Entries
  import opened SkipNode
  import opened SkipLists

  /** The towers that reach level i. */
  ghost function OnLevel(ns: seq<Node>, i: nat): seq<Node> {
    if ns == [] then []
    else if ns[0].nodeLevel >= i then [ns[0]] + OnLevel(ns[1..], i)
    else OnLevel(ns[1..], i)
  }

  /** Following the links of level i from `from` visits exactly ns and ends in null. */
  ghost predicate Chain(from: Node?, i: nat, ns: seq<Node>)
    reads set a | 0 <= a < |ns| :: ns[a].forward
  {
    if ns == [] then from == null
    else from == ns[0] && i < ns[0].forward.Length && Chain(ns[0].forward[i], i, ns[1..])
  }

  ghost predicate KeysIncrease(ns: seq<Node>) {
    forall x, y {:trigger Less(ns[x].key, ns[y].key)} :: 0 <= x < y < |ns| ==> Less(ns[x].key, ns[y].key)
  }

  lemma {:induction false} LinkedChain(all: seq<Node>, a: nat, i: nat)
    requires Towers(all) && Linked(all) && a < |all|
    ensures Chain(Link(all, a, i), i, OnLevel(all[a + 1..], i))
    decreases |all| - a
  {
    if a + 1 < |all| {
      LinkedChain(all, a + 1, i);
      assert all[a + 1..][1..] == all[a + 2..];
      if all[a + 1].nodeLevel < i {
        NextIs(all, a, i, Next(all, a + 1, i));
      } else {
        NextIs(all, a, i, a + 1);
        assert all[a + 1].forward[i] == Link(all, a + 1, i);
        assert OnLevel(all[a + 1..], i)[1..] == OnLevel(all[a + 2..], i);
      }
    }
  }

  lemma {:induction false} OnLevelAt(ns: seq<Node>, i: nat, y: nat) returns (z: nat)
    requires y < |OnLevel(ns, i)|
    ensures z < |ns| && ns[z] == OnLevel(ns, i)[y] && ns[z].nodeLevel >= i
  {
    if ns[0].nodeLevel >= i && y == 0 {
      z := 0;
    } else {
      z := OnLevelAt(ns[1..], i, if ns[0].nodeLevel >= i then y - 1 else y);
      z := z + 1;
    }
  }

  lemma {:induction false} OnLevelNonEmpty(ns: seq<Node>, i: nat, z: nat)
    requires z < |ns| && ns[z].nodeLevel >= i
    ensures OnLevel(ns, i) != []
  {
    if z > 0 {
      OnLevelNonEmpty(ns[1..], i, z - 1);
    }
  }

  lemma {:induction false} OnLevelIncreasing(ns: seq<Node>, i: nat)
    requires KeysIncrease(ns)
    ensures KeysIncrease(OnLevel(ns, i))
  {
    if ns != [] {
      assert KeysIncrease(ns[1..]) by {
        forall x, y | 0 <= x < y < |ns[1..]|
          ensures Less(ns[1..][x].key, ns[1..][y].key)
        {
          assert Less(ns[x + 1].key, ns[y + 1].key);
        }
      }
      OnLevelIncreasing(ns[1..], i);
      var rest := OnLevel(ns[1..], i);
      forall y | 0 <= y < |rest|
        ensures Less(ns[0].key, rest[y].key)
      {
        var z := OnLevelAt(ns[1..], i, y);
        assert Less(ns[0].key, ns[z + 1].key);
      }
      if ns[0].nodeLevel >= i {
        var l := [ns[0]] + rest;
        forall x, y | 0 <= x < y < |l|
          ensures Less(l[x].key, l[y].key)
        {
          assert x > 0 ==> Less(rest[x - 1].key, rest[y - 1].key);
        }
      }
    }
  }

  /** The whole shape: each level is the increasing nil-ended chain of its towers, and the levels
      that have any are exactly those up to curLevel. */
  lemma {:induction false} LevelShape(s: SkipList, i: nat)
    requires s.Valid() && i <= s.maxLevel
    ensures s.header.forward.Length == s.maxLevel + 1
    ensures Chain(s.header.forward[i], i, OnLevel(s.view.nodes, i))
    ensures KeysIncrease(OnLevel(s.view.nodes, i))
    ensures OnLevel(s.view.nodes, i) != [] <==> i <= s.curLevel && s.Contents() != map[]
  {
    var all, ns := s.All(), s.view.nodes;
    assert all[0] == s.header && all[1..] == ns;
    LinkedChain(all, 0, i);
    assert KeysIncrease(ns) by {
      forall x, y | 0 <= x < y < |ns|
        ensures Less(ns[x].key, ns[y].key)
      {
        assert Less(KeysOf(s.view.entries)[x], KeysOf(s.view.entries)[y]);
      }
    }
    OnLevelIncreasing(ns, i);
    NonEmptyLevels(ns, s.curLevel, i);
    ToMapSize(s.view.entries);
  }

  lemma {:induction false} NonEmptyLevels(ns: seq<Node>, cur: nat, i: nat)
    requires Tallest(ns, cur)
    ensures OnLevel(ns, i) != [] <==> i <= cur && ns != []
  {
    if OnLevel(ns, i) != [] {
      var z := OnLevelAt(ns, i, 0);
    }
    if i <= cur && ns != [] {
      var a :| 0 <= a < |ns| && ns[a].nodeLevel >= i;
      OnLevelNonEmpty(ns, i, a);
    }
  }
}
