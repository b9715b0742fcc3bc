/** The skip list of the storage engine: towers on the heap that refine a finite map. */
module SkipLists {
  import opened Keys
  import opened Seqs
  import opened Entries
  import opened Options
  import opened SkipNode
  import opened StoreFile
  import opened Text

  ghost function WithHeader(header: Node, ns: seq<Node>): seq<Node> {
    InsertAt(ns, 0, header)
  }

  /** The level-0 nodes hold exactly these entries, in this order. */
  ghost predicate Hold(ns: seq<Node>, es: seq<Entry>)
    reads ns
  {
    |ns| == |es| && forall i :: 0 <= i < |ns| ==> ns[i].key == es[i].0 && ns[i].value == es[i].1
  }

  /** cur is the height of the tallest tower, 0 for the empty list. */
  ghost predicate Tallest(ns: seq<Node>, cur: nat) {
    && (forall a :: 0 <= a < |ns| ==> ns[a].nodeLevel <= cur)
    && (cur > 0 ==> exists a :: 0 <= a < |ns| && ns[a].nodeLevel == cur)
  }

  lemma {:induction false} TallestInserted(ns: seq<Node>, cur: nat, p: nat, n: Node)
    requires Tallest(ns, cur) && p <= |ns|
    ensures Tallest(InsertAt(ns, p, n), if n.nodeLevel > cur then n.nodeLevel else cur)
  {
    var ns' := InsertAt(ns, p, n);
    assert ns'[p] == n;
    if n.nodeLevel <= cur && cur > 0 {
      var a :| 0 <= a < |ns| && ns[a].nodeLevel == cur;
      assert ns'[if a < p then a else a + 1] == ns[a];
    }
  }

  lemma {:induction false} HeaderInserted(header: Node, ns: seq<Node>, p: nat, n: Node)
    requires p <= |ns|
    ensures WithHeader(header, InsertAt(ns, p, n)) == InsertAt(WithHeader(header, ns), p + 1, n)
  {
  }

  /** The nodes, their entries and the map agree. */
  ghost predicate Agrees(view: View)
    reads view.nodes
  {
    Hold(view.nodes, view.entries) && Sorted(view.entries) && ToMap(view.entries) == view.contents
  }

  ghost function ViewInserted(v: View, p: nat, n: Node): View
    requires p <= |v.entries| && p <= |v.nodes|
    reads n
  {
    View(v.contents[n.key := n.value], InsertAt(v.entries, p, (n.key, n.value)), InsertAt(v.nodes, p, n))
  }

  lemma {:induction false} AgreesInserted(v: View, p: nat, n: Node)
    requires Agrees(v) && Cut(KeysOf(v.entries), n.key, p) && n.key !in v.contents
    ensures Agrees(ViewInserted(v, p, n))
  {
    AtCut(v.entries, n.key, p);
    ToMapInsert(v.entries, p, (n.key, n.value));
  }

  /** The objects the list is made of are among repr. */
  ghost predicate Owned(repr: set<object>, header: Node, ns: seq<Node>) {
    && header in repr && header.forward in repr
    && (forall a :: 0 <= a < |ns| ==> ns[a] in repr && ns[a].forward in repr)
  }

  lemma {:induction false} OwnedInserted(repr: set<object>, header: Node, ns: seq<Node>, p: nat, n: Node)
    requires Owned(repr, header, ns) && p <= |ns|
    ensures Owned(repr + {n, n.forward}, header, InsertAt(ns, p, n))
  {
  }

  /** The towers 1 to p are the ones below the key; tower 0 is the header. */
  ghost predicate Splits(all: seq<Node>, key: string, p: nat) {
    p < |all| && forall a :: 0 < a < |all| ==> (Less(all[a].key, key) <==> a <= p)
  }

  lemma {:induction false} CutSplits(header: Node, ns: seq<Node>, es: seq<Entry>, key: string) returns (p: nat)
    requires Hold(ns, es) && Sorted(es)
    ensures Cut(KeysOf(es), key, p) && Splits(WithHeader(header, ns), key, p)
    ensures key in ToMap(es) <==> p < |ns| && ns[p].key == key
    ensures key in ToMap(es) ==> ToMap(es)[key] == ns[p].value
  {
    p := FindCut(KeysOf(es), key);
    AtCut(es, key, p);
    var all := WithHeader(header, ns);
    forall a | 0 < a < |all|
      ensures Less(all[a].key, key) <==> a <= p
    {
      assert all[a].key == KeysOf(es)[a - 1];
    }
  }

  lemma {:induction false} OwnedRemoved(repr: set<object>, header: Node, ns: seq<Node>, p: nat)
    requires Owned(repr, header, ns) && p < |ns|
    ensures Owned(repr, header, RemoveAt(ns, p))
  {
  }

  lemma {:induction false} HeaderRemoved(header: Node, ns: seq<Node>, p: nat)
    requires p < |ns|
    ensures WithHeader(header, RemoveAt(ns, p)) == RemoveAt(WithHeader(header, ns), p + 1)
  {
  }

  ghost function ViewRemoved(v: View, p: nat): View
    requires p < |v.entries| && p < |v.nodes|
  {
    View(v.contents - {v.entries[p].0}, RemoveAt(v.entries, p), RemoveAt(v.nodes, p))
  }

  lemma {:induction false} AgreesRemoved(v: View, p: nat)
    requires Agrees(v) && p < |v.entries|
    ensures Agrees(ViewRemoved(v, p))
  {
    ToMapRemove(v.entries, p);
  }

  /** Whether the top level is empty shows in the header's link. */
  lemma {:induction false} LevelFromTop(header: Node, ns: seq<Node>, top: nat)
    requires forall a :: 0 <= a < |ns| ==> ns[a].nodeLevel <= top
    ensures var all := WithHeader(header, ns);
      if Link(all, 0, top) == null then
        forall a :: 0 <= a < |ns| ==> ns[a].nodeLevel < top
      else
        Tallest(ns, top)
  {
    var all := WithHeader(header, ns);
    var b := Next(all, 0, top);
    if b == |all| {
      forall a | 0 <= a < |ns|
        ensures ns[a].nodeLevel < top
      {
        assert all[a + 1] == ns[a];
      }
    } else {
      assert ns[b - 1].nodeLevel == top;
    }
  }

  method GetRandomLevel(maxLevel: nat) returns (k: nat)
    ensures k <= maxLevel
  {
    k :| k <= maxLevel;
  }

  /** The map, its entries in key order, and the level-0 nodes that hold them. */
  datatype View = View(contents: map<string, string>, entries: seq<Entry>, nodes: seq<Node>)

  class SkipList {
    const maxLevel: nat
    var curLevel: nat
    const header: Node
    var elementCount: nat
    ghost var view: View
    ghost var Repr: set<object>

    /** The finite map the list stands for. */
    ghost function Contents(): map<string, string>
      reads this
    {
      view.contents
    }

    ghost function All(): seq<Node>
      reads this
    {
      WithHeader(header, view.nodes)
    }

    ghost predicate Valid()
      reads this, Repr
      ensures Valid() ==> this in Repr
    {
      && this in Repr && Owned(Repr, header, view.nodes)
      && elementCount == |view.entries|
      && header.nodeLevel == maxLevel && curLevel <= maxLevel
      && Tallest(view.nodes, curLevel)
      && Agrees(view)
      && Towers(All())
      && Linked(All())
    }

    constructor (maxLevel: nat)
      ensures Valid() && fresh(Repr)
      ensures this.maxLevel == maxLevel
      ensures Contents() == map[]
    {
      this.maxLevel := maxLevel;
      curLevel, elementCount := 0, 0;
      var h := new Node("", "", maxLevel);
      header := h;
      view := View(map[], [], []);
      Repr := {this, h, h.forward};
    }

    method Size() returns (n: nat)
      requires Valid()
      ensures n == |Contents()|
    {
      ToMapSize(view.entries);
      n := elementCount;
    }

    /** The inner loop of every descent: along level i to the last node below the key. */
    method Advance(start: Node, i: nat, key: string, ghost all: seq<Node>, ghost a: nat, ghost p: nat)
      returns (current: Node, ghost b: nat)
      requires Towers(all) && Linked(all) && Splits(all, key, p)
      requires a <= p && all[a] == start && i <= start.nodeLevel && i <= all[0].nodeLevel
      ensures IsPred(all, p, i, b) && current == all[Prev(all, p, i)] && b == Prev(all, p, i)
    {
      current, b := start, a;
      while current.forward[i] != null && Less(current.forward[i].key, key)
        invariant b <= p && all[b] == current && i <= current.nodeLevel
        decreases p - b
      {
        current, b := current.forward[i], Next(all, b, i);
      }
      PredIsPrev(all, p, i, b);
    }

    method SearchElement(key: string) returns (r: Option<string>)
      requires Valid()
      ensures r == if key in Contents() then Some(Contents()[key]) else None
    {
      ghost var p := CutSplits(header, view.nodes, view.entries, key);
      ghost var all := All();
      var current := header;
      ghost var b: nat := 0;
      for i := curLevel + 1 downto 0
        invariant b <= p && all[b] == current && i <= current.nodeLevel + 1
        invariant i <= curLevel ==> IsPred(all, p, i, b)
      {
        current, b := Advance(current, i, key, all, b, p);
      }
      PredOnGround(all, p, b);
      current := current.forward[0];
      if current != null && current.key == key {
        return Some(current.value);
      }
      return None;
    }

    /** The descent that remembers, level by level, the last node below the key. */
    method FindPredecessors(key: string, ghost all: seq<Node>, ghost p: nat) returns (update: array<Node?>)
      requires all == All() && curLevel <= maxLevel == header.nodeLevel
      requires Towers(all) && Linked(all) && Splits(all, key, p)
      ensures fresh(update) && update.Length == maxLevel + 1
      ensures forall i :: 0 <= i <= curLevel ==> update[i] == all[Prev(all, p, i)]
    {
      update := new Node?[maxLevel + 1](_ => null);
      var current := header;
      ghost var b: nat := 0;
      for i := curLevel + 1 downto 0
        invariant b <= p && all[b] == current && i <= current.nodeLevel + 1
        invariant forall j :: i <= j <= curLevel ==> update[j] == all[Prev(all, p, j)]
      {
        current, b := Advance(current, i, key, all, b, p);
        update[i] := current;
      }
    }

    /** The predecessors of a key on every level and the node that follows them on level 0. */
    method Locate(key: string) returns (update: array<Node?>, current: Node?, ghost p: nat)
      requires Valid()
      ensures fresh(update) && update.Length == maxLevel + 1
      ensures Cut(KeysOf(view.entries), key, p)
      ensures forall i :: 0 <= i <= curLevel ==> update[i] == All()[Prev(All(), p, i)]
      ensures current == if p < |view.nodes| then view.nodes[p] else null
      ensures key in Contents() <==> current != null && current.key == key
    {
      p := CutSplits(header, view.nodes, view.entries, key);
      update := FindPredecessors(key, All(), p);
      PredOnGround(All(), p, Prev(All(), p, 0));
      current := update[0].forward[0];
    }

    method InsertElement(key: string, value: string) returns (existed: int)
      requires Valid()
      modifies Repr
      ensures Valid() && fresh(Repr - old(Repr))
      ensures existed == if key in old(Contents()) then 1 else 0
      ensures Contents() == old(Contents())[key := value]
    {
      var update, current, p := Locate(key);
      if current != null && current.key == key {
        Overwrite(current, value, p);
        return 1;
      }
      InsertNew(key, value, update, p);
      return 0;
    }

    /** The key is new: a tower of a random height is built, spliced in and accounted for. */
    method InsertNew(key: string, value: string, update: array<Node?>, ghost p: nat)
      requires Valid() && Cut(KeysOf(view.entries), key, p) && key !in Contents()
      requires update.Length == maxLevel + 1 && update !in Arrays(All())
      requires forall i :: 0 <= i <= curLevel ==> update[i] == All()[Prev(All(), p, i)]
      modifies this, Arrays(All()), update
      ensures Valid() && fresh(Repr - old(Repr))
      ensures Contents() == old(Contents())[key := value]
    {
      var level := GetRandomLevel(maxLevel);
      var n := LinkIn(key, value, level, update, p);
      Adopt(n, p);
    }

    /** The key is there: only its value changes. */
    method Overwrite(n: Node, value: string, ghost p: nat)
      requires Valid() && p < |view.nodes| && view.nodes[p] == n
      modifies this, n
      ensures Valid() && Repr == old(Repr)
      ensures Contents() == old(Contents())[n.key := value]
    {
      forall i | 0 <= i < |view.nodes| && i != p
        ensures view.nodes[i] != n
      {
        assert Apart(All()[i + 1], All()[p + 1]);
      }
      ToMapUpdate(view.entries, p, (n.key, value));
      n.SetValue(value);
      view := View(view.contents[n.key := value], view.entries[p := (n.key, value)], view.nodes);
    }

    /** Above the current height the header is the predecessor. */
    method RaiseTo(update: array<Node?>, level: nat, ghost p: nat)
      requires Tallest(view.nodes, curLevel) && p <= |view.nodes| && curLevel < level <= maxLevel == header.nodeLevel
      requires update.Length == maxLevel + 1
      requires forall i :: 0 <= i <= curLevel ==> update[i] == All()[Prev(All(), p, i)]
      modifies update
      ensures forall i :: 0 <= i <= level ==> update[i] == All()[Prev(All(), p, i)]
    {
      ghost var all := All();
      for i := curLevel + 1 to level + 1
        invariant forall j :: 0 <= j < i ==> update[j] == all[Prev(all, p, j)]
      {
        update[i] := header;
      }
    }

    /** A tower of the given height is built and spliced in. */
    method LinkIn(key: string, value: string, level: nat, update: array<Node?>, ghost p: nat) returns (n: Node)
      requires Towers(All()) && Linked(All()) && Tallest(view.nodes, curLevel)
      requires curLevel <= maxLevel == header.nodeLevel && level <= maxLevel && p <= |view.nodes|
      requires update.Length == maxLevel + 1 && update !in Arrays(All())
      requires forall i :: 0 <= i <= curLevel ==> update[i] == All()[Prev(All(), p, i)]
      modifies Arrays(All()), update
      ensures fresh(n) && fresh(n.forward) && n.key == key && n.value == value && n.nodeLevel == level
      ensures var all' := WithHeader(header, InsertAt(view.nodes, p, n)); Towers(all') && Linked(all')
    {
      if level > curLevel {
        RaiseTo(update, level, p);
      }
      n := SpliceNew(key, value, level, update, p);
    }

    method SpliceNew(key: string, value: string, level: nat, update: array<Node?>, ghost p: nat) returns (n: Node)
      requires Towers(All()) && Linked(All()) && level <= header.nodeLevel && p <= |view.nodes|
      requires update.Length > level && update !in Arrays(All())
      requires forall i :: 0 <= i <= level ==> update[i] == All()[Prev(All(), p, i)]
      modifies Arrays(All())
      ensures fresh(n) && fresh(n.forward) && n.key == key && n.value == value && n.nodeLevel == level
      ensures var all' := WithHeader(header, InsertAt(view.nodes, p, n)); Towers(all') && Linked(all')
    {
      n := new Node(key, value, level);
      SpliceAll(n, update, All(), p);
      HeaderInserted(header, view.nodes, p, n);
    }

    /** After the splice the counters follow ... */
    method Adopt(n: Node, ghost p: nat)
      requires this in Repr && Owned(Repr, header, view.nodes)
      requires elementCount == |view.entries| && Agrees(view) && Tallest(view.nodes, curLevel)
      requires curLevel <= maxLevel == header.nodeLevel && n.nodeLevel <= maxLevel
      requires Cut(KeysOf(view.entries), n.key, p) && n.key !in Contents()
      requires var all' := WithHeader(header, InsertAt(view.nodes, p, n)); Towers(all') && Linked(all')
      modifies this
      ensures Valid() && Repr == old(Repr) + {n, n.forward}
      ensures Contents() == old(Contents())[n.key := n.value]
    {
      CountIn(n, p);
      Install(n, p);
    }

    /** ... and the ghost state. */
    ghost method Install(n: Node, p: nat)
      requires this in Repr && Owned(Repr, header, view.nodes)
      requires elementCount == |view.entries| + 1 && Agrees(view)
      requires curLevel <= maxLevel == header.nodeLevel
      requires Cut(KeysOf(view.entries), n.key, p) && n.key !in Contents()
      requires Tallest(InsertAt(view.nodes, p, n), curLevel)
      requires var all' := WithHeader(header, InsertAt(view.nodes, p, n)); Towers(all') && Linked(all')
      modifies this`view, this`Repr
      ensures Valid() && Repr == old(Repr) + {n, n.forward}
      ensures Contents() == old(Contents())[n.key := n.value]
    {
      AgreesInserted(view, p, n);
      OwnedInserted(Repr, header, view.nodes, p, n);
      view, Repr := ViewInserted(view, p, n), Repr + {n, n.forward};
    }

    method CountIn(n: Node, ghost p: nat)
      requires Tallest(view.nodes, curLevel) && p <= |view.nodes| && curLevel <= maxLevel && n.nodeLevel <= maxLevel
      modifies this`curLevel, this`elementCount
      ensures Tallest(InsertAt(view.nodes, p, n), curLevel) && curLevel <= maxLevel
      ensures elementCount == old(elementCount) + 1
    {
      TallestInserted(view.nodes, curLevel, p, n);
      if n.nodeLevel > curLevel {
        curLevel := n.nodeLevel;
      }
      elementCount := elementCount + 1;
    }

    method DeleteElement(key: string) returns (existed: bool)
      requires Valid()
      modifies Repr
      ensures Valid() && fresh(Repr - old(Repr))
      ensures existed <==> key in old(Contents())
      ensures Contents() == old(Contents()) - {key}
    {
      var update, current, p := Locate(key);
      if current != null && current.key == key {
        DeleteNode(current, update, p);
        return true;
      }
      return false;
    }

    method DeleteNode(n: Node, update: array<Node?>, ghost p: nat)
      requires Valid() && p < |view.nodes| && view.nodes[p] == n
      requires update.Length == maxLevel + 1 && update !in Arrays(All())
      requires forall i :: 0 <= i <= curLevel ==> update[i] == All()[Prev(All(), p, i)]
      modifies this, Arrays(All())
      ensures Valid() && Repr == old(Repr)
      ensures Contents() == old(Contents()) - {n.key}
    {
      Unlink(n, update, p);
      Dismiss(p);
      CountOut();
    }

    /** After the unlinking the ghost state follows. */
    ghost method Dismiss(p: nat)
      requires p < |view.nodes| && Agrees(view) && Owned(Repr, header, view.nodes)
      requires Tallest(view.nodes, curLevel)
      requires var rest := WithHeader(header, RemoveAt(view.nodes, p)); Towers(rest) && Linked(rest)
      modifies this`view
      ensures Agrees(view) && Owned(Repr, header, view.nodes) && Towers(All()) && Linked(All())
      ensures Contents() == old(Contents()) - {old(view.nodes)[p].key} && |view.entries| == |old(view.entries)| - 1
      ensures forall a :: 0 <= a < |view.nodes| ==> view.nodes[a].nodeLevel <= curLevel
      ensures header.forward.Length == header.nodeLevel + 1
    {
      AgreesRemoved(view, p);
      OwnedRemoved(Repr, header, view.nodes, p);
      view := ViewRemoved(view, p);
      assert All()[0].forward.Length == All()[0].nodeLevel + 1;
    }

    method CountOut()
      requires Towers(All()) && Linked(All()) && curLevel < header.forward.Length && elementCount > 0
      requires forall a :: 0 <= a < |view.nodes| ==> view.nodes[a].nodeLevel <= curLevel
      modifies this`curLevel, this`elementCount
      ensures curLevel <= old(curLevel) && Tallest(view.nodes, curLevel) && elementCount == old(elementCount) - 1
    {
      LowerHeight();
      elementCount := elementCount - 1;
    }

    method Unlink(n: Node, update: array<Node?>, ghost p: nat)
      requires Towers(All()) && Linked(All()) && curLevel <= header.nodeLevel
      requires p < |view.nodes| && view.nodes[p] == n && n.nodeLevel <= curLevel
      requires update.Length > curLevel && update !in Arrays(All())
      requires forall i :: 0 <= i <= curLevel ==> update[i] == All()[Prev(All(), p, i)]
      modifies Arrays(All())
      ensures var rest := WithHeader(header, RemoveAt(view.nodes, p)); Towers(rest) && Linked(rest)
    {
      ghost var all, rest := All(), RemoveAt(All(), p + 1);
      BeginUnlinking(all, p);
      forall i | 0 <= i <= curLevel
        ensures Prev(rest, p, i) == Prev(all, p, i)
      {
        RemovedPrev(all, p, i);
      }
      UnlinkAll(n, update, curLevel, rest, p);
      HeaderRemoved(header, view.nodes, p);
    }

    /** The empty levels at the top go; no empty level can be below a non-empty one. */
    method LowerHeight()
      requires Towers(All()) && Linked(All()) && curLevel < header.forward.Length
      requires forall a :: 0 <= a < |view.nodes| ==> view.nodes[a].nodeLevel <= curLevel
      modifies this`curLevel
      ensures curLevel <= old(curLevel) && Tallest(view.nodes, curLevel)
    {
      ghost var all, ns := All(), view.nodes;
      while curLevel > 0 && header.forward[curLevel] == null
        invariant curLevel <= old(curLevel) && curLevel < header.forward.Length
        invariant forall a :: 0 <= a < |ns| ==> ns[a].nodeLevel <= curLevel
      {
        LevelFromTop(header, ns, curLevel);
        curLevel := curLevel - 1;
      }
      if curLevel > 0 {
        LevelFromTop(header, ns, curLevel);
      }
    }

    /** Level 0 from left to right, one line per node. */
    method DumpFile() returns (text: string)
      requires Valid()
      ensures text == Dump(Contents())
    {
      text := "";
      ghost var i := 0;
      ghost var all, es := All(), view.entries;
      assert all[0] == header;
      PredOnGround(all, 0, 0);
      var node := header.forward[0];
      while node != null
        invariant i <= |es| && node == if i < |es| then view.nodes[i] else null
        invariant text == Render(es[..i])
        decreases |es| - i
      {
        RenderSnoc(es[..i], es[i]);
        assert es[..i + 1] == es[..i] + [es[i]];
        PredOnGround(all, i + 1, i + 1);
        text := text + node.key + ":" + node.value + "\n";
        node := node.forward[0];
        i := i + 1;
      }
      assert es[..i] == es;
      SortedUnique(es, Listing(Contents()));
    }

    /** Line by line; key and value keep what the last valid line gave them. */
    method LoadFile(text: string)
      requires Valid()
      modifies Repr
      ensures Valid() && fresh(Repr - old(Repr))
      ensures Contents() == LoadText(text, old(Contents()))
    {
      var rest, key, value := text, "", "";
      while rest != ""
        invariant Valid() && fresh(Repr - old(Repr))
        invariant LoadCarrying(Lines(rest), key, value, Contents())
               == LoadCarrying(Lines(text), "", "", old(Contents()))
        decreases |rest|
      {
        var i := Find(rest, '\n');
        var line := rest[..i];
        assert i == |rest| ==> line == rest && Lines("") == [];
        assert Lines(rest) == [line] + Lines(if i < |rest| then rest[i + 1..] else "");
        rest := if i < |rest| then rest[i + 1..] else "";
        if IsValid(line) {
          key, value := KeyPart(line), ValuePart(line);
        }
        if key == "" || value == "" {
          continue;
        }
        var _ := InsertElement(key, value);
      }
      CarryingIsHarmless(Lines(text), "", "", old(Contents()));
    }
  }
}
