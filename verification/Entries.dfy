/** Key-ordered lists of entries and the finite maps they stand for. */
module Entries {
  import opened Keys
  import opened Seqs

  type Entry = (string, string)

  ghost function KeysOf(es: seq<Entry>): (ks: seq<string>)
    ensures |ks| == |es|
    ensures forall i :: 0 <= i < |es| ==> ks[i] == es[i].0
  {
    seq(|es|, i requires 0 <= i < |es| => es[i].0)
  }

  ghost predicate Sorted(es: seq<Entry>) {
    Increasing(KeysOf(es))
  }

  /** Later entries override earlier ones. */
  function ToMap(es: seq<Entry>): map<string, string> {
    if es == [] then map[] else ToMap(es[..|es| - 1])[es[|es| - 1].0 := es[|es| - 1].1]
  }

  lemma {:induction false} KeyPosition(es: seq<Entry>, k: string) returns (i: nat)
    requires k in ToMap(es)
    ensures i < |es| && es[i].0 == k
  {
    var n := |es| - 1;
    if es[n].0 == k {
      i := n;
    } else {
      i := KeyPosition(es[..n], k);
    }
  }

  lemma {:induction false} ToMapAt(es: seq<Entry>, i: nat)
    requires Sorted(es) && i < |es|
    ensures es[i].0 in ToMap(es) && ToMap(es)[es[i].0] == es[i].1
  {
    var n := |es| - 1;
    if i < n {
      ToMapAt(es[..n], i);
      assert Less(KeysOf(es)[i], KeysOf(es)[n]);
      LessTrichotomy(es[i].0, es[n].0);
    }
  }

  /** A sorted list has one entry per key. */
  lemma {:induction false} ToMapSize(es: seq<Entry>)
    requires Sorted(es)
    ensures |ToMap(es)| == |es|
  {
    if es != [] {
      var n := |es| - 1;
      ToMapSize(es[..n]);
      if es[n].0 in ToMap(es[..n]) {
        var i := KeyPosition(es[..n], es[n].0);
        IncreasingDistinct(KeysOf(es), i, n);
      }
    }
  }

  /** A list whose every entry is in m stands for a submap of m. */
  lemma {:induction false} ToMapWithin(es: seq<Entry>, m: map<string, string>)
    requires forall i :: 0 <= i < |es| ==> es[i].0 in m && m[es[i].0] == es[i].1
    ensures ToMap(es).Keys <= m.Keys
    ensures forall k :: k in ToMap(es) ==> ToMap(es)[k] == m[k]
  {
    if es != [] {
      ToMapWithin(es[..|es| - 1], m);
    }
  }

  lemma {:induction false} SubsetOfSameSize<T>(a: set<T>, b: set<T>)
    requires a <= b && |a| == |b|
    ensures a == b
  {
    assert a + (b - a) == b;
    assert |b - a| == |b| - |a|;
  }

  /** The map of a sorted list, recognised by its size and its entries. */
  lemma {:induction false} ToMapIs(es: seq<Entry>, m: map<string, string>)
    requires Sorted(es) && |m| == |es|
    requires forall i :: 0 <= i < |es| ==> es[i].0 in m && m[es[i].0] == es[i].1
    ensures ToMap(es) == m
  {
    ToMapWithin(es, m);
    ToMapSize(es);
    assert |ToMap(es).Keys| == |ToMap(es)| && |m.Keys| == |m|;
    SubsetOfSameSize(ToMap(es).Keys, m.Keys);
  }

  /** What the entry after the cut says about the map. */
  lemma {:induction false} AtCut(es: seq<Entry>, key: string, p: nat)
    requires Sorted(es) && Cut(KeysOf(es), key, p)
    ensures key in ToMap(es) <==> p < |es| && es[p].0 == key
    ensures key in ToMap(es) ==> ToMap(es)[key] == es[p].1
  {
    if p < |es| {
      ToMapAt(es, p);
    }
    if key in ToMap(es) {
      var i := KeyPosition(es, key);
      if i != p {
        CutExcludes(KeysOf(es), key, p, i);
      }
    }
  }

  lemma {:induction false} ToMapInsert(es: seq<Entry>, p: nat, e: Entry)
    requires Sorted(es) && Cut(KeysOf(es), e.0, p) && (p < |es| ==> es[p].0 != e.0)
    ensures Sorted(InsertAt(es, p, e))
    ensures ToMap(InsertAt(es, p, e)) == ToMap(es)[e.0 := e.1]
  {
    var es', m := InsertAt(es, p, e), ToMap(es)[e.0 := e.1];
    assert KeysOf(es') == InsertAt(KeysOf(es), p, e.0);
    IncreasingInsert(KeysOf(es), p, e.0);
    forall i | 0 <= i < |es'|
      ensures es'[i].0 in m && m[es'[i].0] == es'[i].1
    {
      if i != p {
        ToMapAt(es, if i < p then i else i - 1);
        IncreasingDistinct(KeysOf(es'), i, p);
      }
    }
    ToMapSize(es);
    AtCut(es, e.0, p);
    ToMapIs(es', m);
  }

  lemma {:induction false} ToMapUpdate(es: seq<Entry>, p: nat, e: Entry)
    requires Sorted(es) && p < |es| && es[p].0 == e.0
    ensures Sorted(es[p := e])
    ensures ToMap(es[p := e]) == ToMap(es)[e.0 := e.1]
  {
    var es', m := es[p := e], ToMap(es)[e.0 := e.1];
    assert KeysOf(es') == KeysOf(es);
    forall i | 0 <= i < |es'|
      ensures es'[i].0 in m && m[es'[i].0] == es'[i].1
    {
      if i != p {
        ToMapAt(es, i);
        IncreasingDistinct(KeysOf(es), i, p);
      }
    }
    ToMapSize(es);
    ToMapAt(es, p);
    assert m.Keys == ToMap(es).Keys && |m.Keys| == |m| && |ToMap(es).Keys| == |ToMap(es)|;
    ToMapIs(es', m);
  }

  lemma {:induction false} SortedRemove(es: seq<Entry>, p: nat)
    requires Sorted(es) && p < |es|
    ensures Sorted(RemoveAt(es, p))
  {
  }

  lemma {:induction false} ToMapOther(es: seq<Entry>, p: nat, j: nat)
    requires Sorted(es) && p < |es| && j < |es| && j != p
    ensures es[j].0 in ToMap(es) && es[j].0 != es[p].0 && ToMap(es)[es[j].0] == es[j].1
  {
    IncreasingDistinct(KeysOf(es), j, p);
    ToMapAt(es, j);
  }

  lemma {:induction false} ToMapRemove(es: seq<Entry>, p: nat)
    requires Sorted(es) && p < |es|
    ensures Sorted(RemoveAt(es, p))
    ensures ToMap(RemoveAt(es, p)) == ToMap(es) - {es[p].0}
  {
    SortedRemove(es, p);
    var es', m := RemoveAt(es, p), ToMap(es);
    forall i | 0 <= i < |es'|
      ensures es'[i].0 in m && es'[i].0 != es[p].0 && m[es'[i].0] == es'[i].1
    {
      ToMapOther(es, p, if i < p then i else i + 1);
    }
    ToMapAt(es, p);
    ToMapSize(es);
    ToMapIsWithout(es', m, es[p].0);
  }

  lemma {:induction false} ToMapIsWithout(es: seq<Entry>, m: map<string, string>, k: string)
    requires Sorted(es) && k in m && |m| == |es| + 1
    requires forall i :: 0 <= i < |es| ==> es[i].0 in m && es[i].0 != k && m[es[i].0] == es[i].1
    ensures ToMap(es) == m - {k}
  {
    SizeWithout(m, k);
    ToMapIs(es, m - {k});
  }

  lemma {:induction false} SizeWithout(m: map<string, string>, k: string)
    requires k in m
    ensures |m - {k}| == |m| - 1
  {
  }

  lemma {:induction false} WithoutLast(es: seq<Entry>)
    requires Sorted(es) && es != []
    ensures var n := |es| - 1; Sorted(es[..n]) && ToMap(es[..n]) == ToMap(es) - {es[n].0}
  {
    var n := |es| - 1;
    ToMapRemove(es, n);
    assert RemoveAt(es, n) == es[..n];
  }

  lemma {:induction false} SameLast(es: seq<Entry>, es': seq<Entry>)
    requires Sorted(es) && Sorted(es') && ToMap(es) == ToMap(es') && 0 < |es| == |es'|
    ensures es[|es| - 1] == es'[|es| - 1]
  {
    var n := |es| - 1;
    LastIsLargest(es, es');
    LastIsLargest(es', es);
    LessTrichotomy(es[n].0, es'[n].0);
    ToMapAt(es, n);
    ToMapAt(es', n);
  }

  /** A map has at most one sorted listing. */
  lemma {:induction false} SortedUnique(es: seq<Entry>, es': seq<Entry>)
    requires Sorted(es) && Sorted(es') && ToMap(es) == ToMap(es')
    ensures es == es'
    decreases |es|
  {
    ToMapSize(es);
    ToMapSize(es');
    if es != [] {
      var n := |es| - 1;
      SameLast(es, es');
      WithoutLast(es);
      WithoutLast(es');
      SortedUnique(es[..n], es'[..n]);
      SameParts(es, es', n);
    }
  }

  lemma {:induction false} SameParts(es: seq<Entry>, es': seq<Entry>, n: nat)
    requires |es| == |es'| == n + 1 && es[..n] == es'[..n] && es[n] == es'[n]
    ensures es == es'
  {
    assert es == es[..n] + [es[n]] && es' == es'[..n] + [es'[n]];
  }

  lemma {:induction false} LastIsLargest(es: seq<Entry>, es': seq<Entry>)
    requires Sorted(es) && Sorted(es') && ToMap(es) == ToMap(es') && 0 < |es| == |es'|
    ensures var n := |es| - 1; es[n].0 == es'[n].0 || Less(es'[n].0, es[n].0)
  {
    var n := |es| - 1;
    ToMapAt(es', n);
    var i := KeyPosition(es, es'[n].0);
    assert i < n ==> Less(KeysOf(es)[i], KeysOf(es)[n]);
  }

  /** The sorted listing of a map, one insertion at a time. */
  ghost function Listing(m: map<string, string>): (es: seq<Entry>)
    ensures Sorted(es) && ToMap(es) == m
    decreases |m|
  {
    if m == map[] then
      []
    else
      var k :| k in m;
      SizeWithout(m, k);
      WithEntry(Listing(m - {k}), (k, m[k]), m)
  }

  ghost function WithEntry(rest: seq<Entry>, e: Entry, m: map<string, string>): (es: seq<Entry>)
    requires Sorted(rest) && e.0 in m && m[e.0] == e.1 && ToMap(rest) == m - {e.0}
    ensures Sorted(es) && ToMap(es) == m
  {
    var p := Place(rest, e.0);
    AtCut(rest, e.0, p);
    ToMapInsert(rest, p, e);
    assert (m - {e.0})[e.0 := e.1] == m;
    InsertAt(rest, p, e)
  }

  ghost function Place(es: seq<Entry>, key: string): (p: nat)
    requires Sorted(es)
    ensures Cut(KeysOf(es), key, p)
  {
    assert exists p: nat :: Cut(KeysOf(es), key, p) by { var p := FindCut(KeysOf(es), key); }
    var p: nat :| Cut(KeysOf(es), key, p);
    p
  }
}
