/** The order of std::string: lexicographic by character code, a proper prefix first. */
module Keys {
  import opened Seqs

  predicate Less(a: string, b: string) {
    && b != ""
    && (a == "" || a[0] < b[0] || (a[0] == b[0] && Less(a[1..], b[1..])))
  }

  lemma {:induction false} LessTransitive(a: string, b: string, c: string)
    requires Less(a, b) && Less(b, c)
    ensures Less(a, c)
  {
    if a != "" && a[0] == b[0] == c[0] {
      LessTransitive(a[1..], b[1..], c[1..]);
    }
  }

  /** Exactly one of a < b, a == b and b < a holds. */
  lemma {:induction false} LessTrichotomy(a: string, b: string)
    ensures Less(a, b) ==> a != b && !Less(b, a)
    ensures a != b ==> Less(a, b) || Less(b, a)
  {
    if a != "" && b != "" && a[0] == b[0] {
      LessTrichotomy(a[1..], b[1..]);
      assert a == [a[0]] + a[1..] && b == [b[0]] + b[1..];
    }
  }

  /** a is a proper beginning of b, or has the smaller character code where they first differ. */
  ghost predicate Before(a: string, b: string) {
    || (|a| < |b| && a == b[..|a|])
    || (exists i {:trigger a[i]} :: 0 <= i < |a| && i < |b| && a[..i] == b[..i] && a[i] as int < b[i] as int)
  }

  /** That is the order of the keys. */
  lemma {:induction false} LessIsBefore(a: string, b: string)
    ensures Less(a, b) <==> Before(a, b)
  {
    if a == "" || b == "" {
      assert b != "" ==> b[..0] == "";
    } else if a[0] != b[0] {
      assert a[..0] == b[..0];
      assert a[0] < b[0] <==> a[0] as int < b[0] as int;
      SameStart(a, b);
    } else {
      LessIsBefore(a[1..], b[1..]);
      BeforeBehind(a, b);
    }
  }

  /** Texts that are in order from the front on agree in the first character, unless they differ there. */
  lemma {:induction false} SameStart(a: string, b: string)
    requires a != "" && b != "" && a[0] != b[0]
    ensures Before(a, b) ==> a[0] as int < b[0] as int
  {
    assert |a| < |b| ==> b[..|a|][0] == b[0];
    if i :| 0 <= i < |a| && i < |b| && a[..i] == b[..i] && a[i] as int < b[i] as int {
      SameFirst(a, b, i);
    }
  }

  lemma {:induction false} SameFirst(a: string, b: string, i: nat)
    requires i < |a| && i < |b| && a[..i] == b[..i]
    ensures i > 0 ==> a[0] == b[0]
  {
    assert i > 0 ==> a[..i][0] == a[0] && b[..i][0] == b[0];
  }

  lemma {:induction false} BeforeBehind(a: string, b: string)
    requires a != "" && b != "" && a[0] == b[0]
    ensures Before(a, b) <==> Before(a[1..], b[1..])
  {
    var c, d := a[1..], b[1..];
    assert a == [a[0]] + c && b == [b[0]] + d;
    if |a| < |b| && a == b[..|a|] {
      assert c == d[..|c|];
    }
    if |c| < |d| && c == d[..|c|] {
      assert a == b[..|a|];
    }
    if i :| 0 <= i < |a| && i < |b| && a[..i] == b[..i] && a[i] as int < b[i] as int {
      assert a[..i][1..] == c[..i - 1] && b[..i][1..] == d[..i - 1];
      assert c[i - 1] as int < d[i - 1] as int;
    }
    if i :| 0 <= i < |c| && i < |d| && c[..i] == d[..i] && c[i] as int < d[i] as int {
      assert a[..i + 1] == [a[0]] + c[..i] && b[..i + 1] == [b[0]] + d[..i];
      assert a[i + 1] as int < b[i + 1] as int;
    }
  }

  /** A strictly increasing sequence of keys. */
  ghost predicate Increasing(ks: seq<string>) {
    forall i, j {:trigger Less(ks[i], ks[j])} :: 0 <= i < j < |ks| ==> Less(ks[i], ks[j])
  }

  /** p splits ks into the keys below `key` and the keys not below it. */
  ghost predicate Cut(ks: seq<string>, key: string, p: nat) {
    && p <= |ks|
    && (forall i :: 0 <= i < p ==> Less(ks[i], key))
    && (forall i :: p <= i < |ks| ==> !Less(ks[i], key))
  }

  lemma {:induction false} FindCut(ks: seq<string>, key: string) returns (p: nat)
    requires Increasing(ks)
    ensures Cut(ks, key, p)
  {
    if ks == [] || !Less(ks[|ks| - 1], key) {
      if ks == [] {
        p := 0;
      } else {
        p := FindCut(ks[..|ks| - 1], key);
      }
    } else {
      p := |ks|;
      forall i | 0 <= i < p
        ensures Less(ks[i], key)
      {
        if i < p - 1 {
          LessTransitive(ks[i], ks[p - 1], key);
        }
      }
    }
  }

  /** At the cut, the key is either the next one or nowhere. */
  lemma {:induction false} CutExcludes(ks: seq<string>, key: string, p: nat, i: nat)
    requires Increasing(ks) && Cut(ks, key, p) && i < |ks| && i != p
    ensures ks[i] != key
    ensures p <= i && ks[p] != key ==> Less(key, ks[p]) && Less(key, ks[i])
  {
    LessTrichotomy(ks[i], key);
    if p < i {
      LessTrichotomy(ks[p], key);
      assert Less(ks[p], ks[i]);
    }
  }

  lemma {:induction false} IncreasingDistinct(ks: seq<string>, i: nat, j: nat)
    requires Increasing(ks) && i < |ks| && j < |ks| && i != j
    ensures ks[i] != ks[j]
  {
    LessTrichotomy(ks[i], ks[j]);
    assert if i < j then Less(ks[i], ks[j]) else Less(ks[j], ks[i]);
  }

  lemma {:induction false} IncreasingInsert(ks: seq<string>, p: nat, key: string)
    requires Increasing(ks) && Cut(ks, key, p) && (p < |ks| ==> ks[p] != key)
    ensures Increasing(InsertAt(ks, p, key))
  {
    var ks' := InsertAt(ks, p, key);
    forall i, j | 0 <= i < j < |ks'|
      ensures Less(ks'[i], ks'[j])
    {
      if i == p {
        LessTrichotomy(ks[p], key);
        assert j - 1 == p || Less(ks[p], ks[j - 1]);
        if j - 1 > p {
          CutExcludes(ks, key, p, j - 1);
        }
      } else {
        var i' := if i < p then i else i - 1;
        assert if j == p then Less(ks[i'], key) else Less(ks[i'], ks[if j < p then j else j - 1]);
      }
    }
  }
}
