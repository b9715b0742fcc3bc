/** The text format of the store file: one "key:value" line per entry. */
module StoreFile {
  import opened Entries
  import opened Keys
  import opened Text

  /** The lines getline yields: an unterminated last line counts unless it is empty. */
  function Lines(text: string): seq<string> {
    var i := Find(text, '\n');
    if i < |text| then [text[..i]] + Lines(text[i + 1..])
    else if text == "" then []
    else [text]
  }

  /** is_valid_string: the line holds the delimiter. */
  predicate IsValid(line: string) {
    line != "" && Find(line, ':') < |line|
  }

  function KeyPart(line: string): string
    requires IsValid(line)
  {
    line[..Find(line, ':')]
  }

  function ValuePart(line: string): string
    requires IsValid(line)
  {
    line[Find(line, ':') + 1..]
  }

  /** A line with a key and a value, both non-empty. */
  predicate WellFormed(line: string) {
    IsValid(line) && KeyPart(line) != "" && ValuePart(line) != ""
  }

  /** The loader as it is: key and value survive from line to line, and each line inserts them. */
  function LoadCarrying(lines: seq<string>, key: string, value: string, m: map<string, string>): map<string, string> {
    if lines == [] then
      m
    else
      var k := if IsValid(lines[0]) then KeyPart(lines[0]) else key;
      var v := if IsValid(lines[0]) then ValuePart(lines[0]) else value;
      LoadCarrying(lines[1..], k, v, if k == "" || v == "" then m else m[k := v])
  }

  /** The loader as it is meant: the well-formed lines, later ones overriding. */
  function Load(lines: seq<string>, m: map<string, string>): map<string, string> {
    if lines == [] then m
    else if WellFormed(lines[0]) then Load(lines[1..], m[KeyPart(lines[0]) := ValuePart(lines[0])])
    else Load(lines[1..], m)
  }

  /** Malformed lines do not matter: the pair they insert again is already there. */
  lemma {:induction false} CarryingIsHarmless(lines: seq<string>, key: string, value: string, m: map<string, string>)
    requires key == "" || value == "" || (key in m && m[key] == value)
    ensures LoadCarrying(lines, key, value, m) == Load(lines, m)
  {
    if lines != [] {
      if IsValid(lines[0]) {
        var k, v := KeyPart(lines[0]), ValuePart(lines[0]);
        CarryingIsHarmless(lines[1..], k, v, if k == "" || v == "" then m else m[k := v]);
      } else {
        assert key in m && m[key] == value ==> m[key := value] == m;
        CarryingIsHarmless(lines[1..], key, value, m);
      }
    }
  }

  function RenderEntry(e: Entry): string {
    e.0 + ":" + e.1 + "\n"
  }

  function Render(es: seq<Entry>): string {
    if es == [] then "" else RenderEntry(es[0]) + Render(es[1..])
  }

  lemma {:induction false} RenderSnoc(es: seq<Entry>, e: Entry)
    ensures Render(es + [e]) == Render(es) + RenderEntry(e)
  {
    if es == [] {
      assert es + [e] == [e];
    } else {
      RenderSnoc(es[1..], e);
      assert (es + [e])[1..] == es[1..] + [e];
    }
  }

  /** What dumpFile leaves in the store file for a map. */
  ghost function Dump(m: map<string, string>): string {
    Render(Listing(m))
  }

  /** What loadFile makes of a text, starting from m. */
  function LoadText(text: string, m: map<string, string>): map<string, string> {
    Load(Lines(text), m)
  }

  lemma {:induction false} LoadOver(lines: seq<string>, m: map<string, string>, n: map<string, string>)
    ensures Load(lines, m + n) == m + Load(lines, n)
  {
    if lines != [] {
      if WellFormed(lines[0]) {
        var k, v := KeyPart(lines[0]), ValuePart(lines[0]);
        assert (m + n)[k := v] == m + n[k := v];
        LoadOver(lines[1..], m, n[k := v]);
      } else {
        LoadOver(lines[1..], m, n);
      }
    }
  }

  /** Whatever the file holds, loading it puts what it says on its own over what was there. */
  lemma {:induction false} LoadIsOverride(text: string, m: map<string, string>)
    ensures LoadText(text, m) == m + LoadText(text, map[])
  {
    assert m + map[] == m;
    LoadOver(Lines(text), m, map[]);
  }

  // ----- what a text says -----

  /** Lines written one after the other, each with its newline. */
  ghost function Ended(lines: seq<string>): string {
    if lines == [] then "" else lines[0] + "\n" + Ended(lines[1..])
  }

  lemma {:induction false} LineInFront(line: string, rest: string)
    requires '\n' !in line
    ensures Lines(line + "\n" + rest) == [line] + Lines(rest)
  {
    var text := line + "\n" + rest;
    FindIs(text, '\n', |line|);
    assert text[..|line|] == line && text[|line| + 1..] == rest;
  }

  lemma {:induction false} LastLine(last: string)
    requires '\n' !in last
    ensures Lines(last) == if last == "" then [] else [last]
  {
    FindIs(last, '\n', |last|);
  }

  lemma {:induction false} EndedOneMore(lines: seq<string>, rest: string)
    requires lines != []
    ensures Ended(lines) + rest == lines[0] + "\n" + (Ended(lines[1..]) + rest)
  {
  }

  /** The lines of a text are the pieces between its newlines; one without a newline at the end counts too. */
  lemma {:induction false} LinesOfText(lines: seq<string>, last: string)
    requires '\n' !in last && forall i :: 0 <= i < |lines| ==> '\n' !in lines[i]
    ensures Lines(Ended(lines) + last) == lines + if last == "" then [] else [last]
  {
    LastLine(last);
    if lines == [] {
      assert "" + last == last && lines + Lines(last) == Lines(last);
    } else {
      LinesOfText(lines[1..], last);
      EndedOneMore(lines, last);
      LineInFront(lines[0], Ended(lines[1..]) + last);
      FirstInFront(lines, Lines(last));
    }
  }

  lemma {:induction false} FirstInFront(lines: seq<string>, more: seq<string>)
    requires lines != []
    ensures [lines[0]] + (lines[1..] + more) == lines + more
  {
  }

  /** A line says that its part before the first colon is bound to its part behind it, if neither is empty. */
  lemma {:induction false} LineIsLoaded(line: string, m: map<string, string>)
    ensures ':' !in line ==> Load([line], m) == m
    ensures forall k, v {:trigger k + ":" + v} :: line == k + ":" + v && ':' !in k ==>
              Load([line], m) == if k == "" || v == "" then m else m[k := v]
  {
    assert [line][1..] == [];
    forall k, v {:trigger k + ":" + v} | line == k + ":" + v && ':' !in k
      ensures Load([line], m) == if k == "" || v == "" then m else m[k := v]
    {
      FindIs(line, ':', |k|);
      assert line[..|k|] == k && line[|k| + 1..] == v;
    }
  }

  /** The lines are taken from the first to the last. */
  lemma {:induction false} LoadInOrder(lines: seq<string>, more: seq<string>, m: map<string, string>)
    ensures Load(lines + more, m) == Load(more, Load(lines, m))
    decreases lines
  {
    if lines == [] {
      assert lines + more == more;
    } else {
      assert (lines + more)[0] == lines[0] && (lines + more)[1..] == lines[1..] + more;
      LoadInOrder(lines[1..], more, if WellFormed(lines[0]) then m[KeyPart(lines[0]) := ValuePart(lines[0])] else m);
    }
  }

  // ----- what a dump looks like -----

  /** One line per key, in the order of the keys given. */
  ghost function Written(ks: seq<string>, m: map<string, string>): string
    requires forall i :: 0 <= i < |ks| ==> ks[i] in m
  {
    if ks == [] then "" else ks[0] + ":" + m[ks[0]] + "\n" + Written(ks[1..], m)
  }

  lemma {:induction false} RenderedIsWritten(es: seq<Entry>, m: map<string, string>)
    requires forall i :: 0 <= i < |es| ==> es[i].0 in m && m[es[i].0] == es[i].1
    ensures Render(es) == Written(KeysOf(es), m)
  {
    if es != [] {
      RenderedIsWritten(es[1..], m);
      assert KeysOf(es)[1..] == KeysOf(es[1..]);
    }
  }

  /** A dump is one line for each key of the map, by ascending character codes. */
  lemma {:induction false} DumpAscends(m: map<string, string>) returns (ks: seq<string>)
    ensures |ks| == |m| && forall i :: 0 <= i < |ks| ==> ks[i] in m
    ensures forall i, j {:trigger ks[i], ks[j]} :: 0 <= i < j < |ks| ==> Before(ks[i], ks[j])
    ensures Dump(m) == Written(ks, m)
    ensures AllStorable(m) ==> |Lines(Dump(m))| == |ks|
    ensures AllStorable(m) ==> forall i :: 0 <= i < |ks| ==> Lines(Dump(m))[i] == ks[i] + ":" + m[ks[i]]
  {
    var es := Listing(m);
    ks := KeysOf(es);
    ToMapSize(es);
    forall i | 0 <= i < |es|
      ensures es[i].0 in m && m[es[i].0] == es[i].1
    {
      ToMapAt(es, i);
    }
    forall i, j | 0 <= i < j < |ks|
      ensures Before(ks[i], ks[j])
    {
      LessIsBefore(ks[i], ks[j]);
    }
    RenderedIsWritten(es, m);
    if AllStorable(m) {
      LinesOfRendered(es);
    }
  }

  lemma {:induction false} LinesOfRendered(es: seq<Entry>)
    requires forall i :: 0 <= i < |es| ==> Storable(es[i].0, es[i].1)
    ensures |Lines(Render(es))| == |es|
    ensures forall i :: 0 <= i < |es| ==> Lines(Render(es))[i] == es[i].0 + ":" + es[i].1
  {
    if es != [] {
      LinesOfEntry(es[0], Render(es[1..]));
      LinesOfRendered(es[1..]);
    }
  }

  lemma {:induction false} TwoEntries(es: seq<Entry>)
    requires es == [("a", "1"), ("b", "2")]
    ensures Sorted(es) && ToMap(es) == map["a" := "1", "b" := "2"] && Render(es) == "a:1\nb:2\n"
  {
    assert Less("a", "b");
    var first, second: seq<Entry> := [("a", "1")], [("b", "2")];
    assert es[..1] == first && es[1..] == second && first[..0] == [] && second[1..] == [];
    assert ToMap(first) == map["a" := "1"] && Render(second) == RenderEntry(("b", "2"));
    assert RenderEntry(("a", "1")) == "a:1\n" && RenderEntry(("b", "2")) == "b:2\n";
  }

  /** Two keys, written in either order. */
  lemma {:induction false} DumpOfTwo()
    ensures Dump(map["b" := "2", "a" := "1"]) == "a:1\nb:2\n"
  {
    var es := [("a", "1"), ("b", "2")];
    TwoEntries(es);
    assert map["b" := "2", "a" := "1"] == map["a" := "1", "b" := "2"];
    SortedUnique(es, Listing(map["b" := "2", "a" := "1"]));
  }

  /** The entries a line of the store file can carry. */
  predicate Storable(k: string, v: string) {
    k != "" && v != "" && ':' !in k && '\n' !in k && '\n' !in v
  }

  ghost predicate AllStorable(m: map<string, string>) {
    forall k :: k in m ==> Storable(k, m[k])
  }

  lemma {:induction false} LinesOfEntry(e: Entry, rest: string)
    requires Storable(e.0, e.1)
    ensures Lines(RenderEntry(e) + rest) == [e.0 + ":" + e.1] + Lines(rest)
    ensures var line := e.0 + ":" + e.1; WellFormed(line) && KeyPart(line) == e.0 && ValuePart(line) == e.1
  {
    var line := e.0 + ":" + e.1;
    var text := RenderEntry(e) + rest;
    assert text == line + "\n" + rest;
    assert text[..|line|] == line && '\n' !in line;
    FindIs(text, '\n', |line|);
    assert text[|line| + 1..] == rest;
    assert line[..|e.0|] == e.0;
    FindIs(line, ':', |e.0|);
    assert line[|e.0| + 1..] == e.1;
  }

  lemma {:induction false} OverrideAssociative(m: map<string, string>, e: Entry, t: map<string, string>)
    ensures m[e.0 := e.1] + t == m + (map[e.0 := e.1] + t)
  {
  }

  /** Loading a dump puts every dumped entry over what was there. */
  lemma {:induction false} LoadRendered(es: seq<Entry>, m: map<string, string>)
    requires forall i :: 0 <= i < |es| ==> Storable(es[i].0, es[i].1)
    ensures LoadText(Render(es), m) == m + ToMap(es)
  {
    if es == [] {
      assert Lines("") == [];
    } else {
      var e := es[0];
      LinesOfEntry(e, Render(es[1..]));
      LoadRendered(es[1..], m[e.0 := e.1]);
      ToMapCons(e, es[1..]);
      assert es == [e] + es[1..];
      OverrideAssociative(m, e, ToMap(es[1..]));
    }
  }

  lemma {:induction false} ToMapCons(e: Entry, es: seq<Entry>)
    ensures ToMap([e] + es) == map[e.0 := e.1] + ToMap(es)
  {
    var all := [e] + es;
    if es == [] {
      assert all[..0] == [];
    } else {
      var n := |es| - 1;
      ToMapCons(e, es[..n]);
      assert all[..|all| - 1] == [e] + es[..n];
    }
  }

  /** Loading puts the dump of m over what was there, whenever m can be stored. */
  lemma {:induction false} LoadDumpIsOverride(m: map<string, string>, into: map<string, string>)
    requires AllStorable(m)
    ensures LoadText(Dump(m), into) == into + m
  {
    var es := Listing(m);
    forall i | 0 <= i < |es|
      ensures Storable(es[i].0, es[i].1)
    {
      ToMapAt(es, i);
    }
    LoadRendered(es, into);
  }

  lemma {:induction false} NoNewlineInLines(text: string, i: nat)
    requires i < |Lines(text)|
    ensures '\n' !in Lines(text)[i]
  {
    var j := Find(text, '\n');
    if j < |text| && 0 < i {
      NoNewlineInLines(text[j + 1..], i - 1);
    }
  }

  lemma {:induction false} PartsAreStorable(line: string)
    requires WellFormed(line) && '\n' !in line
    ensures Storable(KeyPart(line), ValuePart(line))
  {
  }

  /** Whatever the text, only storable entries come out of it. */
  lemma {:induction false} LoadedIsStorable(lines: seq<string>, m: map<string, string>)
    requires forall i :: 0 <= i < |lines| ==> '\n' !in lines[i]
    requires AllStorable(m)
    ensures AllStorable(Load(lines, m))
  {
    if lines != [] {
      var l := lines[0];
      if WellFormed(l) {
        PartsAreStorable(l);
        LoadedIsStorable(lines[1..], m[KeyPart(l) := ValuePart(l)]);
      } else {
        LoadedIsStorable(lines[1..], m);
      }
    }
  }

  lemma {:induction false} LoadTextIsStorable(text: string)
    ensures AllStorable(LoadText(text, map[]))
  {
    forall i | 0 <= i < |Lines(text)|
      ensures '\n' !in Lines(text)[i]
    {
      NoNewlineInLines(text, i);
    }
    LoadedIsStorable(Lines(text), map[]);
  }

  /** The round trip of the store file, and exactly when it works. */
  lemma {:induction false} DumpLoadRoundTrip(m: map<string, string>)
    ensures LoadText(Dump(m), map[]) == m <==> AllStorable(m)
  {
    if AllStorable(m) {
      LoadDumpIsOverride(m, map[]);
      assert map[] + m == m;
    }
    LoadTextIsStorable(Dump(m));
  }

  /** A key with the delimiter in it is one that does not survive. */
  lemma {:induction false} ColonInKeyIsLost()
    ensures LoadText(Dump(map["a:b" := "c"]), map[]) != map["a:b" := "c"]
  {
    var m := map["a:b" := "c"];
    DumpLoadRoundTrip(m);
    assert "a:b"[1] == ':';
    assert !Storable("a:b", m["a:b"]);
  }

  /** One reload settles any store file: dumping and loading again changes nothing more. */
  lemma {:induction false} ReloadIsStable(text: string)
    ensures var m := LoadText(text, map[]); LoadText(Dump(m), map[]) == m
    ensures var d := Dump(LoadText(text, map[])); Dump(LoadText(d, map[])) == d
  {
    LoadTextIsStorable(text);
    DumpLoadRoundTrip(LoadText(text, map[]));
  }
}
