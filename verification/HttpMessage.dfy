/** Requests as a client prints them (sections 3 and 5 of RFC 9112), and the round trip through the parser. */
module HttpMessage {
  import opened HttpGrammar
  import opened HttpRequests
  import opened HttpText
  import opened Text

  datatype Field = Field(name: string, value: string)

  datatype Message = Message(verb: Method, target: string, version: Version, fields: seq<Field>)

  ghost function StartLine(m: Message): string
    requires m.version != Unknown
  {
    MethodName(m.verb) + " " + m.target + " " + VersionText(m.version)
  }

  ghost function FieldLine(f: Field): string {
    f.name + ":" + f.value
  }

  ghost function FieldLines(fields: seq<Field>): (r: seq<string>)
    ensures |r| == |fields|
  {
    if fields == [] then [] else [FieldLine(fields[0])] + FieldLines(fields[1..])
  }

  /** The printed request. A client closes it with an empty line; the parser takes any line without a colon. */
  ghost function Printed(m: Message, closing: string): string
    requires m.version != Unknown
  {
    Joined([StartLine(m)] + FieldLines(m.fields) + [closing])
  }

  ghost predicate PrintableField(f: Field) {
    ':' !in f.name && CrlfFree(f.name) && CrlfFree(f.value)
  }

  /** The parts of the request avoid the characters that end them. */
  ghost predicate Printable(m: Message, closing: string) {
    && m.verb != Invalid && m.version != Unknown && ' ' !in m.target && CrlfFree(m.target)
    && (forall k :: 0 <= k < |m.fields| ==> PrintableField(m.fields[k]))
    && ':' !in closing && CrlfFree(closing)
  }

  /** The headers that fields leave: values are trimmed, and a later field replaces an earlier one. */
  ghost function Headers(fields: seq<Field>, known: map<string, string>): (r: map<string, string>)
    decreases |fields|
  {
    if fields == [] then known else Headers(fields[1..], known[fields[0].name := Trim(fields[0].value)])
  }

  lemma {:induction false} HeadersHave(fields: seq<Field>, known: map<string, string>, name: string)
    requires forall k :: 0 <= k < |fields| ==> fields[k].name != name
    ensures name in Headers(fields, known) <==> name in known
    ensures name in known ==> Headers(fields, known)[name] == known[name]
    decreases |fields|
  {
    if fields != [] {
      HeadersHave(fields[1..], known[fields[0].name := Trim(fields[0].value)], name);
    }
  }

  /** The value kept for a name is the trimmed value of its last field. */
  lemma {:induction false} LastFieldWins(fields: seq<Field>, known: map<string, string>, i: nat)
    requires i < |fields| && forall k :: i < k < |fields| ==> fields[k].name != fields[i].name
    ensures fields[i].name in Headers(fields, known) && Headers(fields, known)[fields[i].name] == Trim(fields[i].value)
    decreases |fields|
  {
    var more := known[fields[0].name := Trim(fields[0].value)];
    if i == 0 {
      HeadersHave(fields[1..], more, fields[0].name);
    } else {
      LastFieldWins(fields[1..], more, i - 1);
    }
  }

  /** After reading m, a header is what the last field of that name has between the white space at its
      ends, whatever of that there is, and empty if no field has the name. */
  lemma {:induction false} HeaderIsLastField(r: HttpRequest, m: Message, name: string)
    requires r.Value() == Whole(m, []).request
    ensures (forall k :: 0 <= k < |m.fields| ==> m.fields[k].name != name) ==> r.GetHeader(name) == ""
    ensures forall i, pre, v, post {:trigger Padded(m.fields[i].value, pre, v, post)} ::
              (0 <= i < |m.fields| && m.fields[i].name == name
               && (forall k :: i < k < |m.fields| ==> m.fields[k].name != name)
               && Padded(m.fields[i].value, pre, v, post)) ==> r.GetHeader(name) == v
  {
    if forall k :: 0 <= k < |m.fields| ==> m.fields[k].name != name {
      HeadersHave(m.fields, map[], name);
    }
    forall i, pre, v, post {:trigger Padded(m.fields[i].value, pre, v, post)} |
      0 <= i < |m.fields| && m.fields[i].name == name
      && (forall k :: i < k < |m.fields| ==> m.fields[k].name != name)
      && Padded(m.fields[i].value, pre, v, post)
      ensures r.GetHeader(name) == v
    {
      LastFieldWins(m.fields, map[], i);
      PaddingIsTrimmed(m.fields[i].value, pre, v, post);
    }
  }

  lemma {:induction false} FieldLineRead(p: Parsed, f: Field)
    requires ':' !in f.name
    ensures ':' in FieldLine(f) && WithHeader(p, FieldLine(f)) == p.(headers := p.headers[f.name := Trim(f.value)])
  {
    SplitAtFirst(f.name, ':', f.value);
    assert FieldLine(f)[|f.name|] == ':';
  }

  lemma {:induction false} FieldsRead(ok: bool, p: Parsed, fields: seq<Field>, closing: string, rest: seq<string>)
    requires forall k :: 0 <= k < |fields| ==> PrintableField(fields[k])
    requires ':' !in closing
    ensures ReadHeaders(ok, p, FieldLines(fields) + ([closing] + rest)) ==
            Outcome(ok, GotAll, p.(headers := Headers(fields, p.headers)), rest)
    decreases |fields|
  {
    var lines := FieldLines(fields) + ([closing] + rest);
    if fields == [] {
      assert lines == [closing] + rest && lines[1..] == rest;
    } else {
      var f := fields[0];
      FieldLineRead(p, f);
      assert PrintableField(f);
      assert lines[0] == FieldLine(f) && lines[1..] == FieldLines(fields[1..]) + ([closing] + rest);
      FieldsRead(ok, WithHeader(p, FieldLine(f)), fields[1..], closing, rest);
    }
  }

  lemma {:induction false} NamesAreFree(m: Method)
    ensures CrlfFree(MethodName(m))
  {
  }

  lemma {:induction false} VersionsAreFree(v: Version)
    requires v != Unknown
    ensures CrlfFree(VersionText(v))
  {
  }

  lemma {:induction false} StartLineIsFree(m: Message)
    requires m.version != Unknown
    ensures CrlfFree(StartLine(m)) <==> CrlfFree(m.target)
  {
    NamesAreFree(m.verb);
    VersionsAreFree(m.version);
    FreeOfBoth(MethodName(m.verb), ' ', m.target);
    FreeOfBoth(MethodName(m.verb) + " " + m.target, ' ', VersionText(m.version));
  }

  lemma {:induction false} FieldLinesAre(fields: seq<Field>, k: nat)
    requires k < |fields|
    ensures FieldLines(fields)[k] == FieldLine(fields[k])
  {
    if k > 0 {
      FieldLinesAre(fields[1..], k - 1);
    }
  }

  lemma {:induction false} PrintedLinesAreFree(m: Message, closing: string)
    requires Printable(m, closing)
    ensures AllFree([StartLine(m)] + FieldLines(m.fields) + [closing])
  {
    var lines := [StartLine(m)] + FieldLines(m.fields) + [closing];
    forall k | 0 <= k < |lines|
      ensures CrlfFree(lines[k])
    {
      if k == 0 {
        StartLineIsFree(m);
      } else if k <= |m.fields| {
        var f := m.fields[k - 1];
        FieldLinesAre(m.fields, k - 1);
        assert PrintableField(f);
        FreeOfBoth(f.name, ':', f.value);
      }
    }
  }

  /** What reading the request m on a fresh context yields. */
  ghost function Whole(m: Message, left: seq<string>): Outcome {
    var request := Parsed(m.verb, m.version, PathOf(m.target), QueryOf(m.target), Headers(m.fields, map[]));
    Outcome(true, GotAll, request, left)
  }

  lemma {:induction false} PrintedLinesAreRead(m: Message, closing: string, left: seq<string>)
    requires Printable(m, closing)
    ensures Read(ExpectRequestLine, NOTHING, [StartLine(m)] + FieldLines(m.fields) + [closing] + left) == Whole(m, left)
  {
    var p := Parsed(m.verb, m.version, PathOf(m.target), QueryOf(m.target), map[]);
    StartLineIsRead(m);
    FieldsRead(true, p, m.fields, closing, left);
    ReadAfterStart(StartLine(m), FieldLines(m.fields) + ([closing] + left), p);
    Regroup([StartLine(m)], FieldLines(m.fields), [closing], left);
  }

  lemma {:induction false} Regroup(a: seq<string>, b: seq<string>, c: seq<string>, d: seq<string>)
    ensures a + b + c + d == a + (b + (c + d))
  {
  }

  lemma {:induction false} StartLineIsRead(m: Message)
    requires m.verb != Invalid && m.version != Unknown && ' ' !in m.target
    ensures AfterRequestLine(NOTHING, StartLine(m)) ==
            (true, Parsed(m.verb, m.version, PathOf(m.target), QueryOf(m.target), map[]))
  {
    RequestLineRead(NOTHING, StartLine(m), m.verb, m.target, m.version);
    TargetIsSplit(m.target);
  }

  lemma {:induction false} ReadAfterStart(line: string, tail: seq<string>, p: Parsed)
    requires AfterRequestLine(NOTHING, line) == (true, p)
    ensures Read(ExpectRequestLine, NOTHING, [line] + tail) == ReadHeaders(true, p, tail)
  {
  }

  /** Parsing a printed request gives it back, and leaves what follows it. */
  lemma {:induction false} PrintedIsRead(m: Message, closing: string, rest: string)
    requires Printable(m, closing)
    ensures Read(ExpectRequestLine, NOTHING, Lines(Printed(m, closing) + rest)) == Whole(m, Lines(rest))
    ensures Partial(Printed(m, closing) + rest) == Partial(rest)
    ensures PathOf(m.target) + QueryOf(m.target) == m.target
  {
    PrintedLinesAreFree(m, closing);
    LinesAre([StartLine(m)] + FieldLines(m.fields) + [closing], rest);
    PrintedLinesAreRead(m, closing, Lines(rest));
    TargetIsSplit(m.target);
  }

  lemma {:induction false} RootTarget()
    ensures PathOf("/") == "/" && QueryOf("/") == ""
  {
    TargetIsSplit("/");
    assert PathOf("/") == PathOf("/") + QueryOf("/");
  }

  lemma {:induction false} PlainText(m: Message)
    requires m == Message(Get, "/", Http11, [])
    ensures StartLine(m) == "GET / HTTP/1.1"
  {
  }

  lemma {:induction false} PlainStartLine()
    ensures AfterRequestLine(NOTHING, "GET / HTTP/1.1") == (true, Parsed(Get, Http11, "/", "", map[]))
  {
    var m := Message(Get, "/", Http11, []);
    PlainText(m);
    RootTarget();
    StartLineIsRead(m);
  }

  /** A request in two pieces, a request line and then the empty line: the second call has the whole
      request and answers false. */
  lemma {:induction false} SecondPieceIsRefused()
    ensures var p := Parsed(Get, Http11, "/", "", map[]);
            && Read(ExpectRequestLine, NOTHING, ["GET / HTTP/1.1"]) == Outcome(true, ExpectHeaders, p, [])
            && Read(ExpectHeaders, p, [""]) == Outcome(false, GotAll, p, [])
  {
    PlainStartLine();
    FirstPiece(Parsed(Get, Http11, "/", "", map[]));
    SecondPiece(Parsed(Get, Http11, "/", "", map[]));
  }

  lemma {:induction false} FirstPiece(p: Parsed)
    requires AfterRequestLine(NOTHING, "GET / HTTP/1.1") == (true, p)
    ensures Read(ExpectRequestLine, NOTHING, ["GET / HTTP/1.1"]) == Outcome(true, ExpectHeaders, p, [])
  {
    ReadAfterStart("GET / HTTP/1.1", [], p);
    assert ["GET / HTTP/1.1"] + [] == ["GET / HTTP/1.1"];
  }

  lemma {:induction false} SecondPiece(p: Parsed)
    ensures Read(ExpectHeaders, p, [""]) == Outcome(false, GotAll, p, [])
  {
  }

  /** A line without a colon that is not empty closes the headers, and the field behind it is not read. */
  lemma {:induction false} ColonlessLineCloses()
    ensures Read(ExpectRequestLine, NOTHING, ["GET / HTTP/1.1"] + ["no colon", "Host:a", ""])
         == Outcome(true, GotAll, Parsed(Get, Http11, "/", "", map[]), ["Host:a", ""])
  {
    var headers := ["no colon", "Host:a", ""];
    PlainStartLine();
    ReadAfterStart("GET / HTTP/1.1", headers, Parsed(Get, Http11, "/", "", map[]));
    assert headers[1..] == ["Host:a", ""];
  }

  /** The path has no question mark, and the query is empty or starts with one. */
  lemma {:induction false} TargetIsSplit(target: string)
    ensures PathOf(target) + QueryOf(target) == target && '?' !in PathOf(target)
    ensures '?' !in target ==> QueryOf(target) == ""
    ensures '?' in target ==> QueryOf(target) != "" && QueryOf(target)[0] == '?'
  {
  }

  lemma {:induction false} NoCrlf(s: string)
    requires '\r' !in s
    ensures CrlfFree(s)
  {
    CrlfFreeIs(s);
  }

  lemma {:induction false} PlainLines(lines: seq<string>)
    requires |lines| == 3
    ensures Joined(lines) == lines[0] + "\r\n" + lines[1] + "\r\n" + lines[2] + "\r\n"
  {
    assert lines[1..][1..] == [lines[2]] && Joined([lines[2]]) == lines[2] + "\r\n";
    assert lines[1..][0] == lines[1];
    assert Joined(lines[1..]) == lines[1] + "\r\n" + Joined([lines[2]]);
  }

  lemma {:induction false} OneField(m: Message, f: Field)
    requires m.version != Unknown && m.fields == [f]
    ensures Printed(m, "") == StartLine(m) + "\r\n" + FieldLine(f) + "\r\n" + "" + "\r\n"
  {
    assert m.fields[1..] == [] && FieldLines([]) == [];
    PlainLines([StartLine(m)] + FieldLines(m.fields) + [""]);
  }

  lemma {:induction false} HostStart(m: Message)
    requires m.verb == Get && m.target == "/a?b" && m.version == Http11
    ensures StartLine(m) == "GET /a?b HTTP/1.1"
  {
  }

  lemma {:induction false} HostLines(m: Message)
    requires m == Message(Get, "/a?b", Http11, [Field("Host", " localhost")])
    ensures Printed(m, "") == "GET /a?b HTTP/1.1\r\nHost: localhost\r\n\r\n"
  {
    var f := Field("Host", " localhost");
    OneField(m, f);
    HostStart(m);
    HostLine(f);
  }

  lemma {:induction false} HostLine(f: Field)
    requires f == Field("Host", " localhost")
    ensures FieldLine(f) == "Host: localhost"
  {
  }

  lemma {:induction false} HostName(name: string)
    requires name == "Host"
    ensures CrlfFree(name) && ':' !in name
  {
    NoCrlf(name);
  }

  lemma {:induction false} HostValue(value: string)
    requires value == " localhost"
    ensures CrlfFree(value)
  {
    NoCrlf(value);
  }

  lemma {:induction false} HostField(f: Field)
    requires f == Field("Host", " localhost")
    ensures PrintableField(f)
  {
    HostName(f.name);
    HostValue(f.value);
  }

  lemma {:induction false} HostIsPrintable(m: Message)
    requires m.verb == Get && m.target == "/a?b" && m.version == Http11
    requires |m.fields| == 1 && PrintableField(m.fields[0])
    ensures Printable(m, "")
  {
    NoCrlf("/a?b");
    NoCrlf("");
  }

  lemma {:induction false} HostHeader(fields: seq<Field>)
    requires fields == [Field("Host", " localhost")]
    ensures Headers(fields, map[]) == map["Host" := "localhost"]
  {
    PaddingIsTrimmed(" localhost", " ", "localhost", "");
    assert fields[1..] == [] && Headers([], map["Host" := "localhost"]) == map["Host" := "localhost"];
  }

  lemma {:induction false} QuestionTarget()
    ensures PathOf("/a?b") == "/a" && QueryOf("/a?b") == "?b"
  {
    FindIs("/a?b", '?', 2);
  }

  /** A whole request, read on a fresh context. */
  lemma {:induction false} HostIsRead()
    ensures Read(ExpectRequestLine, NOTHING, Lines("GET /a?b HTTP/1.1\r\nHost: localhost\r\n\r\n"))
         == Outcome(true, GotAll, Parsed(Get, Http11, "/a", "?b", map["Host" := "localhost"]), [])
  {
    var m := Message(Get, "/a?b", Http11, [Field("Host", " localhost")]);
    HostIsWhole(m);
    HostField(m.fields[0]);
    HostIsPrintable(m);
    PrintedAlone(m);
    HostLines(m);
  }

  lemma {:induction false} HostIsWhole(m: Message)
    requires m == Message(Get, "/a?b", Http11, [Field("Host", " localhost")])
    ensures Whole(m, []) == Outcome(true, GotAll, Parsed(Get, Http11, "/a", "?b", map["Host" := "localhost"]), [])
  {
    HostHeader(m.fields);
    QuestionTarget();
  }

  lemma {:induction false} PrintedAlone(m: Message)
    requires Printable(m, "")
    ensures Read(ExpectRequestLine, NOTHING, Lines(Printed(m, ""))) == Whole(m, [])
  {
    PrintedIsRead(m, "", "");
    assert Printed(m, "") + "" == Printed(m, "");
    assert Lines("") == [];
  }

  lemma {:induction false} LineToField(line: string) returns (f: Field)
    requires CrlfFree(line) && ':' in line
    ensures PrintableField(f) && FieldLine(f) == line
  {
    var c := Find(line, ':');
    FindInside(line, ':');
    SplitIs(line, ':');
    f := Field(line[..c], line[c + 1..]);
    FreeOfBoth(f.name, ':', f.value);
  }

  /** Complete headers are field lines and a closing line. */
  lemma {:induction false} HeaderLines(ok: bool, p: Parsed, lines: seq<string>)
    returns (fields: seq<Field>, closing: string, left: seq<string>)
    requires AllFree(lines) && ReadHeaders(ok, p, lines).state == GotAll
    ensures lines == FieldLines(fields) + ([closing] + left) && ':' !in closing && CrlfFree(closing)
    ensures forall k :: 0 <= k < |fields| ==> PrintableField(fields[k])
    decreases |lines|
  {
    if ':' in lines[0] {
      var f := LineToField(lines[0]);
      var more;
      more, closing, left := HeaderLines(ok, WithHeader(p, lines[0]), lines[1..]);
      fields := [f] + more;
      assert fields[1..] == more && lines == [lines[0]] + lines[1..];
    } else {
      fields, closing, left := [], lines[0], lines[1..];
    }
  }

  /** Whatever the parser takes for a whole request is a printed one. */
  lemma {:induction false} CompleteIsPrinted(s: string) returns (m: Message, closing: string, rest: string)
    requires Read(ExpectRequestLine, NOTHING, Lines(s)).state == GotAll
    ensures Printable(m, closing) && s == Printed(m, closing) + rest
  {
    var lines := Lines(s);
    LinesMakeText(s);
    var verb, target, version := RequestLineParts(NOTHING, lines[0]);
    var fields, end, left := HeaderLines(true, AfterRequestLine(NOTHING, lines[0]).1, lines[1..]);
    m, closing, rest := Message(verb, target, version, fields), end, Joined(left) + Partial(s);
    assert CrlfFree(lines[0]);
    StartLineIsFree(m);
    AssembleLines(lines, StartLine(m), FieldLines(fields), closing, left, Partial(s));
  }

  lemma {:induction false} AssembleLines(lines: seq<string>, first: string, middle: seq<string>, closing: string,
                                         left: seq<string>, rest: string)
    requires lines != [] && lines[0] == first && lines[1..] == middle + ([closing] + left)
    ensures Joined(lines) + rest == Joined([first] + middle + [closing]) + (Joined(left) + rest)
  {
    assert lines == [first] + lines[1..];
    assert lines == [first] + middle + [closing] + left;
    JoinedTwice([first] + middle + [closing], left, rest);
  }

  lemma {:induction false} JoinedTwice(a: seq<string>, b: seq<string>, rest: string)
    ensures Joined(a + b) + rest == Joined(a) + (Joined(b) + rest)
    decreases |a|
  {
    if a == [] {
      assert a + b == b;
      assert Joined(a) + (Joined(b) + rest) == Joined(b) + rest;
    } else {
      assert a == [a[0]] + a[1..] && a + b == [a[0]] + (a[1..] + b);
      JoinedOneMore(a[0], a[1..] + b, rest);
      JoinedOneMore(a[0], a[1..], Joined(b) + rest);
      JoinedTwice(a[1..], b, rest);
    }
  }

  /** The parser takes the start of a text for a whole request exactly when it is a printed one. */
  lemma {:induction false} CompleteExactlyPrinted(s: string)
    ensures Read(ExpectRequestLine, NOTHING, Lines(s)).state == GotAll
       <==> exists m, closing, rest :: Printable(m, closing) && s == Printed(m, closing) + rest
  {
    if Read(ExpectRequestLine, NOTHING, Lines(s)).state == GotAll {
      var m, closing, rest := CompleteIsPrinted(s);
    }
    if m, closing, rest :| Printable(m, closing) && s == Printed(m, closing) + rest {
      PrintedIsRead(m, closing, rest);
    }
  }
}
