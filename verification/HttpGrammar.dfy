/** What a request is, line by line: the values that the parser's classes are specified with. */
module HttpGrammar {
  import opened HttpText
  import opened Text

  datatype Method = Invalid | Get | Post | Head | Put | Delete
  datatype Version = Unknown | Http10 | Http11
  datatype State = ExpectRequestLine | ExpectHeaders | ExpectBody | GotAll

  /** The contents of a request object. */
  datatype Parsed = Parsed(verb: Method, version: Version, path: string, query: string, headers: map<string, string>)

  const NOTHING := Parsed(Invalid, Unknown, "", "", map[])

  function MethodName(m: Method): string {
    match m
    case Get => "GET"
    case Post => "POST"
    case Head => "HEAD"
    case Put => "PUT"
    case Delete => "DELETE"
    case Invalid => "UNKNOWN"
  }

  function MethodOf(s: string): Method {
    if s == "GET" then Get
    else if s == "POST" then Post
    else if s == "HEAD" then Head
    else if s == "PUT" then Put
    else if s == "DELETE" then Delete
    else Invalid
  }

  function VersionText(v: Version): string
    requires v != Unknown
  {
    if v == Http11 then "HTTP/1.1" else "HTTP/1.0"
  }

  function VersionOf(s: string): Version {
    if s == "HTTP/1.1" then Http11 else if s == "HTTP/1.0" then Http10 else Unknown
  }

  /** The target up to the first question mark, and from there on. */
  function PathOf(target: string): string {
    target[..Find(target, '?')]
  }

  function QueryOf(target: string): string {
    target[Find(target, '?')..]
  }

  function WithTarget(p: Parsed, target: string): Parsed {
    var q := p.(path := PathOf(target));
    if '?' in target then q.(query := QueryOf(target)) else q
  }

  /** A request line is read from the left, and what was read before a fault stays. */
  function AfterRequestLine(p: Parsed, line: string): (bool, Parsed) {
    var a := Find(line, ' ');
    if a == |line| then (false, p)
    else
      var q := p.(verb := MethodOf(line[..a]));
      var tail := line[a + 1..];
      var b := Find(tail, ' ');
      if q.verb == Invalid || b == |tail| then (false, q)
      else
        var r := WithTarget(q, tail[..b]);
        var v := VersionOf(tail[b + 1..]);
        if v == Unknown then (false, r) else (true, r.(version := v))
  }

  /** A header line: the name before the first colon, the trimmed value after it, the last one wins. */
  function WithHeader(p: Parsed, line: string): Parsed
    requires ':' in line
  {
    var c := Find(line, ':');
    FindInside(line, ':');
    p.(headers := p.headers[line[..c] := Trim(line[c + 1..])])
  }

  lemma {:induction false} FindInside(s: string, c: char)
    ensures c in s <==> Find(s, c) < |s|
  {
  }

  /** Where a call of the parser ends: its answer, the state, the request, and the lines it left. */
  datatype Outcome = Outcome(ok: bool, state: State, request: Parsed, left: seq<string>)

  /** Header lines are taken until one has no colon. */
  ghost function ReadHeaders(ok: bool, p: Parsed, lines: seq<string>): (o: Outcome)
    decreases |lines|
  {
    if lines == [] then Outcome(ok, ExpectHeaders, p, [])
    else if ':' in lines[0] then ReadHeaders(ok, WithHeader(p, lines[0]), lines[1..])
    else Outcome(ok, GotAll, p, lines[1..])
  }

  /** A call of the parser on the complete lines of its input. Any state but the first one is
      taken for that of the headers, and then the answer stays false. */
  ghost function Read(state: State, p: Parsed, lines: seq<string>): (o: Outcome) {
    if state != ExpectRequestLine then ReadHeaders(false, p, lines)
    else if lines == [] then Outcome(false, ExpectRequestLine, p, [])
    else
      var (ok, q) := AfterRequestLine(p, lines[0]);
      if ok then ReadHeaders(true, q, lines[1..]) else Outcome(false, ExpectRequestLine, q, lines)
  }

  /** A line that is a method, a target and a version, with a space between each two. */
  ghost predicate IsRequestLine(line: string, m: Method, target: string, v: Version) {
    m != Invalid && v != Unknown && ' ' !in target && line == MethodName(m) + " " + target + " " + VersionText(v)
  }

  lemma {:induction false} SplitAtFirst(s: string, c: char, t: string)
    requires c !in s
    ensures var u := s + [c] + t; Find(u, c) == |s| && u[..|s|] == s && u[|s| + 1..] == t
  {
    var u := s + [c] + t;
    assert forall j :: 0 <= j < |s| ==> u[j] == s[j];
    FindIs(u, c, |s|);
  }

  lemma {:induction false} NameIsRead(m: Method)
    ensures ' ' !in MethodName(m) && MethodOf(MethodName(m)) == m
  {
  }

  lemma {:induction false} VersionIsRead(v: Version)
    requires v != Unknown
    ensures VersionOf(VersionText(v)) == v
  {
  }

  /** The parser accepts such a line with exactly its parts ... */
  lemma {:induction false} RequestLineRead(p: Parsed, line: string, m: Method, target: string, v: Version)
    requires IsRequestLine(line, m, target, v)
    ensures AfterRequestLine(p, line) == (true, WithTarget(p.(verb := m), target).(version := v))
  {
    var name, text := MethodName(m), VersionText(v);
    assert line == name + " " + (target + " " + text);
    NameIsRead(m);
    VersionIsRead(v);
    PartsRead(p, name, target, text);
  }

  lemma {:induction false} PartsRead(p: Parsed, name: string, target: string, text: string)
    requires ' ' !in name && ' ' !in target && MethodOf(name) != Invalid
    ensures AfterRequestLine(p, name + " " + (target + " " + text)) ==
            var r := WithTarget(p.(verb := MethodOf(name)), target);
            if VersionOf(text) == Unknown then (false, r) else (true, r.(version := VersionOf(text)))
  {
    SplitAtFirst(name, ' ', target + " " + text);
    SplitAtFirst(target, ' ', text);
  }

  lemma {:induction false} SplitIs(s: string, c: char)
    requires Find(s, c) < |s|
    ensures var i := Find(s, c); s == s[..i] + [c] + s[i + 1..] && c !in s[..i]
  {
  }

  lemma {:induction false} NameOf(s: string)
    requires MethodOf(s) != Invalid
    ensures MethodName(MethodOf(s)) == s
  {
  }

  lemma {:induction false} TextOf(s: string)
    requires VersionOf(s) != Unknown
    ensures VersionText(VersionOf(s)) == s
  {
  }

  lemma {:induction false} SplitTwice(line: string, name: string, target: string, text: string)
    requires var a := Find(line, ' ');
             a < |line| && name == line[..a] &&
             var tail := line[a + 1..];
             var b := Find(tail, ' ');
             b < |tail| && target == tail[..b] && text == tail[b + 1..]
    ensures line == name + " " + target + " " + text && ' ' !in target
  {
  }

  lemma {:induction false} PartsAreRequestLine(line: string, name: string, target: string, text: string)
    requires line == name + " " + target + " " + text && ' ' !in target
    requires MethodOf(name) != Invalid && VersionOf(text) != Unknown
    ensures IsRequestLine(line, MethodOf(name), target, VersionOf(text))
  {
    NameOf(name);
    TextOf(text);
  }

  /** ... and no other line. */
  lemma {:induction false} RequestLineParts(p: Parsed, line: string) returns (m: Method, target: string, v: Version)
    requires AfterRequestLine(p, line).0
    ensures IsRequestLine(line, m, target, v)
  {
    var a := Find(line, ' ');
    var name, tail := line[..a], line[a + 1..];
    var b := Find(tail, ' ');
    var text := tail[b + 1..];
    m, target, v := MethodOf(name), tail[..b], VersionOf(text);
    SplitTwice(line, name, target, text);
    PartsAreRequestLine(line, name, target, text);
  }

  lemma {:induction false} RequestLineAccepted(p: Parsed, line: string)
    ensures AfterRequestLine(p, line).0 <==> exists m, target, v :: IsRequestLine(line, m, target, v)
  {
    if AfterRequestLine(p, line).0 {
      var m, target, v := RequestLineParts(p, line);
    }
    if exists m, target, v :: IsRequestLine(line, m, target, v) {
      var m, target, v :| IsRequestLine(line, m, target, v);
      RequestLineRead(p, line, m, target, v);
    }
  }

  /** Which name is which method. */
  lemma {:induction false} MethodWords(name: string)
    ensures MethodOf(name) == Get <==> name == "GET"
    ensures MethodOf(name) == Post <==> name == "POST"
    ensures MethodOf(name) == Head <==> name == "HEAD"
    ensures MethodOf(name) == Put <==> name == "PUT"
    ensures MethodOf(name) == Delete <==> name == "DELETE"
    ensures MethodOf(name) == Invalid <==> name !in {"GET", "POST", "HEAD", "PUT", "DELETE"}
    ensures VersionOf(name) == Http11 <==> name == "HTTP/1.1"
    ensures VersionOf(name) == Http10 <==> name == "HTTP/1.0"
  {
  }

  /** What a bad line leaves: without a space nothing is read; a name that is no method leaves the request without
      one; a method alone is kept; with a bad version, the method and the target are kept. */
  lemma {:induction false} BadLineLeaves(p: Parsed, line: string)
    ensures ' ' !in line ==> AfterRequestLine(p, line) == (false, p)
    ensures forall name, tail {:trigger name + " " + tail} :: line == name + " " + tail && ' ' !in name ==>
              && (name !in {"GET", "POST", "HEAD", "PUT", "DELETE"} ==>
                    AfterRequestLine(p, line) == (false, p.(verb := Invalid)))
              && (name in {"GET", "POST", "HEAD", "PUT", "DELETE"} && ' ' !in tail ==>
                    AfterRequestLine(p, line) == (false, p.(verb := MethodOf(name))))
  {
    forall name, tail {:trigger name + " " + tail} | line == name + " " + tail && ' ' !in name
      ensures name !in {"GET", "POST", "HEAD", "PUT", "DELETE"} ==>
                AfterRequestLine(p, line) == (false, p.(verb := Invalid))
      ensures name in {"GET", "POST", "HEAD", "PUT", "DELETE"} && ' ' !in tail ==>
                AfterRequestLine(p, line) == (false, p.(verb := MethodOf(name)))
    {
      SplitAtFirst(name, ' ', tail);
      MethodWords(name);
    }
  }

  lemma {:induction false} BadVersionLeaves(p: Parsed, name: string, target: string, text: string)
    requires name in {"GET", "POST", "HEAD", "PUT", "DELETE"} && ' ' !in target
    requires text !in {"HTTP/1.0", "HTTP/1.1"}
    ensures AfterRequestLine(p, name + " " + (target + " " + text)) ==
            (false, WithTarget(p.(verb := MethodOf(name)), target))
  {
    MethodWords(name);
    MethodWords(text);
    NoSpaceInName(name);
    PartsRead(p, name, target, text);
  }

  lemma {:induction false} NoSpaceInName(name: string)
    requires name in {"GET", "POST", "HEAD", "PUT", "DELETE"}
    ensures ' ' !in name
  {
  }

  /** A target without a question mark is the path and leaves the query alone; the first question mark begins the
      query. */
  lemma {:induction false} TargetSets(p: Parsed, path: string, rest: string)
    requires '?' !in path
    ensures WithTarget(p, path) == p.(path := path)
    ensures WithTarget(p, path + "?" + rest) == p.(path := path, query := "?" + rest)
  {
    FindInside(path, '?');
    var target := path + "?" + rest;
    SplitAtFirst(path, '?', rest);
    assert target[|path|] == '?';
    assert target[|path|..] == "?" + rest;
  }

  /** A fresh context fails exactly when the first line is missing or is no request line ... */
  lemma {:induction false} FreshAnswer(p: Parsed, lines: seq<string>)
    ensures Read(ExpectRequestLine, p, lines).ok
       <==> lines != [] && exists m, target, v :: IsRequestLine(lines[0], m, target, v)
    ensures var o := Read(ExpectRequestLine, p, lines); !o.ok ==> o.state == ExpectRequestLine && o.left == lines
  {
    if lines != [] {
      RequestLineAccepted(p, lines[0]);
      HeadersKeepAnswer(true, AfterRequestLine(p, lines[0]).1, lines[1..]);
    }
  }

  lemma {:induction false} HeadersKeepAnswer(ok: bool, p: Parsed, lines: seq<string>)
    ensures ReadHeaders(ok, p, lines).ok == ok
    decreases |lines|
  {
    if lines != [] && ':' in lines[0] {
      HeadersKeepAnswer(ok, WithHeader(p, lines[0]), lines[1..]);
    }
  }

  /** Headers end exactly when some line has no colon: the lines before the first such line are the
      headers, and those after it are left. */
  lemma {:induction false} HeadersEnd(ok: bool, p: Parsed, lines: seq<string>)
    ensures var o := ReadHeaders(ok, p, lines);
            && (o.state == GotAll <==> exists k :: 0 <= k < |lines| && ':' !in lines[k])
            && (o.state != GotAll ==> o.state == ExpectHeaders && o.left == [])
            && |o.left| <= |lines| && o.left == lines[|lines| - |o.left|..]
            && (o.state == GotAll ==> |o.left| < |lines| && ':' !in lines[|lines| - |o.left| - 1])
            && forall k :: 0 <= k < |lines| - |o.left| - (if o.state == GotAll then 1 else 0) ==> ':' in lines[k]
    decreases |lines|
  {
    if lines != [] && ':' in lines[0] {
      var rest := lines[1..];
      HeadersEnd(ok, WithHeader(p, lines[0]), rest);
      var o := ReadHeaders(ok, WithHeader(p, lines[0]), rest);
      assert forall k :: 0 < k < |lines| ==> lines[k] == rest[k - 1];
      if o.state == GotAll {
        var k :| 0 <= k < |rest| && ':' !in rest[k];
        assert lines[k + 1] == rest[k];
      }
    }
  }

  /** ... and has the whole request exactly when it does not fail and a later complete line has no colon. */
  lemma {:induction false} FreshComplete(p: Parsed, lines: seq<string>)
    ensures var o := Read(ExpectRequestLine, p, lines);
            o.state == GotAll <==> o.ok && exists k :: 1 <= k < |lines| && ':' !in lines[k]
  {
    if lines != [] && AfterRequestLine(p, lines[0]).0 {
      var q := AfterRequestLine(p, lines[0]).1;
      HeadersKeepAnswer(true, q, lines[1..]);
      HeadersEnd(true, q, lines[1..]);
      if exists k :: 1 <= k < |lines| && ':' !in lines[k] {
        var k :| 1 <= k < |lines| && ':' !in lines[k];
        assert lines[1..][k - 1] == lines[k];
      }
      if k :| 0 <= k < |lines[1..]| && ':' !in lines[1..][k] {
        assert lines[k + 1] == lines[1..][k];
      }
    }
  }

  /** A context that is past its request line answers false, whatever comes. */
  lemma {:induction false} ResumedAnswer(state: State, p: Parsed, lines: seq<string>)
    requires state != ExpectRequestLine
    ensures !Read(state, p, lines).ok
  {
    HeadersKeepAnswer(false, p, lines);
  }

  lemma {:induction false} HeadersInTwoPieces(ok: bool, p: Parsed, a: seq<string>, b: seq<string>)
    requires ReadHeaders(ok, p, a).state == ExpectHeaders
    ensures ReadHeaders(ok, p, a + b) == ReadHeaders(ok, ReadHeaders(ok, p, a).request, b)
    decreases |a|
  {
    if a == [] {
      assert a + b == b;
    } else {
      assert (a + b)[0] == a[0] && (a + b)[1..] == a[1..] + b;
      HeadersInTwoPieces(ok, WithHeader(p, a[0]), a[1..], b);
    }
  }

  lemma {:induction false} AnswerIsCarried(p: Parsed, lines: seq<string>)
    ensures ReadHeaders(false, p, lines) == ReadHeaders(true, p, lines).(ok := false)
    decreases |lines|
  {
    if lines != [] && ':' in lines[0] {
      AnswerIsCarried(WithHeader(p, lines[0]), lines[1..]);
    }
  }

  lemma {:induction false} LinesInTwoPieces(p: Parsed, a: seq<string>, b: seq<string>)
    requires Read(ExpectRequestLine, p, a).state == ExpectHeaders
    ensures Read(ExpectRequestLine, p, a).ok && Read(ExpectRequestLine, p, a + b).ok
    ensures Read(ExpectHeaders, Read(ExpectRequestLine, p, a).request, b)
         == Read(ExpectRequestLine, p, a + b).(ok := false)
  {
    var q := AfterRequestLine(p, a[0]).1;
    assert (a + b)[0] == a[0] && (a + b)[1..] == a[1..] + b;
    HeadersInTwoPieces(true, q, a[1..], b);
    HeadersKeepAnswer(true, q, a[1..]);
    HeadersKeepAnswer(true, q, a[1..] + b);
    AnswerIsCarried(ReadHeaders(true, q, a[1..]).request, b);
  }

  /** A message that comes in two pieces, the first ending among the headers: resuming with what was
      left of it and the second piece yields the state, the request and the lines of one call on the
      whole; only the answer is false where that of the one call is true. */
  lemma {:induction false} ResumedReading(s: string, t: string)
    requires Read(ExpectRequestLine, NOTHING, Lines(s)).state == ExpectHeaders
    ensures Read(ExpectRequestLine, NOTHING, Lines(s)).ok && Read(ExpectRequestLine, NOTHING, Lines(s + t)).ok
    ensures Read(ExpectHeaders, Read(ExpectRequestLine, NOTHING, Lines(s)).request, Lines(Partial(s) + t))
         == Read(ExpectRequestLine, NOTHING, Lines(s + t)).(ok := false)
  {
    LinesOfBoth(s, t);
    LinesInTwoPieces(NOTHING, Lines(s), Lines(Partial(s) + t));
  }
}
