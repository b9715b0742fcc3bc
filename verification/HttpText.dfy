/** Lines ended by CR LF, and white space, as the request parser sees them. */
module HttpText {

  const CRLF: string := "\r\n"

  /** std::search for CR LF: where the first one starts, |s| if there is none. */
  function FindCrlf(s: string): (i: nat)
    ensures i <= |s|
    ensures i < |s| ==> i + 2 <= |s| && s[i] == '\r' && s[i + 1] == '\n'
  {
    if |s| < 2 then |s|
    else if s[0] == '\r' && s[1] == '\n' then 0
    else FindCrlf(s[1..]) + 1
  }

  predicate CrlfFree(s: string) {
    FindCrlf(s) == |s|
  }

  /** No CR LF starts before the one that was found. */
  lemma {:induction false} FindCrlfIsFirst(s: string, j: nat)
    requires j < FindCrlf(s) && j + 1 < |s|
    ensures !(s[j] == '\r' && s[j + 1] == '\n')
  {
    if j > 0 {
      FindCrlfIsFirst(s[1..], j - 1);
    }
  }

  lemma {:induction false} FindCrlfIs(s: string, i: nat)
    requires i + 1 < |s| && s[i] == '\r' && s[i + 1] == '\n'
    requires forall j {:trigger s[j]} :: 0 <= j < i ==> !(s[j] == '\r' && s[j + 1] == '\n')
    ensures FindCrlf(s) == i
  {
    if i > 0 {
      assert s[0] == s[0];
      FindCrlfIs(s[1..], i - 1);
    }
  }

  lemma {:induction false} CrlfFreeIs(s: string)
    ensures CrlfFree(s) <==> forall j {:trigger s[j]} :: 0 <= j < |s| - 1 ==> !(s[j] == '\r' && s[j + 1] == '\n')
  {
    if CrlfFree(s) {
      forall j | 0 <= j < |s| - 1
        ensures !(s[j] == '\r' && s[j + 1] == '\n')
      {
        FindCrlfIsFirst(s, j);
      }
    }
  }

  /** A CR LF after a text without one is the first: the two never overlap. */
  lemma {:induction false} FirstAfterFree(line: string, rest: string)
    requires CrlfFree(line)
    ensures FindCrlf(line + CRLF + rest) == |line|
  {
    var s := line + CRLF + rest;
    CrlfFreeIs(line);
    forall j {:trigger s[j]} | 0 <= j < |line|
      ensures !(s[j] == '\r' && s[j + 1] == '\n')
    {
      assert s[j] == line[j];
      assert s[|line|] == '\r';
    }
    FindCrlfIs(s, |line|);
  }

  lemma {:induction false} UpToFirstIsFree(s: string)
    ensures CrlfFree(s[..FindCrlf(s)])
  {
    var line := s[..FindCrlf(s)];
    forall j {:trigger line[j]} | 0 <= j < |line| - 1
      ensures !(line[j] == '\r' && line[j + 1] == '\n')
    {
      FindCrlfIsFirst(s, j);
    }
    CrlfFreeIs(line);
  }

  lemma {:induction false} FreeOfBoth(s: string, c: char, t: string)
    requires c != '\r' && c != '\n'
    ensures CrlfFree(s + [c] + t) <==> CrlfFree(s) && CrlfFree(t)
  {
    var u := s + [c] + t;
    CrlfFreeIs(s);
    CrlfFreeIs(t);
    CrlfFreeIs(u);
    if CrlfFree(u) {
      forall j {:trigger s[j]} | 0 <= j < |s| - 1
        ensures !(s[j] == '\r' && s[j + 1] == '\n')
      {
        assert u[j] == s[j];
      }
      forall j {:trigger t[j]} | 0 <= j < |t| - 1
        ensures !(t[j] == '\r' && t[j + 1] == '\n')
      {
        assert u[|s| + 1 + j] == t[j];
      }
    }
    if CrlfFree(s) && CrlfFree(t) {
      forall j {:trigger u[j]} | 0 <= j < |u| - 1
        ensures !(u[j] == '\r' && u[j + 1] == '\n')
      {
        assert j < |s| ==> u[j] == s[j];
        assert j > |s| ==> u[j] == t[j - |s| - 1];
      }
    }
  }

  /** The complete lines of s, without their CR LF. */
  ghost function Lines(s: string): (r: seq<string>)
    decreases |s|
  {
    var i := FindCrlf(s);
    if i == |s| then [] else [s[..i]] + Lines(s[i + 2..])
  }

  /** What follows the last complete line. */
  ghost function Partial(s: string): (r: string)
    decreases |s|
  {
    var i := FindCrlf(s);
    if i == |s| then s else Partial(s[i + 2..])
  }

  ghost function Joined(lines: seq<string>): (r: string) {
    if lines == [] then "" else lines[0] + CRLF + Joined(lines[1..])
  }

  /** A text with a complete line: that line, and the text after it. */
  lemma {:induction false} FirstLine(s: string)
    requires FindCrlf(s) < |s|
    ensures s == s[..FindCrlf(s)] + CRLF + s[FindCrlf(s) + 2..] && CrlfFree(s[..FindCrlf(s)])
  {
    var i := FindCrlf(s);
    UpToFirstIsFree(s);
    assert s[i..i + 2] == CRLF;
    assert s == s[..i] + s[i..i + 2] + s[i + 2..];
  }

  lemma {:induction false} OneMoreLine(line: string, rest: string)
    requires CrlfFree(line)
    ensures Lines(line + CRLF + rest) == [line] + Lines(rest)
    ensures Partial(line + CRLF + rest) == Partial(rest)
  {
    var s := line + CRLF + rest;
    FirstAfterFree(line, rest);
    assert s[..|line|] == line && s[|line| + 2..] == rest;
  }

  lemma {:induction false} JoinedOneMore(line: string, lines: seq<string>, rest: string)
    ensures Joined([line] + lines) + rest == line + CRLF + (Joined(lines) + rest)
  {
  }

  ghost predicate AllFree(lines: seq<string>) {
    forall k {:trigger lines[k]} :: 0 <= k < |lines| ==> CrlfFree(lines[k])
  }

  /** The lines are free of CR LF, so is the rest, and together they are the text. */
  lemma {:induction false} LinesMakeText(s: string)
    ensures Joined(Lines(s)) + Partial(s) == s
    ensures CrlfFree(Partial(s)) && AllFree(Lines(s))
    decreases |s|
  {
    var i := FindCrlf(s);
    if i < |s| {
      var line, rest := s[..i], s[i + 2..];
      FirstLine(s);
      LinesMakeText(rest);
      JoinedOneMore(line, Lines(rest), Partial(rest));
    }
  }

  lemma {:induction false} OneInFront(line: string, lines: seq<string>, after: seq<string>,
                                      s: seq<string>, t: seq<string>)
    requires lines != [] && line == lines[0] && s == [line] + t && t == lines[1..] + after
    ensures s == lines + after
  {
  }

  /** ... and that determines them. */
  lemma {:induction false} LinesAre(lines: seq<string>, rest: string)
    requires AllFree(lines)
    ensures Lines(Joined(lines) + rest) == lines + Lines(rest) && Partial(Joined(lines) + rest) == Partial(rest)
  {
    if lines == [] {
      assert Joined(lines) + rest == rest;
    } else {
      var line, tail := lines[0], Joined(lines[1..]) + rest;
      assert Joined(lines) + rest == line + CRLF + tail;
      OneMoreLine(line, tail);
      LinesAre(lines[1..], rest);
      OneInFront(line, lines, Lines(rest), Lines(line + CRLF + tail), Lines(tail));
    }
  }

  /** The lines of a text in two pieces: those of the first, and those of its rest with the second. */
  lemma {:induction false} LinesOfBoth(s: string, t: string)
    ensures Lines(s + t) == Lines(s) + Lines(Partial(s) + t)
  {
    LinesMakeText(s);
    LinesAre(Lines(s), Partial(s) + t);
    Reassociate(Joined(Lines(s)), Partial(s), s, t);
  }

  lemma {:induction false} Reassociate(a: string, b: string, s: string, t: string)
    requires a + b == s
    ensures a + (b + t) == s + t
  {
  }

  /** isspace of the C library in its default locale. */
  predicate IsSpace(c: char) {
    c == ' ' || (9 as char <= c <= 13 as char)
  }

  /** The blank, and horizontal tab, line feed, vertical tab, form feed and carriage return. */
  lemma {:induction false} SixSpaces(c: char)
    ensures IsSpace(c) <==> c as int in {32, 9, 10, 11, 12, 13}
  {
  }

  predicate Blank(s: string) {
    forall i :: 0 <= i < |s| ==> IsSpace(s[i])
  }

  /** Neither end of s is a space. */
  predicate Tight(s: string) {
    s != "" ==> !IsSpace(s[0]) && !IsSpace(s[|s| - 1])
  }

  function TrimLeft(s: string): (r: string)
    ensures |r| <= |s|
  {
    if s != "" && IsSpace(s[0]) then TrimLeft(s[1..]) else s
  }

  function TrimRight(s: string): (r: string)
    ensures |r| <= |s|
  {
    if s != "" && IsSpace(s[|s| - 1]) then TrimRight(s[..|s| - 1]) else s
  }

  function Trim(s: string): string {
    TrimRight(TrimLeft(s))
  }

  lemma {:induction false} TrimLeftSplits(s: string) returns (pre: string)
    ensures Blank(pre) && s == pre + TrimLeft(s)
    ensures TrimLeft(s) != "" ==> !IsSpace(TrimLeft(s)[0])
  {
    if s != "" && IsSpace(s[0]) {
      var p := TrimLeftSplits(s[1..]);
      pre := [s[0]] + p;
    } else {
      pre := "";
    }
  }

  lemma {:induction false} TrimRightSplits(s: string) returns (post: string)
    ensures Blank(post) && s == TrimRight(s) + post
    ensures TrimRight(s) != "" ==> !IsSpace(TrimRight(s)[|TrimRight(s)| - 1])
  {
    if s != "" && IsSpace(s[|s| - 1]) {
      var p := TrimRightSplits(s[..|s| - 1]);
      post := p + [s[|s| - 1]];
      assert s == s[..|s| - 1] + [s[|s| - 1]];
    } else {
      post := "";
    }
  }

  /** Trimming takes white space off both ends and all of it. */
  lemma {:induction false} TrimSplits(s: string) returns (pre: string, post: string)
    ensures Blank(pre) && Blank(post) && Tight(Trim(s)) && s == pre + Trim(s) + post
  {
    pre := TrimLeftSplits(s);
    post := TrimRightSplits(TrimLeft(s));
    assert s == pre + (Trim(s) + post);
  }

  lemma {:induction false} TrimLeftPads(pre: string, v: string)
    requires Blank(pre) && (v != "" ==> !IsSpace(v[0]))
    ensures TrimLeft(pre + v) == v
  {
    if pre == "" {
      assert pre + v == v;
    } else {
      TrimLeftPads(pre[1..], v);
      assert (pre + v)[1..] == pre[1..] + v && (pre + v)[0] == pre[0];
    }
  }

  lemma {:induction false} TrimRightPads(v: string, post: string)
    requires Blank(post) && (v != "" ==> !IsSpace(v[|v| - 1]))
    ensures TrimRight(v + post) == v
  {
    if post == "" {
      assert v + post == v;
    } else {
      var n := |post| - 1;
      TrimRightPads(v, post[..n]);
      assert (v + post)[..|v| + n] == v + post[..n] && (v + post)[|v| + n] == post[n];
    }
  }

  /** The value v with some of the six characters before and behind it. */
  ghost predicate Padded(text: string, pre: string, v: string, post: string) {
    && text == pre + v + post
    && (forall i :: 0 <= i < |pre| ==> pre[i] as int in {32, 9, 10, 11, 12, 13})
    && (forall i :: 0 <= i < |post| ==> post[i] as int in {32, 9, 10, 11, 12, 13})
    && (v != "" ==> v[0] as int !in {32, 9, 10, 11, 12, 13} && v[|v| - 1] as int !in {32, 9, 10, 11, 12, 13})
  }

  lemma {:induction false} PaddingIsTrimmed(text: string, pre: string, v: string, post: string)
    requires Padded(text, pre, v, post)
    ensures Trim(text) == v
  {
    TrimPads(pre, v, post);
  }

  /** White space around a value is not part of it. */
  lemma {:induction false} TrimPads(pre: string, v: string, post: string)
    requires Blank(pre) && Blank(post) && Tight(v)
    ensures Trim(pre + v + post) == v
  {
    if v == "" {
      assert pre + v + post == pre + post + "" && Blank(pre + post);
      TrimLeftPads(pre + post, "");
      assert TrimRight("") == "";
    } else {
      assert pre + v + post == pre + (v + post);
      TrimLeftPads(pre, v + post);
      TrimRightPads(v, post);
    }
  }
}
