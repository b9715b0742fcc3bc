/** The command language of the store, over a finite map and a stored file. */
module Commands {
  import opened Options
  import opened StoreFile
  import opened Text

  datatype ParseState = ERR | SET | GET | DEL | LOAD | DUMP

  /** The map in memory and the text in the store file. */
  datatype Store = Store(db: map<string, string>, file: string)

  /** The words of a command: the maximal runs of non-spaces. */
  function Tokens(cmd: string): seq<string>
    decreases |cmd|
  {
    if cmd == "" then []
    else if cmd[0] == ' ' then Tokens(cmd[1..])
    else [cmd[..Find(cmd, ' ')]] + Tokens(cmd[Find(cmd, ' ')..])
  }

  function Upper(s: string): (r: string)
    ensures |r| == |s|
  {
    seq(|s|, i requires 0 <= i < |s| => if 'a' <= s[i] <= 'z' then (s[i] as int - 32) as char else s[i])
  }

  function CommandState(name: string): ParseState {
    var n := Upper(name);
    if n == "SET" then SET
    else if n == "GET" then GET
    else if n == "DEL" then DEL
    else if n == "LOAD" then LOAD
    else if n == "DUMP" then DUMP
    else ERR
  }

  /** The name is this word, each letter in upper or lower case. */
  predicate Spells(name: string, word: string) {
    |name| == |word| && forall i :: 0 <= i < |word| ==> SameLetter(name[i], word[i])
  }

  predicate SameLetter(c: char, letter: char) {
    c == letter || c as int == letter as int + 32
  }

  lemma {:induction false} UpperSpells(name: string, word: string)
    requires forall i :: 0 <= i < |word| ==> 'A' <= word[i] <= 'Z'
    ensures Upper(name) == word <==> Spells(name, word)
  {
    if Spells(name, word) {
      assert forall i :: 0 <= i < |word| ==> SameLetter(name[i], word[i]) && Upper(name)[i] == word[i];
    }
    if Upper(name) == word {
      assert forall i :: 0 <= i < |word| ==> Upper(name)[i] == word[i];
    }
  }

  /** Which word is which command. */
  lemma {:induction false} CommandIsWord(name: string)
    ensures CommandState(name) == SET <==> Spells(name, "SET")
    ensures CommandState(name) == GET <==> Spells(name, "GET")
    ensures CommandState(name) == DEL <==> Spells(name, "DEL")
    ensures CommandState(name) == LOAD <==> Spells(name, "LOAD")
    ensures CommandState(name) == DUMP <==> Spells(name, "DUMP")
    ensures CommandState(name) == ERR <==> !Spells(name, "SET") && !Spells(name, "GET") && !Spells(name, "DEL")
                                           && !Spells(name, "LOAD") && !Spells(name, "DUMP")
  {
    UpperSpells(name, "SET");
    UpperSpells(name, "GET");
    UpperSpells(name, "DEL");
    UpperSpells(name, "LOAD");
    UpperSpells(name, "DUMP");
  }

  /** The same, letter by letter. */
  lemma {:induction false} CommandLetters(n: string)
    ensures CommandState(n) == SET <==> |n| == 3 && n[0] in {'S', 's'} && n[1] in {'E', 'e'} && n[2] in {'T', 't'}
    ensures CommandState(n) == GET <==> |n| == 3 && n[0] in {'G', 'g'} && n[1] in {'E', 'e'} && n[2] in {'T', 't'}
    ensures CommandState(n) == DEL <==> |n| == 3 && n[0] in {'D', 'd'} && n[1] in {'E', 'e'} && n[2] in {'L', 'l'}
    ensures CommandState(n) == LOAD <==>
            |n| == 4 && n[0] in {'L', 'l'} && n[1] in {'O', 'o'} && n[2] in {'A', 'a'} && n[3] in {'D', 'd'}
    ensures CommandState(n) == DUMP <==>
            |n| == 4 && n[0] in {'D', 'd'} && n[1] in {'U', 'u'} && n[2] in {'M', 'm'} && n[3] in {'P', 'p'}
  {
    CommandIsWord(n);
    ThreeLetters(n, "SET");
    ThreeLetters(n, "GET");
    ThreeLetters(n, "DEL");
    FourLetters(n, "LOAD");
    FourLetters(n, "DUMP");
  }

  lemma {:induction false} ThreeLetters(n: string, w: string)
    requires |w| == 3
    ensures Spells(n, w) <==> |n| == 3 && SameLetter(n[0], w[0]) && SameLetter(n[1], w[1]) && SameLetter(n[2], w[2])
  {
  }

  lemma {:induction false} FourLetters(n: string, w: string)
    requires |w| == 4
    ensures Spells(n, w) <==> |n| == 4 && SameLetter(n[0], w[0]) && SameLetter(n[1], w[1]) && SameLetter(n[2], w[2])
                              && SameLetter(n[3], w[3])
  {
  }

  const ERR_REPLY := "error : please enter a correct command : SET/DEL/GET/LOAD/DUMP\n"
  const SET_USAGE := "error : please enter a correct command : SET key value\n"
  const DEL_USAGE := "error : please enter a correct command : DEL key\n"
  const GET_USAGE := "please enter a correct command : GET key\n"

  /** What one command does, on a finite map. */
  ghost function Execute(s: Store, words: seq<string>): (Store, string)
    requires words != []
  {
    match CommandState(words[0])
    case ERR => (s, ERR_REPLY)
    case SET =>
      if |words| != 3 then (s, SET_USAGE)
      else if words[1] in s.db then
        (s.(db := s.db[words[1] := words[2]]), "warning : " + words[1] + "is already exited\n")
      else
        (s.(db := s.db[words[1] := words[2]]), "ok : SET successfully\n")
    case GET =>
      if |words| != 2 then (s, GET_USAGE)
      else if words[1] in s.db then (s, "ok : " + s.db[words[1]] + "\n")
      else (s, "warning : " + words[1] + " is not existed\n")
    case DEL =>
      if |words| != 2 then (s, DEL_USAGE)
      else if words[1] in s.db then (s.(db := s.db - {words[1]}), "ok : DEL successfully\n")
      else (s, "warning : " + words[1] + " is not existed\n")
    case LOAD => (s.(db := LoadText(s.file, s.db)), "ok : load file successfully\n")
    case DUMP => (s.(file := Dump(s.db)), "ok : dump file successfully\n")
  }

  /** A command with at least one word in it. */
  ghost predicate HasWord(cmd: string) {
    exists i :: 0 <= i < |cmd| && cmd[i] != ' '
  }

  lemma {:induction false} WordsExist(cmd: string)
    ensures HasWord(cmd) <==> Tokens(cmd) != []
    decreases |cmd|
  {
    if cmd != "" {
      if cmd[0] == ' ' {
        WordsExist(cmd[1..]);
        if HasWord(cmd) {
          var i :| 0 <= i < |cmd| && cmd[i] != ' ';
          assert cmd[1..][i - 1] != ' ';
        }
        if HasWord(cmd[1..]) {
          var i :| 0 <= i < |cmd[1..]| && cmd[1..][i] != ' ';
          assert cmd[i + 1] != ' ';
        }
      } else {
        assert cmd[0] != ' ';
      }
    }
  }

  ghost predicate AllHaveWords(cmds: seq<string>) {
    forall i :: 0 <= i < |cmds| ==> HasWord(cmds[i])
  }

  /** One reply per command; the store goes from each to the next. */
  ghost function Run(s: Store, cmds: seq<string>): (Store, seq<string>)
    requires AllHaveWords(cmds)
    decreases |cmds|
  {
    if cmds == [] then
      (s, [])
    else
      WordsExist(cmds[0]);
      var first := Execute(s, Tokens(cmds[0]));
      var rest := Run(first.0, cmds[1..]);
      (rest.0, [first.1] + rest.1)
  }

  lemma {:induction false} RunSnoc(s: Store, cmds: seq<string>, cmd: string)
    requires AllHaveWords(cmds) && HasWord(cmd)
    ensures Tokens(cmd) != []
    ensures Run(s, cmds + [cmd]).0 == Execute(Run(s, cmds).0, Tokens(cmd)).0
    ensures Run(s, cmds + [cmd]).1 == Run(s, cmds).1 + [Execute(Run(s, cmds).0, Tokens(cmd)).1]
    decreases |cmds|
  {
    WordsExist(cmd);
    if cmds == [] {
      assert cmds + [cmd] == [cmd] && [cmd][1..] == [];
    } else {
      WordsExist(cmds[0]);
      RunSnoc(Execute(s, Tokens(cmds[0])).0, cmds[1..], cmd);
      assert (cmds + [cmd])[1..] == cmds[1..] + [cmd] && (cmds + [cmd])[0] == cmds[0];
    }
  }

  // ----- spacing and case -----

  function Spaces(n: nat): (r: string)
    ensures |r| == n && forall i :: 0 <= i < n ==> r[i] == ' '
  {
    seq(n, _ => ' ')
  }

  /** words written out: gaps[i] spaces before words[i], the last gap after the last word. */
  ghost function Spaced(words: seq<string>, gaps: seq<nat>): string
    requires |gaps| == |words| + 1
    decreases |words|
  {
    if words == [] then Spaces(gaps[0]) else Spaces(gaps[0]) + words[0] + Spaced(words[1..], gaps[1..])
  }

  /** Words are non-empty and free of spaces; something separates each two of them. */
  ghost predicate ProperSpacing(words: seq<string>, gaps: seq<nat>) {
    && |gaps| == |words| + 1
    && (forall i :: 0 <= i < |words| ==> words[i] != "" && ' ' !in words[i])
    && (forall i :: 0 < i < |words| ==> gaps[i] > 0)
  }

  lemma {:induction false} SkipSpaces(n: nat, rest: string)
    ensures Tokens(Spaces(n) + rest) == Tokens(rest)
  {
    if n == 0 {
      assert Spaces(0) + rest == rest;
    } else {
      assert (Spaces(n) + rest)[1..] == Spaces(n - 1) + rest;
      SkipSpaces(n - 1, rest);
    }
  }

  lemma {:induction false} FirstWord(w: string, rest: string)
    requires w != "" && ' ' !in w && (rest == "" || rest[0] == ' ')
    ensures Tokens(w + rest) == [w] + Tokens(rest)
  {
    FindIs(w + rest, ' ', |w|);
    assert (w + rest)[..|w|] == w && (w + rest)[|w|..] == rest;
  }

  lemma {:induction false} GapFollows(words: seq<string>, gaps: seq<nat>)
    requires ProperSpacing(words, gaps) && words != []
    ensures ProperSpacing(words[1..], gaps[1..])
    ensures var rest := Spaced(words[1..], gaps[1..]); rest == "" || rest[0] == ' '
  {
    if |words| > 1 {
      assert gaps[1..][0] > 0;
    }
  }

  /** However the words are spaced, they are the tokens. */
  lemma {:induction false} TokensOfSpaced(words: seq<string>, gaps: seq<nat>)
    requires ProperSpacing(words, gaps)
    ensures Tokens(Spaced(words, gaps)) == words
    decreases |words|
  {
    if words == [] {
      SkipSpaces(gaps[0], "");
      assert Spaces(gaps[0]) + "" == Spaces(gaps[0]);
    } else {
      var rest := Spaced(words[1..], gaps[1..]);
      GapFollows(words, gaps);
      TokensOfSpaced(words[1..], gaps[1..]);
      SkipSpaces(gaps[0], words[0] + rest);
      FirstWord(words[0], rest);
      assert Spaced(words, gaps) == Spaces(gaps[0]) + (words[0] + rest);
    }
  }

  /** Conversely every command is its tokens, properly spaced. */
  lemma {:induction false} SpacedOfTokens(cmd: string) returns (gaps: seq<nat>)
    ensures ProperSpacing(Tokens(cmd), gaps) && cmd == Spaced(Tokens(cmd), gaps)
    ensures cmd != "" && cmd[0] != ' ' ==> gaps[0] == 0
    decreases |cmd|
  {
    if cmd == "" {
      gaps := [0];
    } else if cmd[0] == ' ' {
      var g := SpacedOfTokens(cmd[1..]);
      gaps := [g[0] + 1] + g[1..];
      OneMoreSpace(Tokens(cmd), g, gaps);
      assert cmd == " " + cmd[1..];
    } else {
      var n := Find(cmd, ' ');
      var g := SpacedOfTokens(cmd[n..]);
      gaps := [0] + g;
      OneMoreWord(cmd[..n], Tokens(cmd[n..]), g, gaps);
      assert cmd == cmd[..n] + cmd[n..];
    }
  }

  lemma {:induction false} OneMoreSpace(words: seq<string>, g: seq<nat>, gaps: seq<nat>)
    requires |g| == |words| + 1 && gaps == [g[0] + 1] + g[1..]
    ensures Spaced(words, gaps) == " " + Spaced(words, g)
  {
  }

  lemma {:induction false} OneMoreWord(w: string, words: seq<string>, g: seq<nat>, gaps: seq<nat>)
    requires ProperSpacing(words, g) && gaps == [0] + g && w != "" && ' ' !in w
    requires Spaced(words, g) == "" || Spaced(words, g)[0] == ' '
    ensures ProperSpacing([w] + words, gaps) && Spaced([w] + words, gaps) == w + Spaced(words, g)
  {
  }

  /** The letters of the two are the same, or the small and the capital one. */
  predicate SameUpToCase(a: string, b: string) {
    |a| == |b| && forall i {:trigger a[i]} {:trigger b[i]} :: 0 <= i < |a| ==>
      || a[i] == b[i]
      || ('A' <= a[i] <= 'Z' && b[i] as int == a[i] as int + 32)
      || ('A' <= b[i] <= 'Z' && a[i] as int == b[i] as int + 32)
  }

  /** Two commands with the same words, the first up to case, do the same. */
  lemma {:induction false} SpacingAndCaseDoNotMatter(
    s: Store, words: seq<string>, words': seq<string>, gaps: seq<nat>, gaps': seq<nat>)
    requires ProperSpacing(words, gaps) && ProperSpacing(words', gaps')
    requires words != [] && words' != [] && SameUpToCase(words[0], words'[0]) && words[1..] == words'[1..]
    ensures Tokens(Spaced(words, gaps)) != [] && Tokens(Spaced(words', gaps')) != []
    ensures Execute(s, Tokens(Spaced(words, gaps))) == Execute(s, Tokens(Spaced(words', gaps')))
  {
    TokensOfSpaced(words, gaps);
    TokensOfSpaced(words', gaps');
    SameUpper(words[0], words'[0]);
    assert forall i :: 0 < i < |words| ==> words[i] == words[1..][i - 1] == words'[i];
  }

  lemma {:induction false} SameUpper(a: string, b: string)
    requires SameUpToCase(a, b)
    ensures Upper(a) == Upper(b)
  {
  }

  // ----- whole runs -----

  predicate IsLoad(cmd: string) {
    Tokens(cmd) != [] && Spells(Tokens(cmd)[0], "LOAD")
  }

  predicate IsDump(cmd: string) {
    Tokens(cmd) != [] && Spells(Tokens(cmd)[0], "DUMP")
  }

  function Lookup(m: map<string, string>, k: string): Option<string> {
    if k in m then Some(m[k]) else None
  }

  /** The file after a history: what the last DUMP wrote, or what was there before. */
  ghost function LastDump(s: Store, cmds: seq<string>): string
    requires AllHaveWords(cmds)
    decreases |cmds|
  {
    if cmds == [] then s.file
    else
      var before := cmds[..|cmds| - 1];
      if IsDump(cmds[|cmds| - 1]) then Dump(Run(s, before).0.db) else LastDump(s, before)
  }

  /** What the last command of a history that says something about k says: a SET or DEL on it, or a LOAD
      of a file with k in it. */
  ghost function Latest(s: Store, cmds: seq<string>, k: string): Option<string>
    requires AllHaveWords(cmds)
    decreases |cmds|
  {
    if cmds == [] then Lookup(s.db, k)
    else
      var before, w := cmds[..|cmds| - 1], Tokens(cmds[|cmds| - 1]);
      if |w| == 3 && Spells(w[0], "SET") && w[1] == k then Some(w[2])
      else if |w| == 2 && Spells(w[0], "DEL") && w[1] == k then None
      else if IsLoad(cmds[|cmds| - 1]) && k in LoadText(LastDump(s, before), map[]) then
        Some(LoadText(LastDump(s, before), map[])[k])
      else Latest(s, before, k)
  }

  lemma {:induction false} FileIsLastDump(s: Store, cmds: seq<string>)
    requires AllHaveWords(cmds)
    ensures Run(s, cmds).0.file == LastDump(s, cmds)
    decreases |cmds|
  {
    if cmds != [] {
      var n := |cmds| - 1;
      FileIsLastDump(s, cmds[..n]);
      WordsExist(cmds[n]);
      CommandIsWord(Tokens(cmds[n])[0]);
      assert cmds == cmds[..n] + [cmds[n]];
      RunSnoc(s, cmds[..n], cmds[n]);
    }
  }

  /** One command, and what it leaves a key bound to. */
  lemma {:induction false} ExecuteBinds(s: Store, w: seq<string>, k: string)
    requires w != []
    ensures Lookup(Execute(s, w).0.db, k) ==
            if |w| == 3 && Spells(w[0], "SET") && w[1] == k then Some(w[2])
            else if |w| == 2 && Spells(w[0], "DEL") && w[1] == k then None
            else if Spells(w[0], "LOAD") && k in LoadText(s.file, map[]) then Some(LoadText(s.file, map[])[k])
            else Lookup(s.db, k)
  {
    CommandIsWord(w[0]);
    LoadIsOverride(s.file, s.db);
  }

  /** A key is bound to what the last command that says something about it says. */
  lemma {:induction false} LastWriteWins(s: Store, cmds: seq<string>, k: string)
    requires AllHaveWords(cmds)
    ensures Lookup(Run(s, cmds).0.db, k) == Latest(s, cmds, k)
    decreases |cmds|
  {
    if cmds != [] {
      var n := |cmds| - 1;
      var before := cmds[..n];
      LastWriteWins(s, before, k);
      FileIsLastDump(s, before);
      assert cmds == before + [cmds[n]];
      RunSnoc(s, before, cmds[n]);
      ExecuteBinds(Run(s, before).0, Tokens(cmds[n]), k);
    }
  }

  /** Reply number i is that to command number i, after the commands before it. */
  lemma {:induction false} ReplyAt(s: Store, cmds: seq<string>, i: nat)
    requires AllHaveWords(cmds) && i < |cmds|
    ensures |Run(s, cmds).1| == |cmds| && Tokens(cmds[i]) != []
    ensures Run(s, cmds).1[i] == Execute(Run(s, cmds[..i]).0, Tokens(cmds[i])).1
    decreases |cmds|
  {
    var n := |cmds| - 1;
    assert cmds == cmds[..n] + [cmds[n]];
    WordsExist(cmds[i]);
    RunSnoc(s, cmds[..n], cmds[n]);
    if n > 0 {
      ReplyAt(s, cmds[..n], if i < n then i else 0);
    }
    assert i < n ==> cmds[..n][..i] == cmds[..i];
  }

  function GetReply(k: string, bound: Option<string>): (r: string)
    ensures bound.Some? ==> r == "ok : " + bound.value + "\n"
    ensures bound.None? ==> r == "warning : " + k + " is not existed\n"
  {
    if bound.Some? then "ok : " + bound.value + "\n" else "warning : " + k + " is not existed\n"
  }

  function SetReply(k: string, bound: Option<string>): (r: string)
    ensures bound.Some? ==> r == "warning : " + k + "is already exited\n"
    ensures bound.None? ==> r == "ok : SET successfully\n"
  {
    if bound.Some? then "warning : " + k + "is already exited\n" else "ok : SET successfully\n"
  }

  function DelReply(k: string, bound: Option<string>): (r: string)
    ensures bound.Some? ==> r == "ok : DEL successfully\n"
    ensures bound.None? ==> r == "warning : " + k + " is not existed\n"
  {
    if bound.Some? then "ok : DEL successfully\n" else "warning : " + k + " is not existed\n"
  }

  /** What a command replies and leaves, by its words. */
  lemma {:induction false} ExecuteReplies(s: Store, w: seq<string>)
    requires w != []
    ensures Spells(w[0], "GET") && |w| == 2 ==>
              Execute(s, w) == (s, GetReply(w[1], Lookup(s.db, w[1])))
    ensures Spells(w[0], "GET") && |w| != 2 ==> Execute(s, w) == (s, "please enter a correct command : GET key\n")
    ensures Spells(w[0], "SET") && |w| == 3 ==>
              Execute(s, w) == (Store(s.db[w[1] := w[2]], s.file), SetReply(w[1], Lookup(s.db, w[1])))
    ensures Spells(w[0], "SET") && |w| != 3 ==>
              Execute(s, w) == (s, "error : please enter a correct command : SET key value\n")
    ensures Spells(w[0], "DEL") && |w| == 2 ==>
              Execute(s, w) == (Store(s.db - {w[1]}, s.file), DelReply(w[1], Lookup(s.db, w[1])))
    ensures Spells(w[0], "DEL") && |w| != 2 ==>
              Execute(s, w) == (s, "error : please enter a correct command : DEL key\n")
    ensures Spells(w[0], "LOAD") ==>
              Execute(s, w) == (Store(LoadText(s.file, s.db), s.file), "ok : load file successfully\n")
    ensures Spells(w[0], "DUMP") ==> Execute(s, w) == (Store(s.db, Dump(s.db)), "ok : dump file successfully\n")
    ensures !Spells(w[0], "SET") && !Spells(w[0], "GET") && !Spells(w[0], "DEL") && !Spells(w[0], "LOAD")
            && !Spells(w[0], "DUMP") ==>
              Execute(s, w) == (s, "error : please enter a correct command : SET/DEL/GET/LOAD/DUMP\n")
  {
    CommandIsWord(w[0]);
    assert |w| > 1 && w[1] !in s.db ==> s.db - {w[1]} == s.db;
  }

  /** On any run, the replies to GET, SET and DEL say what was last said about the key before. */
  lemma {:induction false} RepliesSayLatest(s: Store, cmds: seq<string>, i: nat, k: string)
    requires AllHaveWords(cmds) && i < |cmds| && |Tokens(cmds[i])| > 1 && Tokens(cmds[i])[1] == k
    ensures |Run(s, cmds).1| == |cmds|
    ensures Spells(Tokens(cmds[i])[0], "GET") && |Tokens(cmds[i])| == 2 ==>
              Run(s, cmds).1[i] == GetReply(k, Latest(s, cmds[..i], k))
    ensures Spells(Tokens(cmds[i])[0], "SET") && |Tokens(cmds[i])| == 3 ==>
              Run(s, cmds).1[i] == SetReply(k, Latest(s, cmds[..i], k))
    ensures Spells(Tokens(cmds[i])[0], "DEL") && |Tokens(cmds[i])| == 2 ==>
              Run(s, cmds).1[i] == DelReply(k, Latest(s, cmds[..i], k))
  {
    ReplyAt(s, cmds, i);
    LastWriteWins(s, cmds[..i], k);
    ExecuteReplies(Run(s, cmds[..i]).0, Tokens(cmds[i]));
  }

  lemma {:induction false} FileKept(s: Store, cmds: seq<string>)
    requires AllHaveWords(cmds) && forall i :: 0 <= i < |cmds| ==> !IsDump(cmds[i])
    ensures Run(s, cmds).0.file == s.file
    decreases |cmds|
  {
    if cmds != [] {
      var n := |cmds| - 1;
      FileKept(s, cmds[..n]);
      assert cmds == cmds[..n] + [cmds[n]];
      RunSnoc(s, cmds[..n], cmds[n]);
      CommandIsWord(Tokens(cmds[n])[0]);
      assert !IsDump(cmds[n]);
    }
  }

  /** DUMP, then anything but DUMP, then LOAD: what the dump says is back, over what came since. All
      that was there at the dump is what it says exactly if all of it could be stored. */
  lemma {:induction false} DumpThenLoadRestores(s: Store, dump: string, cmds: seq<string>, load: string)
    requires IsDump(dump) && IsLoad(load) && AllHaveWords(cmds)
    requires forall i :: 0 <= i < |cmds| ==> !IsDump(cmds[i])
    ensures Tokens(dump) != [] && Tokens(load) != []
    ensures var between := Run(Execute(s, Tokens(dump)).0, cmds).0;
      Execute(between, Tokens(load)).0.db == between.db + LoadText(Dump(s.db), map[])
    ensures LoadText(Dump(s.db), map[]) == s.db <==> AllStorable(s.db)
  {
    CommandIsWord(Tokens(dump)[0]);
    CommandIsWord(Tokens(load)[0]);
    var dumped := Execute(s, Tokens(dump)).0;
    FileKept(dumped, cmds);
    LoadIsOverride(Dump(s.db), Run(dumped, cmds).0.db);
    DumpLoadRoundTrip(s.db);
  }
}
