/** The command layer of the storage engine on top of the skip list. */
module SkipListWorkers {
  import opened Text
  import opened StoreFile
  import opened Commands
  import opened SkipLists

  const LEVEL_OF_SKIP_LIST: nat := 12

  class SkipListWorker {
    const myDB: SkipList
    var file: string  // the store file

    ghost predicate Valid()
      reads this, myDB, myDB.Repr
    {
      myDB.Valid() && this !in myDB.Repr
    }

    /** What the commands work on. */
    ghost function State(): Store
      reads this, myDB
    {
      Store(myDB.Contents(), file)
    }

    constructor (file: string)
      ensures Valid() && fresh(myDB) && fresh(myDB.Repr)
      ensures State() == Store(map[], file)
    {
      myDB := new SkipList(LEVEL_OF_SKIP_LIST);
      this.file := file;
    }

    method ParseCommand(cmd: string) returns (state: ParseState, cmdList: seq<string>)
      requires HasWord(cmd)
      ensures cmdList == Tokens(cmd) != []
      ensures state == CommandState(cmdList[0])
    {
      cmdList := SplitWords(cmd);
      WordsExist(cmd);
      state := CommandState(cmdList[0]);
    }

    /** The scan of the command line: word by word, stepping over the space behind each. */
    method SplitWords(cmd: string) returns (cmdList: seq<string>)
      ensures cmdList == Tokens(cmd)
    {
      cmdList := [];
      var right := 0;
      assert From(cmd, 0) == cmd;
      while right < |cmd|
        invariant right <= |cmd| + 1
        invariant Tokens(cmd) == cmdList + Tokens(From(cmd, right))
        decreases |cmd| + 1 - right
      {
        var str;
        str, right := NextWord(cmd, right);
        ghost var was, rest := cmdList, Tokens(From(cmd, right + 1));
        if |str| != 0 {
          cmdList := cmdList + [str];
          assert was + ([str] + rest) == cmdList + rest;
        }
        right := right + 1;
      }
    }

    /** What is left of a string from a position that may lie behind its end. */
    static function From(s: string, i: nat): string {
      if i <= |s| then s[i..] else ""
    }

    /** start, left and right bound a run of spaces and the run of other characters behind it. */
    static ghost predicate IsWord(cmd: string, start: nat, left: nat, right: nat) {
      && start <= left <= right <= |cmd|
      && (forall i :: start <= i < left ==> cmd[i] == ' ')
      && (forall i :: left <= i < right ==> cmd[i] != ' ')
      && (left < |cmd| ==> left < right)
      && (right < |cmd| ==> cmd[right] == ' ')
    }

    /** Skip the spaces, then step over the characters up to the next space. */
    method Scan(cmd: string, start: nat) returns (left: nat, right: nat)
      requires start <= |cmd|
      ensures IsWord(cmd, start, left, right)
    {
      right := start;
      while right < |cmd| && cmd[right] == ' '
        invariant start <= right <= |cmd|
        invariant forall i :: start <= i < right ==> cmd[i] == ' '
      {
        right := right + 1;
      }
      left := right;
      while right < |cmd| && cmd[right] != ' '
        invariant left <= right <= |cmd|
        invariant forall i :: left <= i < right ==> cmd[i] != ' '
      {
        right := right + 1;
      }
    }

    static lemma {:induction false} WordIsToken(cmd: string, start: nat, left: nat, right: nat)
      requires IsWord(cmd, start, left, right)
      ensures Tokens(From(cmd, start)) ==
        if cmd[left..right] != "" then [cmd[left..right]] + Tokens(From(cmd, right + 1))
        else Tokens(From(cmd, right + 1))
    {
      SpacesAt(cmd, start, left);
      WordAt(cmd, left, right);
    }

    method NextWord(cmd: string, start: nat) returns (str: string, right: nat)
      requires start <= |cmd|
      ensures start <= right <= |cmd|
      ensures Tokens(From(cmd, start)) ==
        if str != "" then [str] + Tokens(From(cmd, right + 1)) else Tokens(From(cmd, right + 1))
    {
      var left;
      left, right := Scan(cmd, start);
      str := cmd[left..right];
      WordIsToken(cmd, start, left, right);
    }

    static lemma {:induction false} SpacesAt(cmd: string, start: nat, left: nat)
      requires start <= left <= |cmd| && forall i :: start <= i < left ==> cmd[i] == ' '
      ensures Tokens(From(cmd, start)) == Tokens(From(cmd, left))
      decreases left - start
    {
      if start < left {
        assert cmd[start..][1..] == cmd[start + 1..];
        SpacesAt(cmd, start + 1, left);
      }
    }

    /** The word the scan finds between left and right, and the single space it steps over. */
    static lemma {:induction false} WordAt(cmd: string, left: nat, right: nat)
      requires IsWord(cmd, left, left, right)
      ensures Tokens(From(cmd, left)) ==
        if left < right then [cmd[left..right]] + Tokens(From(cmd, right + 1)) else Tokens(From(cmd, right + 1))
    {
      if left < right {
        FindIs(cmd[left..], ' ', right - left);
        assert cmd[left..][..right - left] == cmd[left..right];
        assert cmd[left..][right - left..] == cmd[right..];
        assert right < |cmd| ==> cmd[right..][1..] == cmd[right + 1..];
      }
    }

    method HandlerSET(cmdList: seq<string>) returns (reply: string)
      requires Valid() && cmdList != [] && CommandState(cmdList[0]) == SET
      modifies myDB, myDB.Repr
      ensures Valid() && fresh(myDB.Repr - old(myDB.Repr))
      ensures (State(), reply) == Execute(old(State()), cmdList)
    {
      if |cmdList| != 3 {
        return SET_USAGE;
      }
      var existed := myDB.InsertElement(cmdList[1], cmdList[2]);
      if existed == 0 {
        reply := "ok : SET successfully\n";
      } else {
        reply := "warning : " + cmdList[1] + "is already exited\n";
      }
    }

    method HandlerDEL(cmdList: seq<string>) returns (reply: string)
      requires Valid() && cmdList != [] && CommandState(cmdList[0]) == DEL
      modifies myDB, myDB.Repr
      ensures Valid() && fresh(myDB.Repr - old(myDB.Repr))
      ensures (State(), reply) == Execute(old(State()), cmdList)
    {
      if |cmdList| != 2 {
        return DEL_USAGE;
      }
      var existed := myDB.DeleteElement(cmdList[1]);
      if existed {
        reply := "ok : DEL successfully\n";
      } else {
        assert old(myDB.Contents()) - {cmdList[1]} == old(myDB.Contents());
        reply := "warning : " + cmdList[1] + " is not existed\n";
      }
    }

    method HandlerGET(cmdList: seq<string>) returns (reply: string)
      requires Valid() && cmdList != [] && CommandState(cmdList[0]) == GET
      ensures (State(), reply) == Execute(State(), cmdList)
    {
      if |cmdList| != 2 {
        return GET_USAGE;
      }
      var found := myDB.SearchElement(cmdList[1]);
      if found.Some? {
        reply := "ok : " + found.value + "\n";
      } else {
        reply := "warning : " + cmdList[1] + " is not existed\n";
      }
    }

    method HandlerDUMP() returns (reply: string)
      requires Valid()
      modifies this`file
      ensures Valid() && reply == "ok : dump file successfully\n"
      ensures State() == old(State()).(file := Dump(old(State()).db))
    {
      file := myDB.DumpFile();
      reply := "ok : dump file successfully\n";
    }

    method HandlerLOAD() returns (reply: string)
      requires Valid()
      modifies myDB, myDB.Repr
      ensures Valid() && fresh(myDB.Repr - old(myDB.Repr)) && reply == "ok : load file successfully\n"
      ensures State() == old(State()).(db := LoadText(old(State()).file, old(State()).db))
    {
      myDB.LoadFile(file);
      reply := "ok : load file successfully\n";
    }

    method DealWithCmd(cmd: string) returns (reply: string)
      requires Valid() && HasWord(cmd)
      modifies this, myDB, myDB.Repr
      ensures Valid() && fresh(myDB.Repr - old(myDB.Repr))
      ensures Tokens(cmd) != [] && (State(), reply) == Execute(old(State()), Tokens(cmd))
    {
      var state, cmdList := ParseCommand(cmd);
      match state {
        case ERR => reply := ERR_REPLY;
        case SET => reply := HandlerSET(cmdList);
        case GET => reply := HandlerGET(cmdList);
        case DEL => reply := HandlerDEL(cmdList);
        case LOAD => reply := HandlerLOAD();
        case DUMP => reply := HandlerDUMP();
      }
    }

    /** The server's loop over the messages of its clients. */
    method Serve(cmds: seq<string>) returns (replies: seq<string>)
      requires Valid() && AllHaveWords(cmds)
      modifies this, myDB, myDB.Repr
      ensures Valid() && fresh(myDB.Repr - old(myDB.Repr))
      ensures (State(), replies) == Run(old(State()), cmds)
    {
      replies := [];
      for i := 0 to |cmds|
        invariant Valid() && fresh(myDB.Repr - old(myDB.Repr))
        invariant (State(), replies) == Run(old(State()), cmds[..i])
      {
        RunSnoc(old(State()), cmds[..i], cmds[i]);
        assert cmds[..i + 1] == cmds[..i] + [cmds[i]];
        var reply := DealWithCmd(cmds[i]);
        replies := replies + [reply];
      }
      assert cmds[..|cmds|] == cmds;
    }
  }
}
