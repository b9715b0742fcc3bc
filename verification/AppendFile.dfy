/** The log file behind the backend thread: writes that may take only part of what they are given. */
module AppendFiles {

  /** How much the next fwrite takes of len characters; grants that are used up mean all of it. */
  function Granted(grants: seq<nat>, len: nat): (n: nat)
    ensures n <= len
  {
    if grants == [] || len < grants[0] then len else grants[0]
  }

  function Later(grants: seq<nat>): seq<nat> {
    if grants == [] then [] else grants[1..]
  }

  /** What the retry loop gets written of `remain` characters: it gives up on the first call that takes none. */
  function Retried(grants: seq<nat>, remain: nat): (n: nat)
    ensures n <= remain
    decreases remain
  {
    if remain == 0 || Granted(grants, remain) == 0 then 0
    else Granted(grants, remain) + Retried(Later(grants), remain - Granted(grants, remain))
  }

  /** The first call may take nothing without ending the attempt. */
  function TotalWritten(grants: seq<nat>, len: nat): (n: nat)
    ensures n <= len
  {
    Granted(grants, len) + Retried(Later(grants), len - Granted(grants, len))
  }

  function Sum(ns: seq<nat>): nat {
    if ns == [] then 0 else ns[0] + Sum(ns[1..])
  }

  /** A call that takes nothing comes before the characters are all written. */
  ghost predicate StallsBefore(grants: seq<nat>, len: nat) {
    exists i :: 0 <= i < |grants| && grants[i] == 0 && Sum(grants[..i]) < len
  }

  lemma {:induction false} RetryCompletes(grants: seq<nat>, remain: nat)
    ensures Retried(grants, remain) == remain <==> !StallsBefore(grants, remain)
    decreases remain
  {
    if grants == [] || remain == 0 {
      NothingToStall(grants, remain);
    } else if grants[0] == 0 {
      assert grants[..0] == [] && Sum([]) == 0;
    } else if grants[0] <= remain {
      RetryCompletes(grants[1..], remain - grants[0]);
      StallShift(grants, remain);
    } else {
      AmpleGrant(grants, remain);
    }
  }

  lemma {:induction false} NothingToStall(grants: seq<nat>, remain: nat)
    requires grants == [] || remain == 0
    ensures !StallsBefore(grants, remain)
  {
  }

  lemma {:induction false} SumTakesFirst(grants: seq<nat>, i: nat)
    requires 0 < i <= |grants|
    ensures Sum(grants[..i]) == grants[0] + Sum(grants[1..][..i - 1])
  {
    assert grants[..i][1..] == grants[1..][..i - 1];
  }

  /** The first call takes all there is, so none after it can stall. */
  lemma {:induction false} AmpleGrant(grants: seq<nat>, remain: nat)
    requires grants != [] && grants[0] > remain
    ensures !StallsBefore(grants, remain)
  {
    forall i | 0 <= i < |grants| && grants[i] == 0
      ensures Sum(grants[..i]) >= remain
    {
      SumTakesFirst(grants, i);
    }
  }

  /** After a call that takes part, what stalls is what stalls the calls after it. */
  lemma {:induction false} StallShift(grants: seq<nat>, remain: nat)
    requires grants != [] && 0 < grants[0] <= remain
    ensures StallsBefore(grants, remain) <==> StallsBefore(grants[1..], remain - grants[0])
  {
    var later := grants[1..];
    if i :| 0 <= i < |grants| && grants[i] == 0 && Sum(grants[..i]) < remain {
      SumTakesFirst(grants, i);
      assert later[i - 1] == 0;
    }
    if i :| 0 <= i < |later| && later[i] == 0 && Sum(later[..i]) < remain - grants[0] {
      SumTakesFirst(grants, i + 1);
      assert grants[i + 1] == 0;
    }
  }

  /** A line is written whole exactly if no call after the first takes nothing while some of it is left. */
  lemma {:induction false} WrittenWhole(grants: seq<nat>, len: nat)
    ensures TotalWritten(grants, len) == len <==> !StallsBefore(Later(grants), len - Granted(grants, len))
  {
    RetryCompletes(Later(grants), len - Granted(grants, len));
  }

  lemma {:induction false} RetriedUpToStall(grants: seq<nat>, remain: nat, i: nat)
    requires i < |grants| && grants[i] == 0 && Sum(grants[..i]) < remain
    requires forall j :: 0 <= j < i ==> grants[j] > 0
    ensures Retried(grants, remain) == Sum(grants[..i])
    decreases i
  {
    if i == 0 {
      assert grants[..0] == [];
    } else {
      SumTakesFirst(grants, i);
      RetriedUpToStall(grants[1..], remain - grants[0], i - 1);
    }
  }

  /** If such a call is the next one that takes nothing, what the calls before it took is what is written. */
  lemma {:induction false} WrittenUpToStall(grants: seq<nat>, len: nat, i: nat)
    requires 0 < i < |grants| && grants[i] == 0 && Sum(grants[..i]) < len
    requires forall j :: 0 < j < i ==> grants[j] > 0
    ensures TotalWritten(grants, len) == Sum(grants[..i])
  {
    SumTakesFirst(grants, i);
    RetriedUpToStall(grants[1..], len - grants[0], i - 1);
  }

  lemma {:induction false} NextPiece(was: string, line: string, n: nat, x: nat)
    requires n + x <= |line|
    ensures was + line[..n] + line[n..][..x] == was + line[..n + x]
  {
    assert line[..n] + line[n..][..x] == line[..n + x];
  }

  class AppendFile {
    var contents: string
    var grants: seq<nat>  // what the device will take call by call

    /** The device never takes nothing. */
    ghost predicate Reliable()
      reads this
    {
      forall i :: 0 <= i < |grants| ==> grants[i] > 0
    }

    constructor (grants: seq<nat>)
      ensures contents == "" && this.grants == grants
    {
      this.contents, this.grants := "", grants;
    }

    method Write(logline: string) returns (n: nat)
      modifies this
      ensures n == Granted(old(grants), |logline|) && grants == Later(old(grants))
      ensures contents == old(contents) + logline[..n]
    {
      n := Granted(grants, |logline|);
      contents := contents + logline[..n];
      grants := Later(grants);
    }

    method Append(logline: string)
      modifies this
      ensures contents == old(contents) + logline[..TotalWritten(old(grants), |logline|)]
      ensures old(Reliable()) ==> Reliable() && contents == old(contents) + logline
    {
      var n := Write(logline);
      var remain: nat := |logline| - n;
      ghost var was := old(contents);
      while remain > 0
        invariant n + remain == |logline| && contents == was + logline[..n]
        invariant n + Retried(grants, remain) == TotalWritten(old(grants), |logline|)
        invariant old(Reliable()) ==> Reliable()
        decreases remain
      {
        var x := Write(logline[n..]);
        NextPiece(was, logline, n, x);
        if x == 0 {
          break;
        }
        n := n + x;
        remain := |logline| - n;
      }
      if old(Reliable()) {
        WrittenWhole(old(grants), |logline|);
        assert logline[..|logline|] == logline;
      }
    }
  }
}
