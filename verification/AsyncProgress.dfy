/** When the backend thread goes on, when it ends, and how long a line waits for the file. */
module AsyncProgress {
  import opened AsyncProtocol

  // ----- start, stop and the loop test -----

  /** Among the first n events there is a start and no stop behind it. */
  ghost predicate SwitchedOn<Ref>(events: seq<Event<Ref>>, n: nat)
    requires n <= |events|
  {
    exists i :: 0 <= i < n && events[i].Start? && forall k :: i < k < n ==> !events[k].Stop?
  }

  lemma {:induction false} SwitchedOnStep<Ref>(events: seq<Event<Ref>>, n: nat)
    requires n < |events|
    ensures SwitchedOn(events, n + 1) <==> events[n].Start? || (!events[n].Stop? && SwitchedOn(events, n))
  {
    if !events[n].Stop? && SwitchedOn(events, n) {
      var i :| 0 <= i < n && events[i].Start? && forall k :: i < k < n ==> !events[k].Stop?;
      assert forall k :: i < k < n + 1 ==> !events[k].Stop?;
    }
  }

  lemma {:induction false} RunningIsSwitchedOn<Ref>(states: seq<State<Ref>>, events: seq<Event<Ref>>, n: nat)
    requires IsRun(states, events) && n <= |events|
    ensures states[n].running <==> SwitchedOn(events, n)
  {
    if n > 0 {
      RunningIsSwitchedOn(states, events, n - 1);
      RunStep(states, events, n - 1);
      SwitchedOnStep(events, n - 1);
    }
  }

  /** A loop test ends the thread exactly when it is switched off by then; otherwise the swap is next. */
  lemma {:induction false} TestEnds<Ref>(states: seq<State<Ref>>, events: seq<Event<Ref>>, n: nat)
    requires IsRun(states, events) && n < |events| && events[n].Test?
    ensures states[n + 1].place == if SwitchedOn(events, n) then BeforeSwap else Finished
  {
    RunningIsSwitchedOn(states, events, n);
    RunStep(states, events, n);
  }

  lemma {:induction false} StartedOnce<Ref>(states: seq<State<Ref>>, events: seq<Event<Ref>>, i: nat, n: nat)
    requires IsRun(states, events) && i < n <= |events| && events[i].Start?
    ensures states[n].place != NotStarted
    ensures n < |events| ==> !events[n].Start?
  {
    RunStep(states, events, n - 1);
    if i < n - 1 {
      StartedOnce(states, events, i, n - 1);
    }
    if n < |events| {
      RunStep(states, events, n);
    }
  }

  /** The first test behind a stop of the started thread ends it. */
  lemma {:induction false} TestAfterStopEnds<Ref>(states: seq<State<Ref>>, events: seq<Event<Ref>>, i: nat, j: nat,
                                                  n: nat)
    requires IsRun(states, events) && i < j < n < |events|
    requires events[i].Start? && events[j].Stop? && events[n].Test?
    ensures states[n + 1].place == Finished
  {
    if SwitchedOn(events, n) {
      var k :| 0 <= k < n && events[k].Start? && forall l :: k < l < n ==> !events[l].Stop?;
      StartedOnce(states, events, i, k);
      assert false;
    }
    TestEnds(states, events, n);
  }

  lemma {:induction false} StartWasMade<Ref>(states: seq<State<Ref>>, events: seq<Event<Ref>>, n: nat)
    requires IsRun(states, events) && n <= |events| && states[n].place != NotStarted
    ensures exists i :: 0 <= i < n && events[i].Start?
  {
    if n > 0 {
      RunStep(states, events, n - 1);
      if !events[n - 1].Start? {
        StartWasMade(states, events, n - 1);
      }
    }
  }

  /** The thread has ended only if it was started, then stopped, and then came to its loop test. */
  lemma {:induction false} EndsOnlyAfterStop<Ref>(states: seq<State<Ref>>, events: seq<Event<Ref>>, n: nat)
    returns (i: nat, j: nat, k: nat)
    requires IsRun(states, events) && n <= |events| && states[n].place == Finished
    ensures i < j < k < n && events[i].Start? && events[j].Stop? && events[k].Test?
  {
    RunStep(states, events, n - 1);
    if states[n - 1].place == Finished {
      i, j, k := EndsOnlyAfterStop(states, events, n - 1);
    } else {
      k := n - 1;
      TestEnds(states, events, k);
      StartWasMade(states, events, k);
      i :| 0 <= i < k && events[i].Start?;
      j :| i < j < k && events[j].Stop?;
    }
  }

  // ----- one cycle -----

  ghost predicate IsTurn<Ref>(e: Event<Ref>) {
    e.Test? || e.Swap? || e.WriteOne? || e.Recycle?
  }

  /** The thread is between its start and its end, and nobody has stopped it. */
  ghost predicate Going<Ref>(s: State<Ref>) {
    s.running && s.place != NotStarted && s.place != Finished
  }

  /** Nobody has stopped the thread, whether it is started or not. */
  ghost predicate Unstopped<Ref>(s: State<Ref>) {
    s.place == NotStarted || Going(s)
  }

  /** A thread that goes has exactly one next step, and it can be taken; before its start and behind its end it has
      none. */
  lemma {:induction false} OneTurn<Ref>(s: State<Ref>)
    requires Inv(s)
    ensures Going(s) ==> exists e, s' :: IsTurn(e) && Next(s, e, s')
    ensures forall d, e :: IsTurn(d) && IsTurn(e) && Enabled(s, d) && Enabled(s, e) ==> d == e
    ensures s.place == NotStarted || s.place == Finished ==> forall e :: IsTurn(e) ==> !Enabled(s, e)
  {
    if Going(s) {
      var e := match s.place
        case AtTest => Test
        case BeforeSwap => Swap
        case _ => if s.written < |s.toWrite| then WriteOne else Recycle;
      NeverStuck(s, e);
      var s' :| Next(s, e, s');
      assert IsTurn(e) && Next(s, e, s');
    }
  }

  ghost predicate IsPath<Ref>(states: seq<State<Ref>>, events: seq<Event<Ref>>) {
    && |states| == |events| + 1
    && forall i {:trigger events[i]} :: 0 <= i < |events| ==> Next(states[i], events[i], states[i + 1])
  }

  lemma {:induction false} PathBefore<Ref>(s: State<Ref>, e: Event<Ref>, states: seq<State<Ref>>,
                                           events: seq<Event<Ref>>)
    requires IsPath(states, events) && Next(s, e, states[0])
    ensures IsPath([s] + states, [e] + events)
  {
  }

  /** The rest of a cycle behind its swap. */
  lemma {:induction false} WritesAndRecycles<Ref>(s: State<Ref>)
    returns (states: seq<State<Ref>>, events: seq<Event<Ref>>)
    requires Inv(s) && s.place == Writing
    ensures IsPath(states, events) && states[0] == s && |events| == |s.toWrite| - s.written + 1
    ensures forall i :: 0 <= i < |events| ==> events[i] == if i < |events| - 1 then WriteOne else Recycle
    ensures states[|events|].place == AtTest && states[|events|].file == s.accepted[..s.swapped]
    ensures states[|events|].accepted == s.accepted && states[|events|].running == s.running
    decreases |s.toWrite| - s.written
  {
    if s.written == |s.toWrite| {
      states, events := [s, RecycleStep(s)], [Recycle];
      assert Next(s, Recycle, RecycleStep(s));
      assert s.file + [] == s.file;
    } else {
      var s' := WriteStep(s);
      assert Next(s, WriteOne, s');
      NextKeepsInv(s, WriteOne, s');
      var more, after := WritesAndRecycles(s');
      PathBefore(s, WriteOne, more, after);
      states, events := [s] + more, [WriteOne] + after;
    }
  }

  /** Left to itself a thread that goes comes back to its test, with everything accepted so far in the file. */
  lemma {:induction false} FullCycle<Ref>(s: State<Ref>) returns (states: seq<State<Ref>>, events: seq<Event<Ref>>)
    requires Inv(s) && s.place == AtTest && s.running
    ensures IsPath(states, events) && states[0] == s && |events| == |s.buffers| + 4
    ensures forall i :: 0 <= i < |events| ==>
              events[i] == if i == 0 then Test else if i == 1 then Swap
                           else if i < |events| - 1 then WriteOne else Recycle
    ensures states[|events|].place == AtTest && states[|events|].running
    ensures states[|events|].file == s.accepted == states[|events|].accepted
  {
    var tested := TestStep(s);
    assert Next(s, Test, tested);
    NextKeepsInv(s, Test, tested);
    var swapped := SwapStep(tested);
    assert Next(tested, Swap, swapped);
    NextKeepsInv(tested, Swap, swapped);
    states, events := WritesAndRecycles(swapped);
    PathBefore(tested, Swap, states, events);
    PathBefore(s, Test, [tested] + states, [Swap] + events);
    states, events := [s] + ([tested] + states), [Test] + ([Swap] + events);
    assert s.accepted[..|s.accepted|] == s.accepted;
  }

  // ----- how long a line waits -----

  /** The steps of the backend thread until the first m accepted lines are in the file. */
  function TurnsLeft<Ref>(s: State<Ref>, m: nat): nat
    requires s.written <= |s.toWrite|
  {
    if |s.file| >= m then 0
    else
      match s.place
      case Writing =>
        if s.swapped >= m then |s.toWrite| - s.written else |s.toWrite| - s.written + |s.buffers| + 4
      case BeforeSwap => |s.buffers| + 2
      case _ => |s.buffers| + 3
  }

  ghost predicate Counted<Ref>(s: State<Ref>) {
    && s.written <= |s.toWrite| && s.swapped <= |s.accepted|
    && (s.written == |s.toWrite| ==> s.file == s.accepted[..s.swapped])
  }

  lemma {:induction false} CountsDown<Ref>(s: State<Ref>, e: Event<Ref>, s': State<Ref>, m: nat)
    requires Next(s, e, s') && Going(s) && !e.Stop? && m <= |s.accepted| && Counted(s) && Counted(s')
    ensures Going(s') && m <= |s'.accepted|
    ensures var left := TurnsLeft(s', m);
            left == 0 || left + One(IsTurn(e)) <= TurnsLeft(s, m) + One(e.Append?)
  {
  }

  /** Each step of the backend thread brings the line nearer to the file; an append can put it off by one step. */
  lemma {:induction false} TurnCounts<Ref>(s: State<Ref>, e: Event<Ref>, s': State<Ref>, m: nat)
    requires Inv(s) && Next(s, e, s') && Going(s) && !e.Stop? && m <= |s.accepted|
    ensures Inv(s') && Going(s') && m <= |s'.accepted|
    ensures var left := TurnsLeft(s', m);
            left == 0 || left + One(IsTurn(e)) <= TurnsLeft(s, m) + One(e.Append?)
  {
    NextKeepsInv(s, e, s');
    FileIsPrefix(s);
    FileIsPrefix(s');
    CountsDown(s, e, s', m);
  }

  /** How many of the events are steps of the backend thread. */
  ghost function Turns<Ref>(events: seq<Event<Ref>>): nat {
    if events == [] then 0
    else Turns(events[..|events| - 1]) + One(IsTurn(events[|events| - 1]))
  }

  lemma {:induction false} TurnsOneMore<Ref>(events: seq<Event<Ref>>, e: Event<Ref>)
    ensures Turns(events + [e]) == Turns(events) + One(IsTurn(e))
  {
    assert (events + [e])[..|events|] == events;
  }

  lemma {:induction false} FirstEvents<Ref>(events: seq<Event<Ref>>, n: nat)
    requires n < |events|
    ensures Turns(events[..n + 1]) == Turns(events[..n]) + One(IsTurn(events[n]))
    ensures |Appends(events[..n + 1])| == |Appends(events[..n])| + One(events[n].Append?)
  {
    assert events[..n + 1] == events[..n] + [events[n]];
    TurnsOneMore(events[..n], events[n]);
    AppendsOneMore(events[..n], events[n]);
  }

  ghost predicate NoStop<Ref>(events: seq<Event<Ref>>, a: nat, b: nat)
    requires b <= |events|
  {
    forall k :: a <= k < b ==> !events[k].Stop?
  }

  /** The thread goes, and the first m accepted lines are in the file after at most this many of its steps. */
  ghost predicate Due<Ref>(s: State<Ref>, m: nat, steps: int) {
    Inv(s) && Going(s) && Counted(s) && m <= |s.accepted| && (TurnsLeft(s, m) == 0 || TurnsLeft(s, m) <= steps)
  }

  lemma {:induction false} DueStep<Ref>(s: State<Ref>, e: Event<Ref>, s': State<Ref>, m: nat, steps: int)
    requires Due(s, m, steps) && Next(s, e, s') && !e.Stop?
    ensures Due(s', m, steps + One(e.Append?) - One(IsTurn(e)))
  {
    TurnCounts(s, e, s', m);
    FileIsPrefix(s');
  }

  /** How many steps of the thread there were, less the appends that can have put a line off. */
  ghost function Progress<Ref>(events: seq<Event<Ref>>): int {
    Turns(events) - |Appends(events)|
  }

  lemma {:induction false} Waiting<Ref>(states: seq<State<Ref>>, events: seq<Event<Ref>>, a: nat, b: nat, m: nat,
                                        steps: int)
    requires IsRun(states, events) && a <= b <= |events| && NoStop(events, a, b)
    requires Due(states[a], m, steps)
    ensures Due(states[b], m, steps + Progress(events[..a]) - Progress(events[..b]))
  {
    if a < b {
      Waiting(states, events, a, b - 1, m, steps);
      RunStep(states, events, b - 1);
      FirstEvents(events, b - 1);
      DueStep(states[b - 1], events[b - 1], states[b], m, steps + Progress(events[..a]) - Progress(events[..b - 1]));
    }
  }

  /** There are no more full buffers than there were appends, and one more while they are written. */
  lemma {:induction false} FewBuffers<Ref>(states: seq<State<Ref>>, events: seq<Event<Ref>>, n: nat)
    requires IsRun(states, events) && n <= |events|
    ensures |states[n].buffers| + |states[n].toWrite| <= |Appends(events[..n])| + One(states[n].place == Writing)
  {
    if n > 0 {
      FewBuffers(states, events, n - 1);
      RunInv(states, events, n - 1);
      RunStep(states, events, n - 1);
      FirstEvents(events, n - 1);
    }
  }

  lemma {:induction false} AcceptedGrows<Ref>(events: seq<Event<Ref>>, a: nat, b: nat, size: nat)
    requires a <= b <= |events|
    ensures AcceptedOf(events[..a], size) <= AcceptedOf(events[..b], size)
  {
    AcceptedSplit(events[..b], a, size);
    assert events[..b][..a] == events[..a];
  }

  /** Whatever was accepted when the thread was going is in the file, as its first lines, once the thread has made
      five steps more than there were appends, and was not stopped meanwhile. */
  lemma {:induction false} EverythingArrives<Ref>(states: seq<State<Ref>>, events: seq<Event<Ref>>, a: nat, b: nat)
    requires IsRun(states, events) && a <= b <= |events|
    requires Going(states[a]) && NoStop(events, a, b)
    requires Turns(events[..b]) - Turns(events[..a]) >= |Appends(events[..b])| + 5
    ensures AcceptedOf(events[..a], states[0].size) <= states[b].file
  {
    RunInv(states, events, a);
    RunInv(states, events, b);
    RunLog(states, events, a);
    RunLog(states, events, b);
    FewBuffers(states, events, a);
    FileIsPrefix(states[a]);
    Waiting(states, events, a, b, |states[a].accepted|, |Appends(events[..a])| + 5);
    AcceptedGrows(events, a, b, states[0].size);
    FileIsPrefix(states[b]);
  }

  /** The file is made of the first accepted lines; if nothing is left to be written, of those before the last swap. */
  lemma {:induction false} FileIsPrefix<Ref>(s: State<Ref>)
    requires Inv(s)
    ensures Counted(s) && s.file <= s.accepted
  {
    if s.written == |s.toWrite| {
      assert s.toWrite[s.written..] == [] && s.file + [] == s.file;
    }
  }

  /** Outside the write loop the file is exactly what was accepted before the last swap. */
  lemma {:induction false} FileBetweenCycles<Ref>(states: seq<State<Ref>>, events: seq<Event<Ref>>, n: nat)
    requires IsRun(states, events) && n <= |events| && states[n].place != Writing
    ensures states[n].file == AcceptedOf(events[..LastSwap(events[..n])], states[0].size)
  {
    RunInv(states, events, n);
    RunLog(states, events, n);
    LoggedIsPrefix(events[..n], states[0].size);
    FileIsPrefix(states[n]);
    var k := LastSwap(events[..n]);
    assert events[..n][..k] == events[..k];
    AcceptedGrows(events, k, n, states[0].size);
  }
}
