/** The timer queue of an event loop: a heap of timers and one timerfd armed for the earliest. */
module TimerQueues {
  import opened TimerHeap
  import opened TimerHistory

  const INT_MAX: int := 0x7FFF_FFFF
  const CLOCK_RANGE: nat := 10_000_000
  const LEAST_DELAY: nat := 100

  /** The milliseconds to arm for: an unsigned difference, at least LEAST_DELAY. */
  function Delay(expiration: nat, now: nat): (d: nat)
    requires expiration < SIZE_RANGE && now < SIZE_RANGE
    ensures d >= LEAST_DELAY
  {
    var dif := (expiration - now) % SIZE_RANGE;
    if dif < LEAST_DELAY then LEAST_DELAY else dif
  }

  /** Arming hits the deadline, or 100 milliseconds from now if that is later, exactly when the
      deadline has not passed; the second case is a wrap-around so long that nothing reaches it. */
  lemma {:induction false} ArmingIsExact(expiration: nat, now: nat)
    requires expiration < SIZE_RANGE && now < SIZE_RANGE
    ensures now + Delay(expiration, now) == (if expiration < now + 100 then now + 100 else expiration)
       <==> now <= expiration || now - expiration >= 0x1_0000_0000_0000_0000 - 100
  {
  }

  /** One millisecond late, and the timerfd is armed for more than five hundred million years. */
  lemma {:induction false} LateArmingIsLost()
    ensures Delay(1000, 1001) == 18446744073709551615
  {
  }

  /** The clock: milliseconds of the time of day, seconds taken modulo 10000. */
  function Stamp(seconds: nat, micros: nat): (t: nat)
    requires micros < 1_000_000
    ensures t < CLOCK_RANGE
  {
    seconds % 10_000 * 1000 + micros / 1000
  }

  /** The clock is the milliseconds since the epoch modulo ten million. */
  lemma {:induction false} StampIsRemainder(seconds: nat, micros: nat)
    requires micros < 1_000_000
    ensures Stamp(seconds, micros) == (seconds * 1000 + micros / 1000) % 10_000_000
  {
  }

  /** A deadline is ever reached if and only if it is below ten million. */
  lemma {:induction false} ReachableDeadlines(expiration: nat)
    ensures (exists seconds: nat, micros: nat :: micros < 1_000_000 && Stamp(seconds, micros) >= expiration)
       <==> expiration < 10_000_000
  {
    if expiration < CLOCK_RANGE {
      assert Stamp(9_999, 999_999) == CLOCK_RANGE - 1;
    }
  }

  /** Made one second before the wrap of the clock, with five seconds to go: never due. */
  lemma {:induction false} TimerPastTheWrap()
    ensures forall seconds: nat, micros: nat ::
              micros < 1_000_000 ==> Stamp(seconds, micros) < Deadline(Stamp(9_999, 0), 5_000)
  {
    assert Stamp(9_999, 0) == CLOCK_RANGE - 1_000;
  }

  /** What happens around one wake-up: the timers added before it, and what the callbacks ask for. */
  datatype Turn = Turn(requests: seq<Request>, script: Script, quiet: nat)

  class TimerQueue {
    var heap: seq<TimerNode>
    /** The last clock reading, and a bound no reading passes. */
    var now: nat
    const limit: nat
    /** When the timerfd fires, and the reading it was armed at. */
    var armedFor: nat
    var armedAt: nat

    constructor (now: nat, limit: nat)
      requires now <= limit < CLOCK_RANGE
      ensures Valid() && heap == [] && this.now == now && this.limit == limit
    {
      heap, this.now, this.limit, armedFor, armedAt := [], now, limit, 0, 0;
    }

    static ghost predicate Sound(n: TimerNode)
      reads n`expiration
    {
      && n.expiration < SIZE_RANGE && n.interval <= INT_MAX
      && (n.repeat <==> n.interval > 0)
    }

    ghost predicate Valid()
      reads this`heap, this`now, heap`expiration
    {
      && now <= limit < CLOCK_RANGE
      && IsHeap(heap) && Distinct(heap)
      && forall n | n in heap :: Sound(n)
    }

    /** The timerfd fires at the earliest deadline, or 100 milliseconds after it was armed if that is later. */
    ghost predicate Armed()
      reads this, heap`expiration
    {
      heap != [] ==> armedFor == if heap[0].expiration < armedAt + 100 then armedAt + 100 else heap[0].expiration
    }

    /** The clock never runs backwards. */
    method ReadClock() returns (t: nat)
      requires now <= limit
      modifies this`now
      ensures t == now && old(now) <= now <= limit
    {
      t :| now <= t <= limit;
      now := t;
    }

    method ResetTimerfd(expiration: nat)
      requires now <= limit < CLOCK_RANGE && expiration < SIZE_RANGE
      modifies this`now, this`armedFor, this`armedAt
      ensures old(now) <= now <= limit && armedAt == now
      ensures armedFor == (if expiration < now + 100 then now + 100 else expiration) <==> now <= expiration
    {
      var t := ReadClock();
      var dif := (expiration - t) % SIZE_RANGE;
      if dif < LEAST_DELAY {
        dif := LEAST_DELAY;
      }
      ArmingIsExact(expiration, t);
      armedAt := t;
      var seconds, nanos := dif / 1000, dif % 1000 * 1_000_000;
      armedFor := t + seconds * 1000 + nanos / 1_000_000;
    }

    method Insert(timer: TimerNode) returns (changed: bool)
      requires Valid() && timer !in heap && Sound(timer)
      modifies this`heap
      ensures Valid() && Nodes(heap) == old(Nodes(heap)) + {timer}
      ensures changed <==> old(heap) == [] || timer.expiration < old(heap[0].expiration)
      ensures |heap| > 0 && heap[0] == if changed then timer else old(heap[0])
    {
      var when := timer.expiration;
      changed := false;
      if |heap| == 0 {
        changed := true;
      } else {
        var top := heap[0];
        if when < top.expiration {
          changed := true;
        }
      }
      assert forall n :: n in heap <==> n in Nodes(heap);
      heap := Push(heap, timer);
      assert forall n :: n in heap <==> n in Nodes(heap);
    }

    /** Re-arming only for a new earliest deadline keeps an armed queue armed. */
    method AddTimerInLoop(timer: TimerNode)
      requires Valid() && timer !in heap && Sound(timer)
      modifies this
      ensures Valid() && Nodes(heap) == old(Nodes(heap)) + {timer}
      ensures |heap| > 0 && old(now) <= now
      ensures if old(heap) == [] || timer.expiration < old(heap[0].expiration) then
          heap[0] == timer && armedAt == now && (Armed() <==> now <= timer.expiration)
        else
          heap[0] == old(heap[0]) && armedAt == old(armedAt) && armedFor == old(armedFor) && now == old(now)
          && (Armed() <==> old(Armed()))
    {
      var changed := Insert(timer);
      if changed {
        ResetTimerfd(timer.expiration);
      }
    }

    /** A negative timeout makes a timer that is due already, and it may come before the top. */
    method AddTimer(timeout: int, interval: nat) returns (timer: TimerNode)
      requires Valid() && IsInt(timeout) && interval <= INT_MAX
      modifies this
      ensures Valid() && fresh(timer) && Nodes(heap) == old(Nodes(heap)) + {timer}
      ensures timer.interval == interval && !timer.deleted
      ensures |heap| > 0 && old(now) <= now && MadeWithin(timer, timeout, old(now), now)
      ensures if old(heap) == [] || timer.expiration < old(heap[0].expiration) then
          heap[0] == timer && armedAt == now && (Armed() <==> now <= timer.expiration)
        else
          heap[0] == old(heap[0]) && armedAt == old(armedAt) && armedFor == old(armedFor)
          && (Armed() <==> old(Armed()))
    {
      var t := ReadClock();
      timer := new TimerNode(t, timeout, interval);
      assert timer.expiration == Deadline(t, timeout);
      AddTimerInLoop(timer);
    }

    static predicate IsInt(i: int) {
      -INT_MAX - 1 <= i <= INT_MAX
    }

    /** Its deadline is the timeout from some reading of the clock between before and now. */
    static ghost predicate MadeWithin(n: TimerNode, timeout: int, before: nat, now: nat)
      reads n`expiration
    {
      exists t: nat :: before <= t <= now && n.expiration == Deadline(t, timeout)
    }

    static predicate InRange(requests: seq<Request>) {
      forall i :: 0 <= i < |requests| ==> IsInt(requests[i].timeout) && requests[i].interval <= INT_MAX
    }

    static ghost predicate Modest(script: Script) {
      forall k: nat :: InRange(script(k)) && NoneNegative(script(k))
    }

    /** From this run on no callback asks for a timer with no time to go. */
    static ghost predicate QuietFrom(script: Script, quiet: nat) {
      forall k: nat :: k >= quiet ==> Later(script(k))
    }

    static ghost predicate Playable(turn: Turn) {
      InRange(turn.requests) && Modest(turn.script) && QuietFrom(turn.script, turn.quiet)
    }

    /** A timer that a callback asked for while the clock went from before to now. */
    static ghost predicate Granted(n: TimerNode, r: Request, before: nat, now: nat)
      reads n
    {
      n.interval == r.interval && !n.deleted && MadeWithin(n, r.timeout, before, now)
    }

    static ghost predicate Reaches(added: seq<TimerNode>, due: nat, i: nat)
      requires i < |added|
      reads added`expiration
    {
      added[i].expiration >= due
    }

    /** No added timer is strictly earlier than one due at due. */
    static ghost predicate AllReach(added: seq<TimerNode>, due: nat)
      reads added`expiration
    {
      forall i: nat {:trigger Reaches(added, due, i)} :: i < |added| ==> Reaches(added, due, i)
    }

    static lemma {:induction false} OneMoreReaches(added: seq<TimerNode>, n: TimerNode, due: nat)
      ensures AllReach(added + [n], due) <==> AllReach(added, due) && n.expiration >= due
    {
      if AllReach(added + [n], due) {
        forall i: nat | i < |added|
          ensures Reaches(added, due, i)
        {
          assert Reaches(added + [n], due, i);
        }
        assert Reaches(added + [n], due, |added|);
      }
      if AllReach(added, due) && n.expiration >= due {
        forall i: nat | i < |added + [n]|
          ensures Reaches(added + [n], due, i)
        {
          assert i < |added| ==> Reaches(added, due, i);
        }
      }
    }

    /** A callback adds timers while the queue works on its top. The top stays on top, and the
        timerfd is left alone, exactly when none of them is strictly earlier. */
    method RunCallback(requests: seq<Request>) returns (added: seq<TimerNode>)
      requires Valid() && InRange(requests) && |heap| > 0
      modifies this
      ensures Valid() && |heap| > 0 && old(now) <= now
      ensures |added| == |requests| && Distinct(added) && Nodes(heap) == old(Nodes(heap)) + Nodes(added)
      ensures forall n | n in added :: fresh(n)
      ensures forall i :: 0 <= i < |added| ==> Granted(added[i], requests[i], old(now), now)
      ensures heap[0] == old(heap[0]) <==> AllReach(added, old(heap[0].expiration))
      ensures heap[0] == old(heap[0]) ==> armedFor == old(armedFor) && armedAt == old(armedAt)
      ensures heap[0] != old(heap[0]) ==> heap[0] in added
    {
      added := [];
      ghost var top, due := heap[0], heap[0].expiration;
      assert Nodes(added) == {};
      while |added| < |requests|
        invariant |added| <= |requests| && Distinct(added) && Nodes(heap) == old(Nodes(heap)) + Nodes(added)
        invariant Valid() && |heap| > 0 && old(now) <= now
        invariant forall n | n in added :: fresh(n)
        invariant forall i :: 0 <= i < |added| ==> Granted(added[i], requests[i], old(now), now)
        invariant if heap[0] == top then AllReach(added, due) && armedFor == old(armedFor) && armedAt == old(armedAt)
                  else !AllReach(added, due) && heap[0] in added && heap[0].expiration < due
      {
        var r := requests[|added|];
        var timer := AddTimer(r.timeout, r.interval);
        AddedKeepsDistinct(added, timer);
        OneMoreReaches(added, timer, due);
        added := added + [timer];
      }
    }

    /** Under a held clock that can be told from the timeouts. */
    static lemma {:induction false} ReachingTimeouts(added: seq<TimerNode>, requests: seq<Request>, due: nat, now: nat)
      requires |added| == |requests| && forall i :: 0 <= i < |added| ==> Granted(added[i], requests[i], now, now)
      ensures AllReach(added, due) <==> forall i :: 0 <= i < |requests| ==> Deadline(now, requests[i].timeout) >= due
    {
      forall i: nat | i < |added|
        ensures Reaches(added, due, i) <==> Deadline(now, requests[i].timeout) >= due
      {
        assert Granted(added[i], requests[i], now, now);
      }
    }

    /** Under any clock it is enough that no timeout leads back before due. */
    static lemma {:induction false} HarmlessTimeouts(added: seq<TimerNode>, requests: seq<Request>, due: nat,
                                                     before: nat, now: nat)
      requires |added| == |requests| && InRange(requests) && before <= now < CLOCK_RANGE
      requires forall i :: 0 <= i < |added| ==> Granted(added[i], requests[i], before, now)
      requires NoneBefore(requests, due, before)
      ensures AllReach(added, due) && GrantedAll(added, requests, FirstDeadlines(added), before, now)
    {
      forall i: nat | i < |added|
        ensures Reaches(added, due, i) && GrantedAt(added, requests, FirstDeadlines(added), before, now, i)
      {
        assert Granted(added[i], requests[i], before, now);
        var t: nat :| before <= t <= now && added[i].expiration == Deadline(t, requests[i].timeout);
        assert before + requests[i].timeout >= due;
      }
    }

    /** The top is run, and then the top is popped. That is the timer that ran exactly when its callback
        added none that is strictly earlier; otherwise it stays queued, and one of those is lost. */
    method RunAndPop(requests: seq<Request>) returns (added: seq<TimerNode>)
      requires Valid() && InRange(requests) && |heap| > 0
      modifies this
      ensures Valid() && old(now) <= now
      ensures |added| == |requests| && forall n | n in added :: fresh(n)
      ensures forall i :: 0 <= i < |added| ==> Granted(added[i], requests[i], old(now), now)
      ensures old(heap[0]) !in heap <==> AllReach(added, old(heap[0].expiration))
      ensures now == old(now) ==> (old(heap[0]) !in heap <==>
                forall i :: 0 <= i < |requests| ==> Deadline(now, requests[i].timeout) >= old(heap[0].expiration))
      ensures old(heap[0]) !in heap ==> Nodes(heap) == old(Nodes(heap)) + Nodes(added) - {old(heap[0])}
                                        && armedFor == old(armedFor) && armedAt == old(armedAt)
      ensures old(heap[0]) in heap ==> exists lost ::
                lost in added && lost !in heap && Nodes(heap) == old(Nodes(heap)) + Nodes(added) - {lost}
    {
      ghost var top := heap[0];
      assert top in heap && top in Nodes(heap);
      added := RunCallback(requests);
      ghost var popped := heap[0];
      PopTop();
      assert top in heap <==> top in Nodes(heap);
      if now == old(now) {
        ReachingTimeouts(added, requests, old(heap[0].expiration), now);
      }
    }

    /** How late the top can still be, 0 if it can never be due. */
    ghost function Lateness(): nat
      reads this`heap, heap`expiration
    {
      if heap == [] || heap[0].expiration > limit then 0 else limit - heap[0].expiration + 1
    }

    /** The timers that are due together with the top. */
    ghost function TopNodes(): set<TimerNode>
      reads this`heap, heap`expiration
    {
      set n | n in heap && n.expiration == heap[0].expiration
    }

    method PopTop()
      requires Valid() && |heap| > 0
      modifies this`heap
      ensures Valid() && Nodes(heap) == old(Nodes(heap)) - {old(heap[0])} && old(heap[0]) !in heap
      ensures forall n | n in heap :: n in old(heap)
    {
      assert forall n :: n in heap <==> n in Nodes(heap);
      heap := Pop(heap);
      assert forall n :: n in heap <==> n in Nodes(heap);
    }

    /** The key of a timer changes only while it is out of the heap, so the heap order survives. */
    method Reinsert(timer: TimerNode)
      requires Valid() && timer !in heap && Sound(timer) && timer.repeat && timer.expiration <= now
      modifies this`heap, timer
      ensures Valid() && Nodes(heap) == old(Nodes(heap)) + {timer}
      ensures timer.expiration == old(timer.expiration) + timer.interval && !timer.deleted
    {
      timer.Restart(now);
      var changed := Insert(timer);
    }

    /** The coming deadline of every queued timer. */
    function Pending(): Schedule
      reads this`heap, heap`expiration
    {
      map n | n in heap :: n.expiration
    }

    function DeletedNodes(): set<TimerNode>
      reads this`heap, heap`deleted
    {
      set n | n in heap && n.deleted
    }

    static function FirstDeadlines(added: seq<TimerNode>): Schedule
      reads added`expiration
    {
      map n | n in added :: n.expiration
    }

    /** A due timer is run, taken out, and put back if it repeats. */
    method RunTop(requests: seq<Request>) returns (added: seq<TimerNode>)
      requires Valid() && InRange(requests) && |heap| > 0 && heap[0].expiration <= now
      requires NoneBefore(requests, heap[0].expiration, now)
      modifies this, heap[0]
      ensures Valid() && old(now) <= now
      ensures armedFor == old(armedFor) && armedAt == old(armedAt)
      ensures forall n | n in added :: fresh(n)
      ensures Pending() == AfterRun(old(Pending()), FirstDeadlines(added), old(heap[0]))
      ensures DeletedNodes() == old(DeletedNodes()) - {old(heap[0])}
      ensures GrantedAll(added, requests, FirstDeadlines(added), old(now), now)
    {
      var top := heap[0];
      added := RunAndPop(requests);
      HarmlessTimeouts(added, requests, top.expiration, old(now), now);
      assert top !in added;
      ghost var first := FirstDeadlines(added);
      if top.repeat {
        Reinsert(top);
      }
      assert FirstDeadlines(added) == first;
      assert forall n :: n in heap <==> n in Nodes(heap);
    }

    /** The deleted timers in the queue are those in dead. */
    ghost predicate Marked(dead: set<TimerNode>)
      reads this`heap, heap`expiration, heap`deleted
    {
      DeletedNodes() == dead * Pending().Keys
    }

    /** What decreases from round to round once no callback asks for a timer that is due at once: the
        deleted timers in the queue, then the time the earliest deadline can still be behind the
        clock, then the timers with that deadline. */
    ghost predicate CloserThan(lateness: nat, together: set<TimerNode>)
      reads this`heap, heap`expiration
    {
      Lateness() < lateness || (Lateness() == lateness && TopNodes() < together)
    }

    /** A run whose callback asked for nothing that is due at once. */
    lemma {:induction false} RunIsProgress(before: Schedule, added: Schedule, top: TimerNode,
                                           lateness: nat, together: set<TimerNode>)
      requires Valid() && top in before && before[top] <= limit && forall n | n in before :: before[top] <= before[n]
      requires Pending() == AfterRun(before, added, top) && forall n | n in added :: before[top] < added[n]
      requires lateness == limit - before[top] + 1
      requires together == set n | n in before && before[n] == before[top]
      ensures CloserThan(lateness, together)
    {
      if heap != [] {
        assert heap[0] in Pending();
        assert Pending()[heap[0]] >= before[top];
        if heap[0].expiration == before[top] {
          forall n | n in TopNodes()
            ensures n in together
          {
            assert n in Pending() && Pending()[n] == before[top];
          }
          assert top in TopNodes() ==> top in Pending() && Pending()[top] == before[top];
          assert top in together;
        }
      }
    }

    /** RunTop with its entry in the book. The top was marked deleted when it was found due. */
    method RunAndRecord(script: Script, b: Book, ghost start: Schedule, ghost begun: nat) returns (c: Book)
      requires Valid() && |heap| > 0 && heap[0].expiration <= now && Modest(script)
      requires Kept(b, script, start, begun, Pending(), now)
      requires heap[0] !in b.dead && DeletedNodes() - {heap[0]} == b.dead * Pending().Keys
      modifies this, heap[0]
      ensures Valid() && old(now) <= now
      ensures Kept(c, script, start, begun, Pending(), now) && Marked(c.dead) && c.dead == b.dead
      ensures |c.fires| == |b.fires| + 1 && forall n | n in c.added :: n in b.added || fresh(n)
      ensures DeletedNodes() == old(DeletedNodes()) - {old(heap[0])}
      ensures Later(script(|b.fires|)) ==> CloserThan(old(Lateness()), old(TopNodes()))
    {
      var top, t, due := heap[0], now, heap[0].expiration;
      ghost var before, lateness, together := Pending(), Lateness(), TopNodes();
      AllAfterTop(heap);
      assert top in heap && before[top] == due;
      var more := RunTop(script(|b.fires|));
      var added := FirstDeadlines(more);
      c := WithRun(b, top, due, t, more, added);
      TopRuns(b, script, start, begun, before, top, t, more, added, now);
      if Later(script(|b.fires|)) {
        NoneEarlier(more, script(|b.fires|), added, due, t, now);
        RunIsProgress(before, added, top, lateness, together);
      }
    }

    /** A round of the loop on a top that is not deleted: look at the clock, and run it if it is due. */
    method RunIfDue(script: Script, b: Book, ghost start: Schedule, ghost begun: nat) returns (due: bool, c: Book)
      requires Valid() && |heap| > 0 && !heap[0].deleted && Modest(script)
      requires Kept(b, script, start, begun, Pending(), now) && Marked(b.dead)
      modifies this, heap[0]
      ensures Valid() && old(now) <= now
      ensures Kept(c, script, start, begun, Pending(), now) && Marked(c.dead) && c.dead == b.dead
      ensures !due ==> c == b && Settled()
      ensures due ==> |c.fires| == |b.fires| + 1 && forall n | n in c.added :: n in b.added || fresh(n)
      ensures due ==> DeletedNodes() == old(DeletedNodes())
      ensures due && Later(script(|b.fires|)) ==> CloserThan(old(Lateness()), old(TopNodes()))
    {
      var top := heap[0];
      assert top in heap && top in Pending() && top !in DeletedNodes();
      ghost var marked := DeletedNodes();
      var t := ReadClock();
      TimePasses(b, script, start, begun, Pending(), old(now), now);
      var valid := top.IsValid(t);
      due := !valid;
      if valid {
        c := b;
      } else {
        assert DeletedNodes() == marked + {top};
        c := RunAndRecord(script, b, start, begun);
      }
    }

    /** A round of the loop on a deleted top: it leaves without running. */
    method DropTop(b: Book, ghost script: Script, ghost start: Schedule, ghost begun: nat)
      requires Valid() && |heap| > 0 && heap[0].deleted
      requires Kept(b, script, start, begun, Pending(), now) && Marked(b.dead)
      modifies this`heap
      ensures Valid() && Kept(b, script, start, begun, Pending(), now) && Marked(b.dead)
      ensures DeletedNodes() < old(DeletedNodes())
    {
      ghost var top, before := heap[0], Pending();
      assert top in heap && top in DeletedNodes() && top in Nodes(heap);
      DeadLeaves(b, script, start, begun, before, now, top);
      PopTop();
      assert forall n :: n in heap <==> n in Nodes(heap);
      assert Pending() == before - {top};
      assert DeletedNodes() == old(DeletedNodes()) - {top};
    }

    /** Nothing is left to do: the queue is empty or its top is a live timer of the future. */
    ghost predicate Settled()
      reads this`heap, this`now, heap
    {
      |heap| > 0 ==> !heap[0].deleted && now < heap[0].expiration
    }

    /** The loop of HandleRead. It ends although timers are put back and any callback may add new ones in
        every run, as long as only finitely many runs ask for a timer with no time to go. */
    method RunDueTimers(script: Script, ghost quiet: nat) returns (b: Book)
      requires Valid() && Modest(script) && QuietFrom(script, quiet)
      modifies this, heap
      ensures Valid() && old(now) <= now && Settled()
      ensures Kept(b, script, old(Pending()), old(now), Pending(), now)
      ensures Marked(b.dead) && b.dead == old(DeletedNodes()) && forall n | n in b.added :: fresh(n)
    {
      b := Book([], Pending(), DeletedNodes(), []);
      ghost var start := Pending();
      OpenBook(script, start, b.dead, now);
      while |heap| > 0
        invariant Valid() && old(now) <= now
        invariant forall n | n in b.added :: fresh(n)
        invariant Kept(b, script, start, old(now), Pending(), now) && Marked(b.dead) && b.dead == old(DeletedNodes())
        decreases if |b.fires| < quiet then quiet - |b.fires| else 0, DeletedNodes(), Lateness(), TopNodes()
      {
        if heap[0].deleted {
          DropTop(b, script, start, old(now));
        } else {
          TopIsKnown(b, script, start, old(now));
          var due;
          due, b := RunIfDue(script, b, start, old(now));
          if !due {
            break;
          }
        }
      }
    }

    lemma {:induction false} TopIsKnown(b: Book, script: Script, start: Schedule, begun: nat)
      requires |heap| > 0 && Kept(b, script, start, begun, Pending(), now)
      ensures heap[0] in start || heap[0] in b.added
    {
    }

    lemma {:induction false} NothingIsDue(b: Book, script: Script, start: Schedule, begun: nat)
      requires Valid() && Settled() && Kept(b, script, start, begun, Pending(), now)
      ensures UpToDate(b, Pending(), now)
    {
      if |heap| > 0 {
        AllAfterTop(heap);
      }
      BookSettled(b, Pending(), now);
    }

    lemma {:induction false} KnownNodes(was: seq<TimerNode>, start: Schedule, added: seq<TimerNode>)
      requires start.Keys == Nodes(was) && Pending().Keys <= start.Keys + Nodes(added)
      ensures forall i :: 0 <= i < |heap| ==> heap[i] in was || heap[i] in added
    {
      forall i | 0 <= i < |heap|
        ensures heap[i] in was || heap[i] in added
      {
        assert heap[i] in Pending();
        assert heap[i] in Nodes(was) + Nodes(added);
      }
    }

    /** All that HandleRead does but arming the timerfd. */
    method CatchUp(script: Script, ghost quiet: nat) returns (b: Book)
      requires Valid() && Modest(script) && QuietFrom(script, quiet)
      modifies this, heap
      ensures Valid() && old(now) <= now && UpToDate(b, Pending(), now)
      ensures Accounted(b, script, old(Pending()), old(now), now)
      ensures b.dead == old(DeletedNodes()) && Marked(b.dead)
      ensures forall i :: 0 <= i < |heap| ==> heap[i] in old(heap) || fresh(heap[i])
    {
      ghost var was, start := heap, Pending();
      assert start.Keys == Nodes(was);
      b := RunDueTimers(script, quiet);
      NothingIsDue(b, script, start, old(now));
      KnownNodes(was, start, b.added);
    }

    /** The callback of the timerfd. However the clock moves between its readings, and whatever timers
        the callbacks add, the queue is up to date with the reading the loop stopped on; the timerfd
        is armed for the earliest deadline exactly when the clock has not passed that in between. */
    method HandleRead(script: Script, ghost quiet: nat) returns (last: nat, b: Book)
      requires Valid() && Modest(script) && QuietFrom(script, quiet)
      modifies this, heap
      ensures Valid() && old(now) <= last <= now
      ensures UpToDate(b, Pending(), last)
      ensures Accounted(b, script, old(Pending()), old(now), last)
      ensures b.dead == old(DeletedNodes()) && Marked(b.dead)
      ensures forall i :: 0 <= i < |heap| ==> heap[i] in old(heap) || fresh(heap[i])
      ensures Armed() <==> heap == [] || now <= heap[0].expiration
    {
      b := CatchUp(script, quiet);
      last := now;
      Rearm();
    }

    method Rearm()
      requires Valid()
      modifies this`now, this`armedFor, this`armedAt
      ensures Valid() && old(now) <= now && Pending() == old(Pending()) && DeletedNodes() == old(DeletedNodes())
      ensures Armed() <==> heap == [] || now <= heap[0].expiration
    {
      if |heap| > 0 {
        assert heap[0] in heap;
        ResetTimerfd(heap[0].expiration);
      }
    }

    /** Timers that are added between two wake-ups. */
    method AddTimers(requests: seq<Request>)
      requires Valid() && InRange(requests)
      modifies this
      ensures Valid() && old(now) <= now
      ensures Extends(old(Pending()), Pending()) && DeletedNodes() == old(DeletedNodes())
      ensures forall i :: 0 <= i < |heap| ==> heap[i] in old(heap) || fresh(heap[i])
    {
      for i := 0 to |requests|
        invariant Valid() && old(now) <= now
        invariant Extends(old(Pending()), Pending()) && DeletedNodes() == old(DeletedNodes())
        invariant forall i :: 0 <= i < |heap| ==> heap[i] in old(heap) || fresh(heap[i])
      {
        AddAnother(requests[i]);
      }
    }

    method AddAnother(r: Request)
      requires Valid() && IsInt(r.timeout) && r.interval <= INT_MAX
      modifies this
      ensures Valid() && old(now) <= now
      ensures Extends(old(Pending()), Pending()) && DeletedNodes() == old(DeletedNodes())
      ensures forall i :: 0 <= i < |heap| ==> heap[i] in old(heap) || fresh(heap[i])
    {
      assert forall n :: n in heap <==> n in Nodes(heap);
      var timer := AddTimer(r.timeout, r.interval);
      assert forall n :: n in heap <==> n in Nodes(heap);
    }

    /** Some timers are added, then the timerfd fires. */
    method Wake(turn: Turn) returns (w: Wakeup)
      requires Valid() && Playable(turn)
      modifies this, heap
      ensures Valid() && old(now) <= w.last <= now && Complete(w) && Extends(old(Pending()), w.start)
      ensures w.sched == Pending() && w.book.dead == old(DeletedNodes()) && DeletedNodes() <= w.book.dead
      ensures forall i :: 0 <= i < |heap| ==> heap[i] in old(heap) || fresh(heap[i])
    {
      AddTimers(turn.requests);
      var start := Pending();
      var last, b := HandleRead(turn.script, turn.quiet);
      w := Wakeup(b, start, Pending(), last);
    }

    /** Any number of wake-ups, with timers added between and during them. */
    method WakeAll(turns: seq<Turn>) returns (ws: seq<Wakeup>)
      requires Valid() && forall k :: 0 <= k < |turns| ==> Playable(turns[k])
      modifies this, heap
      ensures Valid() && |ws| == |turns| && Chain(ws)
      ensures ws != [] ==> old(now) <= ws[0].last && Extends(old(Pending()), ws[0].start)
      ensures ws != [] ==> ws[0].book.dead == old(DeletedNodes())
    {
      if turns == [] {
        return [];
      }
      var w := Wake(turns[0]);
      var rest := WakeAll(turns[1..]);
      ws := [w] + rest;
      assert ws[1..] == rest;
    }
  }

  /** A timer due now asks, when it runs, for one ten milliseconds back: that one is popped in its place,
      and it stays queued although it has run. */
  method WrongTimerIsPopped() returns (q: TimerQueue, ran: TimerNode, lost: TimerNode)
    ensures q.Valid() && ran in q.heap && lost !in q.heap
  {
    q := new TimerQueue(1000, 1000);
    ran := q.AddTimer(0, 0);
    var asked := [Request(-10, 0)];
    assert q.now == 1000 && ran.expiration == 1000;
    var added := q.RunAndPop(asked);
    assert Deadline(1000, asked[0].timeout) == 990;
    lost := added[0];
  }

  lemma {:induction false} AllAfterTop(h: seq<TimerNode>)
    requires IsHeap(h)
    ensures forall n | n in h :: h[0].expiration <= n.expiration
  {
    forall n | n in h
      ensures h[0].expiration <= n.expiration
    {
      var i :| 0 <= i < |h| && h[i] == n;
      TopIsEarliest(h, i);
    }
  }
}
