/** When a timer is due, and what a history of runs says about it. */
module TimerSchedule {

  /** One run of a timer: the deadline it was run for and the clock value that found it due. */
  datatype Fire<T> = Fire(timer: T, due: nat, at: nat)

  /** The deadlines of timer n in a history, in the order they were run. */
  ghost function RunsOf<T>(fires: seq<Fire<T>>, n: T): (r: seq<nat>)
    ensures |r| <= |fires|
  {
    if fires == [] then []
    else
      var last := fires[|fires| - 1];
      RunsOf(fires[..|fires| - 1], n) + if last.timer == n then [last.due] else []
  }

  lemma {:induction false} RunsOfOneMore<T>(fires: seq<Fire<T>>, f: Fire<T>, n: T)
    ensures RunsOf(fires + [f], n) == RunsOf(fires, n) + if f.timer == n then [f.due] else []
  {
  }

  /** A timer with no entry in the history has not run. */
  lemma {:induction false} NoRuns<T>(fires: seq<Fire<T>>, n: T)
    requires forall i :: 0 <= i < |fires| ==> fires[i].timer != n
    ensures RunsOf(fires, n) == []
  {
    if fires != [] {
      NoRuns(fires[..|fires| - 1], n);
    }
  }

  /** The deadlines from e on that a clock at upto has reached: e, e + interval, e + 2 * interval, ... */
  ghost function Deadlines(e: nat, interval: nat, upto: nat): (r: seq<nat>)
    ensures r == [] <==> e > upto
    ensures e <= upto && interval == 0 ==> r == [e]
    decreases if e > upto then 0 else upto - e + 1
  {
    if e > upto then []
    else if interval == 0 then [e]
    else [e] + Deadlines(e + interval, interval, upto)
  }

  /** Entry i of the deadlines is e + i * interval, and all of those up to the clock are there. */
  lemma {:induction false} DeadlinesAre(e: nat, interval: nat, upto: nat, i: nat)
    requires interval > 0
    ensures i < |Deadlines(e, interval, upto)| <==> e + i * interval <= upto
    ensures i < |Deadlines(e, interval, upto)| ==> Deadlines(e, interval, upto)[i] == e + i * interval
    decreases i
  {
    if i > 0 {
      assert i * interval == (i - 1) * interval + interval;
      if e <= upto {
        DeadlinesAre(e + interval, interval, upto, i - 1);
      } else {
        assert i * interval > 0;
      }
    }
  }

  /** Having run runs, and with next as the coming deadline, a timer that started at first has
      missed nothing and will miss nothing, however far the clock goes from now on. */
  ghost predicate OnCourse(runs: seq<nat>, next: nat, interval: nat, first: nat, now: nat) {
    forall u {:trigger Deadlines(next, interval, u)} ::
      u >= now ==> runs + Deadlines(next, interval, u) == Deadlines(first, interval, u)
  }

  lemma {:induction false} StartsOnCourse(first: nat, interval: nat, now: nat)
    ensures OnCourse([], first, interval, first, now)
  {
  }

  lemma {:induction false} RunKeepsCourse(runs: seq<nat>, next: nat, interval: nat, first: nat, now: nat)
    requires OnCourse(runs, next, interval, first, now) && next <= now && interval > 0
    ensures OnCourse(runs + [next], next + interval, interval, first, now)
  {
    forall u | u >= now
      ensures runs + [next] + Deadlines(next + interval, interval, u) == Deadlines(first, interval, u)
    {
      MoveFirst(runs, next, interval, u, Deadlines(first, interval, u));
    }
  }

  lemma {:induction false} MoveFirst(runs: seq<nat>, next: nat, interval: nat, upto: nat, all: seq<nat>)
    requires runs + Deadlines(next, interval, upto) == all && next <= upto && interval > 0
    ensures runs + [next] + Deadlines(next + interval, interval, upto) == all
  {
    var rest := Deadlines(next + interval, interval, upto);
    assert Deadlines(next, interval, upto) == [next] + rest;
    assert runs + [next] + rest == runs + ([next] + rest);
  }

  /** A timer that was on course at its deadline then, and is on course from there, is on course. */
  lemma {:induction false} CourseGoesOn(runs: seq<nat>, since: nat, more: seq<nat>, next: nat, interval: nat,
                                        first: nat, before: nat, now: nat)
    requires OnCourse(runs, since, interval, first, before) && before <= now
    requires OnCourse(more, next, interval, since, now)
    ensures OnCourse(runs + more, next, interval, first, now)
  {
    forall u | u >= now
      ensures runs + more + Deadlines(next, interval, u) == Deadlines(first, interval, u)
    {
      JoinUp(runs, more, Deadlines(next, interval, u), Deadlines(since, interval, u));
    }
  }

  lemma {:induction false} JoinUp(a: seq<nat>, b: seq<nat>, c: seq<nat>, d: seq<nat>)
    requires b + c == d
    ensures a + b + c == a + d
  {
  }

  /** Once the coming deadline is in the future, what ran is what was due. */
  lemma {:induction false} CourseComplete(runs: seq<nat>, next: nat, interval: nat, first: nat, now: nat)
    requires OnCourse(runs, next, interval, first, now) && next > now
    ensures runs == Deadlines(first, interval, now)
  {
    assert runs + Deadlines(next, interval, now) == runs;
  }

  /** A timer without interval that is on course and runs has had its only run. */
  lemma {:induction false} OnlyRun(runs: seq<nat>, next: nat, first: nat, now: nat)
    requires OnCourse(runs, next, 0, first, now) && next <= now
    ensures runs + [next] == [first] && first <= now
  {
    assert runs + Deadlines(next, 0, now) == Deadlines(first, 0, now);
    assert |runs + [next]| == |runs| + 1;
  }

  /** A timer without interval that is still on course with its deadline ahead has not had its run. */
  lemma {:induction false} AheadOfCourse(runs: seq<nat>, next: nat, first: nat, now: nat)
    requires OnCourse(runs, next, 0, first, now) && next > now
    ensures first > now
  {
    assert runs + Deadlines(next, 0, now) == Deadlines(first, 0, now);
    assert runs + Deadlines(next, 0, next) == Deadlines(first, 0, next);
    assert |runs + Deadlines(next, 0, next)| == |runs| + 1;
  }
}
