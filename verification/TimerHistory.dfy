/** The book kept while the timers run: what ran, which timers there were, and why that is right.
    Everything here speaks of values: a schedule maps each queued timer to its coming deadline. */
module TimerHistory {
  import opened TimerHeap
  import opened TimerSchedule

  type Schedule = map<TimerNode, nat>

  /** What a callback asks of the queue: a timer, in milliseconds. */
  datatype Request = Request(timeout: int, interval: nat)

  /** Everything that ran, the first deadline of every timer there was, the timers that were
      deleted while queued, and the timers the callbacks added. */
  datatype Book = Book(fires: seq<Fire<TimerNode>>, first: Schedule, dead: set<TimerNode>, added: seq<TimerNode>)

  /** What the callbacks ask for, run by run: run number k asks for script(k). */
  type Script = nat -> seq<Request>

  /** All that the first runs ask for, in order. */
  ghost function Asked(script: Script, runs: nat): (r: seq<Request>) {
    if runs == 0 then [] else Asked(script, runs - 1) + script(runs - 1)
  }

  /** No timer asked for lies before the clock. */
  ghost predicate NoneNegative(asked: seq<Request>) {
    forall i :: 0 <= i < |asked| ==> asked[i].timeout >= 0
  }

  /** None lies before a timer due at due, either. */
  ghost predicate NoneBefore(asked: seq<Request>, due: nat, now: nat) {
    forall i {:trigger asked[i]} :: 0 <= i < |asked| ==> now + asked[i].timeout >= due
  }

  /** Every timer asked for has some time to go. */
  ghost predicate Later(asked: seq<Request>) {
    forall i :: 0 <= i < |asked| ==> asked[i].timeout > 0
  }

  ghost predicate GrantedAt(added: seq<TimerNode>, asked: seq<Request>, first: Schedule, before: nat, now: nat, i: nat)
    requires i < |added| == |asked|
  {
    && added[i] in first && added[i].interval == asked[i].interval
    && before + asked[i].timeout <= first[added[i]] <= now + asked[i].timeout
  }

  /** The timers added while the clock went from before to now are the ones asked for, in that order. */
  ghost predicate GrantedAll(added: seq<TimerNode>, asked: seq<Request>, first: Schedule, before: nat, now: nat) {
    && |added| == |asked|
    && forall i: nat {:trigger GrantedAt(added, asked, first, before, now, i)} ::
         i < |added| ==> GrantedAt(added, asked, first, before, now, i)
  }

  /** What the book says of one timer: a deleted one never ran; one that is queued ran for each
      of its deadlines before the coming one; one that is gone had its single run. */
  ghost predicate Followed(b: Book, sched: Schedule, now: nat, n: TimerNode)
    requires n in b.first
  {
    if n in b.dead then RunsOf(b.fires, n) == []
    else if n in sched then OnCourse(RunsOf(b.fires, n), sched[n], n.interval, b.first[n], now)
    else n.interval == 0 && RunsOf(b.fires, n) == [b.first[n]] && b.first[n] <= now
  }

  /** A run of a timer that is in the book, and not before its deadline. */
  ghost predicate Punctual(b: Book, now: nat, i: nat)
    requires i < |b.fires|
  {
    b.fires[i].timer in b.first && b.fires[i].due <= b.fires[i].at <= now
  }

  ghost predicate History(b: Book, sched: Schedule, now: nat) {
    && sched.Keys <= b.first.Keys && b.dead <= b.first.Keys
    && (forall n {:trigger Followed(b, sched, now, n)} | n in b.first :: Followed(b, sched, now, n))
    && (forall i: nat {:trigger Punctual(b, now, i)} | i < |b.fires| :: Punctual(b, now, i))
  }

  ghost predicate DueBefore(fires: seq<Fire<TimerNode>>, i: nat, j: nat)
    requires i < |fires| && j < |fires|
  {
    fires[i].due <= fires[j].due
  }

  ghost predicate Ascending(fires: seq<Fire<TimerNode>>) {
    forall i: nat, j: nat {:trigger DueBefore(fires, i, j)} :: i < j < |fires| ==> DueBefore(fires, i, j)
  }

  /** Deadlines were run in order, and none that is queued comes before one that ran. */
  ghost predicate InDeadlineOrder(fires: seq<Fire<TimerNode>>, sched: Schedule) {
    && Ascending(fires)
    && (|fires| > 0 ==> forall n | n in sched :: fires[|fires| - 1].due <= sched[n])
  }

  /** The book covers the timers queued at the start and those the callbacks asked for. */
  ghost predicate Accounted(b: Book, script: Script, start: Schedule, begun: nat, now: nat) {
    && b.first.Keys == start.Keys + Nodes(b.added) && (forall n | n in start :: b.first[n] == start[n])
    && begun <= now && GrantedAll(b.added, Asked(script, |b.fires|), b.first, begun, now)
  }

  /** Started at begun with the schedule start, the queue has come to the schedule sched. */
  ghost predicate Kept(b: Book, script: Script, start: Schedule, begun: nat, sched: Schedule, now: nat) {
    History(b, sched, now) && InDeadlineOrder(b.fires, sched) && Accounted(b, script, start, begun, now)
  }

  /** Up to the clock value last, every timer in the book ran at exactly its deadlines, in order over
      all timers and never early, unless it was deleted; the timers with a deadline to come are
      queued with the next one, and nothing that is due is. */
  ghost predicate UpToDate(b: Book, sched: Schedule, last: nat) {
    && (forall n | n in b.first ::
          RunsOf(b.fires, n) == if n in b.dead then [] else Deadlines(b.first[n], n.interval, last))
    && (forall n | n in b.first && n !in b.dead :: n in sched <==> n.interval > 0 || b.first[n] > last)
    && (forall n | n in sched :: n in b.first && sched[n] > last)
    && (forall n {:trigger Followed(b, sched, last, n)} | n in b.first :: Followed(b, sched, last, n))
    && (forall i: nat {:trigger Punctual(b, last, i)} | i < |b.fires| :: Punctual(b, last, i))
    && Ascending(b.fires)
  }

  /** The schedule after a run of top: the added timers are in, top has its next deadline or is gone. */
  function AfterRun(sched: Schedule, added: Schedule, top: TimerNode): Schedule
    requires top in sched
  {
    if top.interval > 0 then (sched + added)[top := sched[top] + top.interval] else sched + added - {top}
  }

  lemma {:induction false} GrantedWithin(added: seq<TimerNode>, asked: seq<Request>, first: Schedule,
                                         before: nat, now: nat, start: nat, end: nat)
    requires GrantedAll(added, asked, first, before, now) && start <= before && now <= end
    ensures GrantedAll(added, asked, first, start, end)
  {
    forall i: nat | i < |added|
      ensures GrantedAt(added, asked, first, start, end, i)
    {
      assert GrantedAt(added, asked, first, before, now, i);
    }
  }

  lemma {:induction false} OpenBook(script: Script, sched: Schedule, dead: set<TimerNode>, now: nat)
    requires dead <= sched.Keys
    ensures Kept(Book([], sched, dead, []), script, sched, now, sched, now)
  {
  }

  lemma {:induction false} TimePasses(b: Book, script: Script, start: Schedule, begun: nat, sched: Schedule,
                                      before: nat, now: nat)
    requires Kept(b, script, start, begun, sched, before) && before <= now
    ensures Kept(b, script, start, begun, sched, now)
  {
    forall n | n in b.first
      ensures Followed(b, sched, now, n)
    {
      assert Followed(b, sched, before, n);
    }
    forall i: nat | i < |b.fires|
      ensures Punctual(b, now, i)
    {
      assert Punctual(b, before, i);
    }
    GrantedWithin(b.added, Asked(script, |b.fires|), b.first, begun, before, begun, now);
  }

  /** A deleted timer leaves the queue without running. */
  lemma {:induction false} DeadLeaves(b: Book, script: Script, start: Schedule, begun: nat, sched: Schedule,
                                      now: nat, n: TimerNode)
    requires Kept(b, script, start, begun, sched, now) && n in b.dead
    ensures Kept(b, script, start, begun, sched - {n}, now)
  {
    forall m | m in b.first
      ensures Followed(b, sched - {n}, now, m)
    {
      assert Followed(b, sched, now, m);
    }
  }

  lemma {:induction false} RanInOrder(fires: seq<Fire<TimerNode>>, f: Fire<TimerNode>)
    requires Ascending(fires) && (|fires| > 0 ==> fires[|fires| - 1].due <= f.due)
    ensures Ascending(fires + [f])
  {
    forall i: nat, j: nat | i < j < |fires + [f]|
      ensures DueBefore(fires + [f], i, j)
    {
      if i < |fires| - 1 {
        assert DueBefore(fires, i, |fires| - 1);
        assert j < |fires| ==> DueBefore(fires, i, j);
      }
    }
  }

  /** The book after a run: top ran at t, and while it did its callback added timers. */
  function WithRun(b: Book, top: TimerNode, due: nat, t: nat, more: seq<TimerNode>, added: Schedule): Book {
    Book(b.fires + [Fire(top, due, t)], b.first + added, b.dead, b.added + more)
  }

  lemma {:induction false} TopFollowed(runs: seq<nat>, due: nat, interval: nat, first: nat, before: nat, now: nat)
    requires OnCourse(runs, due, interval, first, before) && due <= before <= now
    ensures if interval > 0 then OnCourse(runs + [due], due + interval, interval, first, now)
            else runs + [due] == [first] && first <= now
  {
    if interval > 0 {
      RunKeepsCourse(runs, due, interval, first, before);
    } else {
      OnlyRun(runs, due, first, before);
    }
  }

  /** What changes for the timer that ran. */
  lemma {:induction false} RanFollowed(b: Book, sched: Schedule, t: nat, top: TimerNode, c: Book, after: Schedule,
                                       now: nat)
    requires top in b.first && top in sched && top !in b.dead && Followed(b, sched, t, top) && sched[top] <= t <= now
    requires RunsOf(c.fires, top) == RunsOf(b.fires, top) + [sched[top]]
    requires top in c.first && c.first[top] == b.first[top] && c.dead == b.dead
    requires if top.interval > 0 then top in after && after[top] == sched[top] + top.interval else top !in after
    ensures Followed(c, after, now, top)
  {
    TopFollowed(RunsOf(b.fires, top), sched[top], top.interval, b.first[top], t, now);
  }

  /** Nothing changes for another one. */
  lemma {:induction false} OtherFollowed(b: Book, sched: Schedule, t: nat, n: TimerNode, c: Book, after: Schedule,
                                         now: nat)
    requires n in b.first && Followed(b, sched, t, n) && t <= now
    requires RunsOf(c.fires, n) == RunsOf(b.fires, n)
    requires n in c.first && c.first[n] == b.first[n] && c.dead == b.dead
    requires (n in after <==> n in sched) && (n in sched ==> after[n] == sched[n])
    ensures Followed(c, after, now, n)
  {
  }

  /** A timer that was added has not run. */
  lemma {:induction false} AddedFollowed(b: Book, t: nat, n: TimerNode, c: Book, after: Schedule, now: nat)
    requires n !in b.first && b.dead <= b.first.Keys && forall i: nat | i < |b.fires| :: Punctual(b, t, i)
    requires RunsOf(c.fires, n) == RunsOf(b.fires, n)
    requires n in c.first && n in after && after[n] == c.first[n] && c.dead == b.dead
    ensures Followed(c, after, now, n)
  {
    forall i: nat | i < |b.fires|
      ensures b.fires[i].timer != n
    {
      assert Punctual(b, t, i);
    }
    NoRuns(b.fires, n);
    StartsOnCourse(c.first[n], n.interval, now);
  }

  lemma {:induction false} RunFollowed(b: Book, sched: Schedule, t: nat, top: TimerNode, more: seq<TimerNode>,
                                       added: Schedule, now: nat, n: TimerNode)
    requires History(b, sched, t) && top in sched && top !in b.dead && sched[top] <= t <= now
    requires added.Keys !! b.first.Keys && n in b.first + added
    ensures Followed(WithRun(b, top, sched[top], t, more, added), AfterRun(sched, added, top), now, n)
  {
    var c, after := WithRun(b, top, sched[top], t, more, added), AfterRun(sched, added, top);
    RunsOfOneMore(b.fires, Fire(top, sched[top], t), n);
    if n !in b.first {
      AddedFollowed(b, t, n, c, after, now);
    } else {
      assert Followed(b, sched, t, n);
      if n == top {
        RanFollowed(b, sched, t, top, c, after, now);
      } else {
        OtherFollowed(b, sched, t, n, c, after, now);
      }
    }
  }

  lemma {:induction false} RunAccounted(b: Book, script: Script, start: Schedule, begun: nat,
                                        top: TimerNode, due: nat, t: nat, more: seq<TimerNode>, added: Schedule,
                                        now: nat)
    requires Accounted(b, script, start, begun, t) && t <= now
    requires added.Keys == Nodes(more) && added.Keys !! b.first.Keys
    requires GrantedAll(more, script(|b.fires|), added, t, now)
    ensures Accounted(WithRun(b, top, due, t, more, added), script, start, begun, now)
  {
    var asked, wanted := Asked(script, |b.fires|), script(|b.fires|);
    forall i: nat | i < |b.added + more|
      ensures GrantedAt(b.added + more, asked + wanted, b.first + added, begun, now, i)
    {
      if i < |b.added| {
        assert GrantedAt(b.added, asked, b.first, begun, t, i);
      } else {
        assert GrantedAt(more, wanted, added, t, now, i - |b.added|);
      }
    }
    assert Nodes(b.added + more) == Nodes(b.added) + Nodes(more);
    forall n | n in start
      ensures (b.first + added)[n] == start[n]
    {
      assert n in b.first;
    }
  }

  /** What is asked for not to lie before due does not, and what has some time to go lies after the clock. */
  lemma {:induction false} NoneEarlier(added: seq<TimerNode>, asked: seq<Request>, first: Schedule,
                                       due: nat, before: nat, now: nat)
    requires GrantedAll(added, asked, first, before, now) && first.Keys == Nodes(added)
    requires NoneBefore(asked, due, before)
    ensures forall n | n in first :: first[n] >= due
    ensures Later(asked) ==> forall n | n in first :: first[n] > before
  {
    forall n | n in first
      ensures first[n] >= due && (Later(asked) ==> first[n] > before)
    {
      assert n in Nodes(added);
      var i: nat :| i < |added| && added[i] == n;
      assert GrantedAt(added, asked, first, before, now, i);
    }
  }

  /** A timer asked for with no time to go, while the clock stands still, is due at once: as long as
      every run asks for one, something due is queued after each of them. */
  lemma {:induction false} ZeroTimeoutIsDue(added: seq<TimerNode>, asked: seq<Request>, first: Schedule,
                                            now: nat, i: nat,
                                            sched: Schedule, top: TimerNode)
    requires GrantedAll(added, asked, first, now, now) && i < |asked| && asked[i].timeout == 0
    requires top in sched && top !in first
    ensures added[i] in AfterRun(sched, first, top) && AfterRun(sched, first, top)[added[i]] == now
  {
    assert GrantedAt(added, asked, first, now, now, i);
  }

  lemma {:induction false} RunInHistory(b: Book, sched: Schedule, top: TimerNode, t: nat, more: seq<TimerNode>,
                                        added: Schedule, now: nat)
    requires History(b, sched, t) && top in sched && top !in b.dead && sched[top] <= t <= now
    requires added.Keys !! b.first.Keys
    ensures History(WithRun(b, top, sched[top], t, more, added), AfterRun(sched, added, top), now)
  {
    var c, after := WithRun(b, top, sched[top], t, more, added), AfterRun(sched, added, top);
    forall n | n in c.first
      ensures Followed(c, after, now, n)
    {
      RunFollowed(b, sched, t, top, more, added, now, n);
    }
    forall i: nat | i < |c.fires|
      ensures Punctual(c, now, i)
    {
      assert i < |b.fires| ==> Punctual(b, t, i);
    }
  }

  /** Running the earliest timer when it is due, and queueing what its callback asks for, keeps the book. */
  lemma {:induction false} TopRuns(b: Book, script: Script, start: Schedule, begun: nat, sched: Schedule,
                                   top: TimerNode, t: nat, more: seq<TimerNode>, added: Schedule, now: nat)
    requires Kept(b, script, start, begun, sched, t)
    requires top in sched && top !in b.dead && sched[top] <= t <= now
    requires forall n | n in sched :: sched[top] <= sched[n]
    requires added.Keys == Nodes(more) && added.Keys !! b.first.Keys
    requires GrantedAll(more, script(|b.fires|), added, t, now) && NoneBefore(script(|b.fires|), sched[top], t)
    ensures Kept(WithRun(b, top, sched[top], t, more, added), script, start, begun, AfterRun(sched, added, top), now)
  {
    RunInHistory(b, sched, top, t, more, added, now);
    RanInOrder(b.fires, Fire(top, sched[top], t));
    NoneEarlier(more, script(|b.fires|), added, sched[top], t, now);
    RunAccounted(b, script, start, begun, top, sched[top], t, more, added, now);
  }

  /** When no queued deadline is due any more, the book is up to date. */
  lemma {:induction false} BookSettled(b: Book, sched: Schedule, now: nat)
    requires History(b, sched, now) && Ascending(b.fires) && forall n | n in sched :: sched[n] > now
    ensures UpToDate(b, sched, now)
  {
    forall n | n in b.first && n !in b.dead
      ensures RunsOf(b.fires, n) == Deadlines(b.first[n], n.interval, now)
      ensures n in sched <==> n.interval > 0 || b.first[n] > now
    {
      assert Followed(b, sched, now, n);
      if n in sched {
        CourseComplete(RunsOf(b.fires, n), sched[n], n.interval, b.first[n], now);
        if n.interval == 0 {
          AheadOfCourse(RunsOf(b.fires, n), sched[n], b.first[n], now);
        }
      }
    }
    forall n | n in b.dead
      ensures RunsOf(b.fires, n) == []
    {
      assert Followed(b, sched, now, n);
    }
  }

  // ----- wake-up after wake-up -----

  /** One time the timers were run: the schedule before and after, and the last clock reading. */
  datatype Wakeup = Wakeup(book: Book, start: Schedule, sched: Schedule, last: nat)

  /** b is a with more timers. */
  ghost predicate Extends(a: Schedule, b: Schedule) {
    forall n | n in a :: n in b && b[n] == a[n]
  }

  ghost predicate Complete(w: Wakeup) {
    UpToDate(w.book, w.sched, w.last) && Extends(w.start, w.book.first)
  }

  /** In between timers may have been added, and that is all. */
  ghost predicate Follows(v: Wakeup, w: Wakeup) {
    v.last <= w.last && Extends(v.sched, w.start) && w.book.dead <= v.book.dead
  }

  ghost predicate Chain(ws: seq<Wakeup>) {
    ws == [] || (Complete(ws[0]) && (|ws| > 1 ==> Follows(ws[0], ws[1])) && Chain(ws[1..]))
  }

  ghost function AllRuns(ws: seq<Wakeup>, n: TimerNode): (r: seq<nat>) {
    if ws == [] then [] else RunsOf(ws[0].book.fires, n) + AllRuns(ws[1..], n)
  }

  /** After these runs, up to the wake-up w, the timer is queued, and has run at all its deadlines since first. */
  ghost predicate OnTrack(runs: seq<nat>, w: Wakeup, n: TimerNode, first: nat) {
    n in w.sched && n !in w.book.dead && OnCourse(runs, w.sched[n], n.interval, first, w.last)
  }

  lemma {:induction false} NextWakeup(runs: seq<nat>, v: Wakeup, w: Wakeup, n: TimerNode, first: nat)
    requires OnTrack(runs, v, n, first) && Complete(w) && Follows(v, w) && n.interval > 0
    ensures OnTrack(runs + RunsOf(w.book.fires, n), w, n, first)
  {
    OneWakeup(w, n);
    CourseGoesOn(runs, v.sched[n], RunsOf(w.book.fires, n), w.sched[n], n.interval, first, v.last, w.last);
  }

  ghost function LastOf(w: Wakeup, rest: seq<Wakeup>): Wakeup {
    if rest == [] then w else rest[|rest| - 1]
  }

  lemma {:induction false} TrackOverWakeups(runs: seq<nat>, w: Wakeup, rest: seq<Wakeup>, n: TimerNode, first: nat)
    requires OnTrack(runs, w, n, first) && n.interval > 0
    requires Chain(rest) && (rest != [] ==> Follows(w, rest[0]))
    ensures OnTrack(runs + AllRuns(rest, n), LastOf(w, rest), n, first)
    decreases |rest|
  {
    if rest == [] {
      assert runs + [] == runs;
    } else {
      var more := RunsOf(rest[0].book.fires, n);
      NextWakeup(runs, w, rest[0], n, first);
      TrackOverWakeups(runs + more, rest[0], rest[1..], n, first);
      JoinUp(runs, more, AllRuns(rest[1..], n), AllRuns(rest, n));
    }
  }

  /** A repeating timer that is queued at the first wake-up stays queued, and over any number of
      wake-ups it runs at exactly its deadlines. */
  lemma {:induction false} RunsOverWakeups(ws: seq<Wakeup>, n: TimerNode)
    requires ws != [] && Chain(ws)
    requires n in ws[0].start && n !in ws[0].book.dead && n.interval > 0
    ensures var w := ws[|ws| - 1];
            n in w.sched && AllRuns(ws, n) == Deadlines(ws[0].start[n], n.interval, w.last)
  {
    var w := ws[|ws| - 1];
    OneWakeup(ws[0], n);
    TrackOverWakeups(RunsOf(ws[0].book.fires, n), ws[0], ws[1..], n, ws[0].start[n]);
    LastIsComplete(ws);
    CourseComplete(AllRuns(ws, n), w.sched[n], n.interval, ws[0].start[n], w.last);
  }

  lemma {:induction false} LastIsComplete(ws: seq<Wakeup>)
    requires ws != [] && Chain(ws)
    ensures Complete(ws[|ws| - 1])
  {
    if |ws| > 1 {
      LastIsComplete(ws[1..]);
    }
  }

  lemma {:induction false} OneWakeup(w: Wakeup, n: TimerNode)
    requires Complete(w) && n in w.start && n !in w.book.dead && n.interval > 0
    ensures OnTrack(RunsOf(w.book.fires, n), w, n, w.start[n])
  {
    assert Followed(w.book, w.sched, w.last, n);
  }
}
