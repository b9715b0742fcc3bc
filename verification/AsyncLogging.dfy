/** The asynchronous logger: the protocol of AsyncProtocol on real buffers and a real file. */
module AsyncLoggings {
  import opened FixedBuffers
  import opened AppendFiles
  import opened Options
  import P = AsyncProtocol
  import G = AsyncProgress

  type Log = P.State<FixedBuffer>

  /** The file, line by line, and the lines accepted so far and up to the last swap. */
  datatype History = History(file: seq<P.Record>, accepted: seq<P.Record>, swapped: nat)

  function Pointer(b: FixedBuffer?): Option<FixedBuffer> {
    if b == null then None else Some(b)
  }

  lemma {:induction false} FillIsAppended(size: nat, rs: seq<P.Record>, line: P.Record)
    ensures P.Flat(P.Fill(size, rs, line)) == Appended(P.Flat(rs), line, size)
  {
    P.FlatSnoc(rs, line);
  }

  /** The file holds these lines after what was in it before, and its device does not stall. */
  ghost predicate Durable(output: AppendFile, base: string, lines: seq<P.Record>)
    reads output
  {
    output.Reliable() && output.contents == base + P.Flat(lines)
  }

  lemma {:induction false} FileGrows(base: string, file: seq<P.Record>, lines: seq<P.Record>)
    ensures base + P.Flat(file + lines) == base + P.Flat(file) + P.Flat(lines)
  {
    P.FlatConcat(file, lines);
    assert base + (P.Flat(file) + P.Flat(lines)) == base + P.Flat(file) + P.Flat(lines);
  }

  /** The buffer holds the characters of these lines. */
  ghost predicate Carries(b: FixedBuffer, size: nat, lines: seq<P.Record>)
    reads b, b.data
  {
    b.Valid() && b.data.Length == size && b.Contents() == P.Flat(lines)
  }

  ghost predicate Separate(b: FixedBuffer, c: FixedBuffer) {
    b != c ==> b.data != c.data
  }

  ghost function Boxes(bs: set<FixedBuffer>): set<object> {
    bs + (set b | b in bs :: b.data)
  }

  /** Each buffer carries its lines, in an array of its own. */
  ghost predicate Backed(size: nat, held: map<FixedBuffer, seq<P.Record>>)
    reads Boxes(held.Keys)
  {
    && (forall b {:trigger Carries(b, size, held[b])} :: b in held ==> Carries(b, size, held[b]))
    && (forall b, c {:trigger Separate(b, c)} :: b in held && c in held ==> Separate(b, c))
  }

  /** FixedBuffer::append on one of the buffers. */
  method FillBuffer(b: FixedBuffer, logline: string, size: nat, ghost held: map<FixedBuffer, seq<P.Record>>)
    requires Backed(size, held) && b in held && |logline| < INT_LIMIT
    modifies b, b.data
    ensures Backed(size, held[b := P.Fill(size, held[b], logline)])
  {
    FillIsAppended(size, held[b], logline);
    assert Carries(b, size, held[b]);
    b.Append(logline);
    ghost var held' := held[b := P.Fill(size, held[b], logline)];
    forall c | c in held'
      ensures Carries(c, size, held'[c])
    {
      if c != b {
        assert old(Carries(c, size, held[c]));
        assert Separate(b, c);
      }
    }
    assert forall c, d {:trigger Separate(c, d)} :: c in held' && d in held' ==> c in held && d in held;
  }

  /** A new, empty buffer beside the others. */
  method NewBuffer(size: nat, ghost held: map<FixedBuffer, seq<P.Record>>) returns (b: FixedBuffer)
    requires Backed(size, held)
    ensures fresh(b) && fresh(b.data) && b !in held && Backed(size, held[b := []])
  {
    b := new FixedBuffer(size);
    ghost var held' := held[b := []];
    forall c | c in held'
      ensures Carries(c, size, held'[c])
    {
      if c != b {
        assert old(Carries(c, size, held[c]));
      }
    }
    forall c, d | c in held' && d in held'
      ensures Separate(c, d)
    {
      if c in held && d in held {
        assert Separate(c, d);
      }
    }
  }

  method FourBuffers(size: nat) returns (b1: FixedBuffer, b2: FixedBuffer, b3: FixedBuffer, b4: FixedBuffer)
    ensures fresh({b1, b2, b3, b4}) && fresh({b1.data, b2.data, b3.data, b4.data})
    ensures b2 != b1 && b3 !in {b1, b2} && b4 !in {b1, b2, b3}
    ensures Backed(size, map[b1 := [], b2 := [], b3 := [], b4 := []])
  {
    ghost var held: map<FixedBuffer, seq<P.Record>> := map[];
    b1 := NewBuffer(size, held);
    held := held[b1 := []];
    b2 := NewBuffer(size, held);
    held := held[b2 := []];
    b3 := NewBuffer(size, held);
    held := held[b3 := []];
    b4 := NewBuffer(size, held);
    held := held[b4 := []];
    assert held == map[b1 := [], b2 := [], b3 := [], b4 := []];
  }

  /** FixedBuffer::reset on one of the buffers. */
  method ResetBuffer(b: FixedBuffer, size: nat, ghost held: map<FixedBuffer, seq<P.Record>>)
    requires Backed(size, held) && b in held
    modifies b
    ensures Backed(size, held[b := []])
  {
    assert Carries(b, size, held[b]);
    b.Reset();
    ghost var held' := held[b := []];
    forall c | c in held'
      ensures Carries(c, size, held'[c])
    {
      if c != b {
        assert old(Carries(c, size, held[c]));
      }
    }
    assert forall c, d {:trigger Separate(c, d)} :: c in held' && d in held' ==> c in held && d in held;
  }

  /** Buffers that are given up leave the others as they are. */
  lemma {:induction false} BackedSubmap(size: nat, held: map<FixedBuffer, seq<P.Record>>,
                                        held': map<FixedBuffer, seq<P.Record>>)
    requires Backed(size, held) && forall b :: b in held' ==> b in held && held'[b] == held[b]
    ensures Backed(size, held')
  {
  }

  /** What somebody does next: a producer logs, the owner starts or stops, the backend thread takes its turn. */
  datatype Act = LogLine(line: P.Record) | Start | Stop | Turn

  /** The lines a schedule logs, in order. */
  function LinesOf(acts: seq<Act>): seq<P.Record> {
    if acts == [] then []
    else (if acts[0].LogLine? then [acts[0].line] else []) + LinesOf(acts[1..])
  }

  function TurnsIn(acts: seq<Act>): nat {
    if acts == [] then 0 else (if acts[0].Turn? then 1 else 0) + TurnsIn(acts[1..])
  }

  lemma {:induction false} FirstAct(acts: seq<Act>)
    requires acts != []
    ensures acts == [acts[0]] + acts[1..]
    ensures LinesOf(acts) == LinesOf([acts[0]]) + LinesOf(acts[1..])
    ensures TurnsIn(acts) == TurnsIn([acts[0]]) + TurnsIn(acts[1..])
    ensures forall act :: act in acts <==> act == acts[0] || act in acts[1..]
  {
    assert [acts[0]][1..] == [];
  }

  predicate Sendable(acts: seq<Act>) {
    forall i :: 0 <= i < |acts| && acts[i].LogLine? ==> |acts[i].line| < INT_LIMIT
  }

  /** The run that has been made comes to the state s. */
  ghost predicate RunTo(states: seq<Log>, events: seq<P.Event<FixedBuffer>>, s: Log) {
    P.IsRun(states, events) && states[|events|] == s
  }

  /** The event an act makes: none when the thread is started again, or has no turn to take. */
  ghost predicate Makes(act: Act, place: P.Place, e: Option<P.Event<FixedBuffer>>) {
    match act
    case LogLine(line) => e.Some? && e.value.Append? && e.value.line == line
    case Start => e == if place == P.NotStarted then Some(P.Start) else None
    case Stop => e == Some(P.Stop)
    case Turn => if place == P.NotStarted || place == P.Finished then e.None? else e.Some? && G.IsTurn(e.value)
  }

  /** How the run goes on during a schedule: every line is appended, and in a thread that is started and not stopped
      every turn is a step. */
  ghost predicate GoesOn(states: seq<Log>, events: seq<P.Event<FixedBuffer>>, acts: seq<Act>,
                         states': seq<Log>, events': seq<P.Event<FixedBuffer>>)
    requires P.IsRun(states, events) && P.IsRun(states', events')
  {
    && states <= states' && events <= events' && P.Appends(events') == P.Appends(events) + LinesOf(acts)
    && (Stop !in acts && G.Unstopped(states[|events|]) ==>
          && G.Unstopped(states'[|events'|])
          && (G.Going(states'[|events'|]) <==> G.Going(states[|events|]) || Start in acts))
    && (Stop !in acts && G.Going(states[|events|]) ==>
          G.NoStop(events', |events|, |events'|) && G.Turns(events') == G.Turns(events) + TurnsIn(acts))
  }

  lemma {:induction false} OneActGoesOn(states: seq<Log>, events: seq<P.Event<FixedBuffer>>, act: Act,
                                        e: P.Event<FixedBuffer>, s: Log)
    requires P.IsRun(states, events) && P.Next(states[|events|], e, s) && Makes(act, states[|events|].place, Some(e))
    ensures P.IsRun(states + [s], events + [e]) && GoesOn(states, events, [act], states + [s], events + [e])
  {
    P.RunGrows(states, events, e, s);
    P.AppendsOneMore(events, e);
    G.TurnsOneMore(events, e);
  }

  lemma {:induction false} NoActGoesOn(states: seq<Log>, events: seq<P.Event<FixedBuffer>>, acts: seq<Act>)
    requires P.IsRun(states, events)
    requires acts == [] || (|acts| == 1 && Makes(acts[0], states[|events|].place, None))
    ensures GoesOn(states, events, acts, states, events)
  {
    assert P.Appends(events) + [] == P.Appends(events);
  }

  lemma {:induction false} ActsGoOn(states: seq<Log>, events: seq<P.Event<FixedBuffer>>, acts: seq<Act>,
                                    more: seq<Log>, now: seq<P.Event<FixedBuffer>>,
                                    states': seq<Log>, events': seq<P.Event<FixedBuffer>>)
    requires P.IsRun(states, events) && P.IsRun(more, now) && P.IsRun(states', events') && acts != []
    requires GoesOn(states, events, [acts[0]], more, now) && GoesOn(more, now, acts[1..], states', events')
    ensures GoesOn(states, events, acts, states', events')
  {
    FirstAct(acts);
    assert P.Appends(events) + (LinesOf([acts[0]]) + LinesOf(acts[1..]))
        == P.Appends(events) + LinesOf([acts[0]]) + LinesOf(acts[1..]);
    if Stop !in acts && G.Going(states[|events|]) {
      StillNoStop(now, events', |events|);
    }
  }

  lemma {:induction false} StillNoStop(now: seq<P.Event<FixedBuffer>>, events: seq<P.Event<FixedBuffer>>, a: nat)
    requires now <= events && G.NoStop(now, a, |now|) && G.NoStop(events, |now|, |events|)
    ensures G.NoStop(events, a, |events|)
  {
    forall k | a <= k < |events|
      ensures !events[k].Stop?
    {
      if k < |now| {
        assert events[k] == now[k];
      }
    }
  }

  class AsyncLogging {
    const size: nat
    const output: AppendFile
    ghost const base: string  // what was in the file before
    // shared, under the mutex
    var currentBuffer: FixedBuffer
    var nextBuffer: FixedBuffer?
    var buffers: seq<FixedBuffer>
    var running: bool
    // the backend thread's own
    var newBuffer1: FixedBuffer?
    var newBuffer2: FixedBuffer?
    var buffersToWrite: seq<FixedBuffer>
    var written: nat
    var place: P.Place
    // what the buffers and the file hold, line by line
    ghost var held: map<FixedBuffer, seq<P.Record>>
    ghost var history: History

    ghost function State(): Log
      reads this
    {
      P.State(size, currentBuffer, Pointer(nextBuffer), buffers, Pointer(newBuffer1), Pointer(newBuffer2),
              buffersToWrite, written, place, running, held, history.file, history.accepted, history.swapped)
    }

    ghost function Footprint(): set<object>
      reads this
    {
      {this, output} + Boxes(held.Keys)
    }

    ghost predicate Valid()
      reads Footprint()
    {
      P.Inv(State()) && Backed(size, held) && Durable(output, base, history.file)
    }

    /** The front end's two buffers and the two the backend thread starts with. The file is appended to. */
    constructor (size: nat, output: AppendFile)
      requires size > 0 && output.Reliable()
      ensures Valid() && P.Init(State()) && this.size == size && this.output == output && base == output.contents
      ensures fresh(Footprint() - {output})
    {
      var b1, b2, b3, b4 := FourBuffers(size);
      this.size, this.output, base := size, output, output.contents;
      currentBuffer, nextBuffer, newBuffer1, newBuffer2 := b1, b2, b3, b4;
      buffers, buffersToWrite, written := [], [], 0;
      running, place := false, P.NotStarted;
      held := map[b1 := [], b2 := [], b3 := [], b4 := []];
      history := History([], [], 0);
      new;
      P.InitInv(State());
    }

    /** The line goes into the current buffer or is dropped; the ghost records follow. */
    method PutLine(logline: string)
      requires Backed(size, held) && currentBuffer in held && |logline| < INT_LIMIT
      modifies this`held, this`history, currentBuffer, currentBuffer.data
      ensures Backed(size, held) && State() == P.FillStep(old(State()), logline) && held.Keys == old(held.Keys)
    {
      FillBuffer(currentBuffer, logline, size, held);
      held := held[currentBuffer := P.Fill(size, held[currentBuffer], logline)];
      history := history.(accepted := if |logline| < size then history.accepted + [logline] else history.accepted);
    }

    method FillCurrent(logline: string)
      requires Valid() && |logline| < INT_LIMIT
      requires P.Fits(State(), logline) || held[currentBuffer] == []
      modifies this`held, this`history, currentBuffer, currentBuffer.data
      ensures Valid() && State() == P.FillStep(old(State()), logline) && Footprint() == old(Footprint())
    {
      P.FillKeepsInv(State(), logline);
      PutLine(logline);
    }

    /** The current buffer joins the vector, the spare one or a new one takes its place. */
    method TakeSpare()
      requires Backed(size, held)
      modifies this`buffers, this`currentBuffer, this`nextBuffer, this`held
      ensures Backed(size, held) && State() == P.HandOverStep(old(State()), currentBuffer)
      ensures old(nextBuffer) == null ==>
                fresh(currentBuffer) && fresh(currentBuffer.data) && currentBuffer !in old(held)
    {
      buffers := buffers + [currentBuffer];
      if nextBuffer != null {
        currentBuffer := nextBuffer;
        nextBuffer := null;
      } else {
        currentBuffer := NewBuffer(size, held);
        held := held[currentBuffer := []];
      }
    }

    /** No room: the front end goes on in an empty buffer. */
    method HandOver()
      requires Valid()
      modifies this`buffers, this`currentBuffer, this`nextBuffer, this`held
      ensures Valid() && State() == P.HandOverStep(old(State()), currentBuffer) && held[currentBuffer] == []
      ensures old(nextBuffer) == null ==> fresh(currentBuffer)
      ensures forall b :: b in held ==> b in old(held) || (fresh(b) && fresh(b.data))
    {
      TakeSpare();
      P.HandOverKeepsInv(old(State()), currentBuffer);
    }

    /** The branch for a line that does not fit the current buffer. */
    method AppendToNext(logline: string)
      requires Valid() && |logline| < INT_LIMIT && !P.Fits(State(), logline)
      modifies Footprint()
      ensures Valid() && forall b :: b in held ==> b in old(held) || (fresh(b) && fresh(b.data))
      ensures State() == P.AppendStep(old(State()), logline, currentBuffer)
      ensures old(nextBuffer) == null ==> currentBuffer !in old(held)
    {
      HandOver();
      FillCurrent(logline);
    }

    /** The producers' side, atomic under the mutex. */
    method Append(logline: string) returns (ghost room: FixedBuffer)
      requires Valid() && |logline| < INT_LIMIT
      modifies Footprint()
      ensures Valid() && forall b :: b in held ==> b in old(held) || (fresh(b) && fresh(b.data))
      ensures State() == P.AppendStep(old(State()), logline, room)
      ensures P.NeedsRoom(old(State()), logline) ==> room !in old(held)
    {
      assert Carries(currentBuffer, size, held[currentBuffer]);
      var avail := currentBuffer.Avail();
      if avail > |logline| {
        FillCurrent(logline);
      } else {
        AppendToNext(logline);
      }
      room := currentBuffer;
    }

    /** start(): the thread comes to its loop test. */
    method Start()
      requires Valid() && place == P.NotStarted
      modifies this`running, this`place
      ensures Valid() && State() == P.StartStep(old(State()))
    {
      running, place := true, P.AtTest;
      P.NextKeepsInv(old(State()), P.Start, State());
    }

    /** stop(), apart from waiting for the thread. */
    method Stop()
      requires Valid()
      modifies this`running
      ensures Valid() && P.Next(old(State()), P.Stop, State())
    {
      running := false;
      P.NextKeepsInv(old(State()), P.Stop, State());
    }

    /** The loop test of the backend thread and the asserts behind it. */
    method Test()
      requires Valid() && place == P.AtTest
      modifies this`place
      ensures Valid() && State() == P.TestStep(old(State()))
      ensures place == if running then P.BeforeSwap else P.Finished
      ensures newBuffer1 != null && held[newBuffer1] == [] && newBuffer2 != null && held[newBuffer2] == []
      ensures buffersToWrite == []
    {
      place := if running then P.BeforeSwap else P.Finished;
      P.NextKeepsInv(old(State()), P.Test, State());
    }

    /** The current buffer joins the others, all of them go to the backend, its first spare one comes in. */
    method TakeFront()
      requires newBuffer1 != null && buffersToWrite == []
      modifies this`buffers, this`currentBuffer, this`newBuffer1, this`buffersToWrite
      ensures buffers == [] && buffersToWrite == old(buffers) + [old(currentBuffer)]
      ensures currentBuffer == old(newBuffer1) && newBuffer1 == null
    {
      buffers := buffers + [currentBuffer];
      currentBuffer := newBuffer1;
      newBuffer1 := null;
      buffers, buffersToWrite := buffersToWrite, buffers;
    }

    /** The critical section of the backend thread. */
    method Exchange()
      requires newBuffer1 != null && buffersToWrite == []
      modifies this`buffers, this`currentBuffer, this`newBuffer1, this`buffersToWrite, this`nextBuffer
      modifies this`newBuffer2, this`place, this`written, this`history
      ensures State() == P.SwapStep(old(State()))
    {
      TakeFront();
      if nextBuffer == null {
        nextBuffer := newBuffer2;
        newBuffer2 := null;
      }
      place, written := P.Writing, 0;
      history := history.(swapped := |history.accepted|);
    }

    /** The backend's turn with the mutex: it takes the front end's buffers for its spare ones. */
    method Swap()
      requires Valid() && place == P.BeforeSwap
      modifies this`buffers, this`currentBuffer, this`newBuffer1, this`buffersToWrite, this`nextBuffer
      modifies this`newBuffer2, this`place, this`written, this`history
      ensures Valid() && State() == P.SwapStep(old(State())) && Footprint() == old(Footprint())
    {
      P.SwapKeepsInv(State());
      Exchange();
    }

    /** A whole buffer goes to the file. */
    method WriteBuffer(b: FixedBuffer)
      requires Backed(size, held) && b in held && Durable(output, base, history.file)
      modifies this`history, output
      ensures Durable(output, base, history.file) && history == old(history).(file := old(history).file + held[b])
    {
      assert Carries(b, size, held[b]);
      output.Append(b.data[..b.cur]);
      FileGrows(base, history.file, held[b]);
      history := history.(file := history.file + held[b]);
    }

    /** One turn of the write loop. */
    method WriteOne()
      requires Valid() && place == P.Writing && written < |buffersToWrite|
      modifies this`written, this`history, output
      ensures Valid() && State() == P.WriteStep(old(State()))
    {
      P.NextKeepsInv(State(), P.WriteOne, P.WriteStep(State()));
      WriteBuffer(buffersToWrite[written]);
      written := written + 1;
    }

    /** back(), pop_back() and reset(): the last written buffer becomes a spare one. */
    method TakeBack() returns (b: FixedBuffer)
      requires Backed(size, held) && buffersToWrite != [] && buffersToWrite[|buffersToWrite| - 1] in held
      modifies this`buffersToWrite, this`held, buffersToWrite[|buffersToWrite| - 1]
      ensures b == old(buffersToWrite)[|old(buffersToWrite)| - 1]
      ensures buffersToWrite == old(buffersToWrite)[..|old(buffersToWrite)| - 1]
      ensures Backed(size, held) && held == old(held)[b := []]
    {
      b := buffersToWrite[|buffersToWrite| - 1];
      buffersToWrite := buffersToWrite[..|buffersToWrite| - 1];
      ResetBuffer(b, size, held);
      held := held[b := []];
    }

    /** Two buffers at most are kept, the spare ones that are missing are taken from them. */
    method KeepTwo()
      requires Backed(size, held) && P.CanRecycle(State())
      requires forall i :: 0 <= i < |buffersToWrite| ==> buffersToWrite[i] in held
      modifies this`buffersToWrite, this`newBuffer1, this`newBuffer2, this`held, held.Keys
      ensures Backed(size, held) && P.CanRecycle(old(State())) && held == P.Emptied(old(State()))
      ensures newBuffer1 == old(buffersToWrite)[P.LastKept(old(State()))]
      ensures newBuffer2 == if old(newBuffer2) == null then old(buffersToWrite)[P.LastKept(old(State())) - 1]
                            else old(newBuffer2)
    {
      if |buffersToWrite| > 2 {
        buffersToWrite := buffersToWrite[..2];
      }
      if newBuffer1 == null {
        newBuffer1 := TakeBack();
      }
      if newBuffer2 == null {
        newBuffer2 := TakeBack();
      }
    }

    /** clear(): what is still in the vector is destroyed; back to the loop test. */
    method GiveUpRest(ghost s: Log)
      requires P.CanRecycle(s) && Backed(size, held) && held == P.Emptied(s)
      requires State() == s.(spare1 := P.RecycleStep(s).spare1, spare2 := P.RecycleStep(s).spare2,
                             toWrite := buffersToWrite, held := held)
      modifies this`buffersToWrite, this`held, this`written, this`place
      ensures Backed(size, held) && State() == P.RecycleStep(s)
    {
      P.RestIsEmptied(s);
      BackedSubmap(size, held, P.RecycleStep(s).held);
      buffersToWrite, written, place := [], 0, P.AtTest;
      held := P.RecycleStep(s).held;
    }

    /** What follows the write loop. */
    method GiveBack()
      requires Backed(size, held) && P.CanRecycle(State())
      requires forall i :: 0 <= i < |buffersToWrite| ==> buffersToWrite[i] in held
      modifies this`buffersToWrite, this`newBuffer1, this`newBuffer2, this`held, this`written, this`place, held.Keys
      ensures P.CanRecycle(old(State())) && State() == P.RecycleStep(old(State())) && Backed(size, held)
      ensures newBuffer1 != null && newBuffer2 != null
    {
      ghost var s := State();
      KeepTwo();
      GiveUpRest(s);
    }

    /** After the write loop: the backend is as it was before the swap. */
    method Recycle()
      requires Valid() && place == P.Writing && written == |buffersToWrite|
      modifies this`buffersToWrite, this`newBuffer1, this`newBuffer2, this`held, this`written, this`place, held.Keys
      ensures Valid() && State() == P.RecycleStep(old(State()))
      ensures newBuffer1 != null && newBuffer2 != null
    {
      P.RecycleKeepsInv(State());
      GiveBack();
    }

    /** The next step of the backend thread, none before it is started and after it has ended. */
    method TakeTurn() returns (ghost e: Option<P.Event<FixedBuffer>>)
      requires Valid()
      modifies Footprint()
      ensures Valid() && forall b :: b in held ==> b in old(held) || (fresh(b) && fresh(b.data))
      ensures if e.None? then State() == old(State()) else P.Next(old(State()), e.value, State())
      ensures Makes(Turn, old(place), e)
    {
      e := None;
      match place {
        case NotStarted =>
        case AtTest =>
          Test();
          e := Some(P.Test);
        case BeforeSwap =>
          Swap();
          e := Some(P.Swap);
        case Writing =>
          if written < |buffersToWrite| {
            WriteOne();
            e := Some(P.WriteOne);
          } else {
            Recycle();
            e := Some(P.Recycle);
          }
        case Finished =>
      }
    }

    method Perform(act: Act) returns (ghost e: Option<P.Event<FixedBuffer>>)
      requires Valid() && (act.LogLine? ==> |act.line| < INT_LIMIT)
      modifies Footprint()
      ensures Valid() && forall b :: b in held ==> b in old(held) || (fresh(b) && fresh(b.data))
      ensures if e.None? then State() == old(State()) else P.Next(old(State()), e.value, State())
      ensures Makes(act, old(place), e)
    {
      e := None;
      match act {
        case LogLine(line) =>
          ghost var room := Append(line);
          e := Some(P.Append(line, room));
        case Start =>
          if place == P.NotStarted {
            Start();
            e := Some(P.Start);
          }
        case Stop =>
          Stop();
          e := Some(P.Stop);
        case Turn =>
          e := TakeTurn();
      }
    }

    /** The event of an act joins the run, if there is one. */
    method PerformNext(act: Act, ghost states: seq<Log>, ghost events: seq<P.Event<FixedBuffer>>)
      returns (ghost states': seq<Log>, ghost events': seq<P.Event<FixedBuffer>>)
      requires Valid() && (act.LogLine? ==> |act.line| < INT_LIMIT)
      requires RunTo(states, events, State())
      modifies Footprint()
      ensures Valid() && forall b :: b in held ==> b in old(held) || (fresh(b) && fresh(b.data))
      ensures RunTo(states', events', State()) && GoesOn(states, events, [act], states', events')
    {
      ghost var e := Perform(act);
      if e.Some? {
        OneActGoesOn(states, events, act, e.value, State());
        states', events' := states + [State()], events + [e.value];
      } else {
        NoActGoesOn(states, events, [act]);
        states', events' := states, events;
      }
    }

    /** Whatever the schedule, what the logger goes through prolongs the run. */
    method Drive(acts: seq<Act>, ghost states: seq<Log>, ghost events: seq<P.Event<FixedBuffer>>)
      returns (ghost states': seq<Log>, ghost events': seq<P.Event<FixedBuffer>>)
      requires Valid() && Sendable(acts) && RunTo(states, events, State())
      modifies Footprint()
      ensures Valid() && RunTo(states', events', State())
      ensures forall b :: b in held ==> b in old(held) || (fresh(b) && fresh(b.data))
      ensures GoesOn(states, events, acts, states', events')
    {
      if acts == [] {
        states', events' := states, events;
        NoActGoesOn(states, events, []);
      } else {
        ghost var more, now;
        more, now := PerformNext(acts[0], states, events);
        states', events' := Drive(acts[1..], more, now);
        ActsGoOn(states, events, acts, more, now, states', events');
      }
    }

    /** From the start on it is a run: the file is what was in it before and then the first of the logged lines that
        are shorter than a buffer, and when the thread has ended, those accepted before the last swap. */
    method DriveFromStart(acts: seq<Act>) returns (ghost states: seq<Log>, ghost events: seq<P.Event<FixedBuffer>>)
      requires Valid() && Sendable(acts) && P.Init(State())
      modifies Footprint()
      ensures Valid() && RunTo(states, events, State()) && P.Appends(events) == LinesOf(acts)
      ensures forall b :: b in held ==> b in old(held) || (fresh(b) && fresh(b.data))
      ensures output.contents == base + P.Flat(history.file) && history.file <= P.Short(LinesOf(acts), size)
      ensures Act.Stop !in acts ==> G.Unstopped(State()) && (G.Going(State()) <==> Act.Start in acts)
      ensures place == P.Finished ==>
                output.contents == base + P.Flat(P.AcceptedOf(events[..P.LastSwap(events)], size))
    {
      ghost var start := State();
      states, events := Drive(acts, [start], []);
      FirstLines(states, events, State());
      if place == P.Finished {
        FileAfterStop(this, states, events);
      }
    }

    /** Two schedules in a row. If the first one starts the thread, none stops it, and the second one gives it five
        turns more than lines are logged in all, then everything logged in the first one that is shorter than a buffer
        is in the file, whole and in order; and if the second one logs nothing, the file ends with it. */
    method DriveAndWait(acts: seq<Act>, more: seq<Act>)
      requires Valid() && Sendable(acts) && Sendable(more) && P.Init(State())
      modifies Footprint()
      ensures Valid()
      ensures Act.Start in acts && Act.Stop !in acts && Act.Stop !in more
              && TurnsIn(more) >= |LinesOf(acts)| + |LinesOf(more)| + 5 ==>
                && base + P.Flat(P.Short(LinesOf(acts), size)) <= output.contents
                && (LinesOf(more) == [] ==> output.contents == base + P.Flat(P.Short(LinesOf(acts), size)))
    {
      ghost var states, events, states', events';
      states, events := DriveFromStart(acts);
      states', events' := Drive(more, states, events);
      if Act.Start in acts && Act.Stop !in acts && Act.Stop !in more
         && TurnsIn(more) >= |LinesOf(acts)| + |LinesOf(more)| + 5 {
        Delivered(states, events, more, states', events', LinesOf(acts), State(), base);
      }
    }
  }

  lemma {:induction false} FirstLines(states: seq<Log>, events: seq<P.Event<FixedBuffer>>, s: Log)
    requires RunTo(states, events, s)
    ensures s.size == states[0].size && s.file <= P.Short(P.Appends(events), s.size)
  {
    P.RunInv(states, events, |events|);
    P.RunLog(states, events, |events|);
    G.FileIsPrefix(s);
    assert events[..|events|] == events;
    P.AcceptedAreShort(events, s.size);
  }

  /** What was logged before is in the file after enough turns. */
  lemma {:induction false} Arrived(states: seq<Log>, events: seq<P.Event<FixedBuffer>>, more: seq<Act>,
                                   states': seq<Log>, events': seq<P.Event<FixedBuffer>>, logged: seq<P.Record>)
    requires P.IsRun(states, events) && P.IsRun(states', events') && GoesOn(states, events, more, states', events')
    requires Stop !in more && G.Going(states[|events|]) && P.Appends(events) == logged
    requires TurnsIn(more) >= |logged| + |LinesOf(more)| + 5
    ensures P.Short(logged, states'[0].size) <= states'[|events'|].file
  {
    assert events'[..|events|] == events && events'[..|events'|] == events';
    G.EverythingArrives(states', events', |events|, |events'|);
    P.AcceptedAreShort(events, states'[0].size);
  }

  lemma {:induction false} Delivered(states: seq<Log>, events: seq<P.Event<FixedBuffer>>, more: seq<Act>,
                                     states': seq<Log>, events': seq<P.Event<FixedBuffer>>, logged: seq<P.Record>,
                                     s: Log, base: string)
    requires P.IsRun(states, events) && RunTo(states', events', s) && GoesOn(states, events, more, states', events')
    requires Stop !in more && G.Going(states[|events|]) && P.Appends(events) == logged
    requires TurnsIn(more) >= |logged| + |LinesOf(more)| + 5
    ensures base + P.Flat(P.Short(logged, s.size)) <= base + P.Flat(s.file)
    ensures LinesOf(more) == [] ==> s.file == P.Short(logged, s.size)
  {
    FirstLines(states', events', s);
    Arrived(states, events, more, states', events', logged);
    LinesBegin(base, P.Short(logged, s.size), s.file);
    assert logged + [] == logged;
  }

  lemma {:induction false} LinesBegin(base: string, first: seq<P.Record>, lines: seq<P.Record>)
    requires first <= lines
    ensures base + P.Flat(first) <= base + P.Flat(lines)
  {
    assert first + lines[|first|..] == lines;
    FileGrows(base, first, lines[|first|..]);
  }

  // ----- the bytes behind the records -----

  /** What the buffers hold, one after the other. */
  ghost function Bytes(bs: seq<FixedBuffer>): string
    requires forall b :: b in bs ==> b.Valid()
    reads bs, set b | b in bs :: b.data
  {
    if bs == [] then "" else bs[0].Contents() + Bytes(bs[1..])
  }

  lemma {:induction false} BytesAreRecords(bs: seq<FixedBuffer>, size: nat, held: map<FixedBuffer, seq<P.Record>>)
    requires Backed(size, held) && forall i :: 0 <= i < |bs| ==> bs[i] in held
    ensures (forall b :: b in bs ==> b.Valid()) && Bytes(bs) == P.Flat(P.Records(held, bs))
  {
    forall b | b in bs
      ensures b.Valid()
    {
      assert Carries(b, size, held[b]);
    }
    if bs != [] {
      assert Carries(bs[0], size, held[bs[0]]);
      BytesAreRecords(bs[1..], size, held);
      P.FlatConcat(held[bs[0]], P.Records(held, bs[1..]));
    }
  }

  lemma {:induction false} BuffersAreValid(log: AsyncLogging)
    requires log.Valid()
    ensures log.written <= |log.buffersToWrite| && log.currentBuffer.Valid()
    ensures forall b :: b in log.buffers || b in log.buffersToWrite ==> b.Valid()
    ensures log.currentBuffer.Contents() == P.Flat(log.held[log.currentBuffer])
    ensures Bytes(log.buffers) == P.Flat(P.Records(log.held, log.buffers))
    ensures Bytes(log.buffersToWrite[log.written..]) ==
            P.Flat(P.Records(log.held, log.buffersToWrite[log.written..]))
  {
    BytesAreRecords(log.buffers, log.size, log.held);
    BytesAreRecords(log.buffersToWrite, log.size, log.held);
    BytesAreRecords(log.buffersToWrite[log.written..], log.size, log.held);
    assert Carries(log.currentBuffer, log.size, log.held[log.currentBuffer]);
  }

  /** At every moment the bytes of the file, of the buffers still to be written, of the full ones
      and of the current one are those of the accepted lines, in order. */
  lemma {:induction false} BytesConserved(log: AsyncLogging)
    requires log.Valid()
    ensures log.written <= |log.buffersToWrite| && log.currentBuffer.Valid()
    ensures forall b :: b in log.buffers || b in log.buffersToWrite ==> b.Valid()
    ensures log.output.contents + Bytes(log.buffersToWrite[log.written..]) + Bytes(log.buffers)
            + log.currentBuffer.Contents() == log.base + P.Flat(log.history.accepted)
  {
    BuffersAreValid(log);
    P.Halves(log.State());
    FlatOfFour(log.base, log.history.file, P.Records(log.held, log.buffersToWrite[log.written..]),
               P.Records(log.held, log.buffers), log.held[log.currentBuffer], log.history.accepted);
  }

  lemma {:induction false} FlatOfFour(base: string, a: seq<P.Record>, b: seq<P.Record>, c: seq<P.Record>,
                                      d: seq<P.Record>, all: seq<P.Record>)
    requires a + b + c + d == all
    ensures base + P.Flat(a) + P.Flat(b) + P.Flat(c) + P.Flat(d) == base + P.Flat(all)
  {
    FileGrows(base, a, b);
    FileGrows(base, a + b, c);
    FileGrows(base, a + b + c, d);
  }

  /** A logger whose thread has ended, after any run: its file has got the bytes of what was accepted before the
      last swap, and its buffers still have the bytes of what was accepted after it. */
  lemma {:induction false} FileAfterStop(log: AsyncLogging, states: seq<Log>, events: seq<P.Event<FixedBuffer>>)
    requires log.Valid() && P.IsRun(states, events) && states[|events|] == log.State() && log.place == P.Finished
    ensures log.output.contents == log.base + P.Flat(P.AcceptedOf(events[..P.LastSwap(events)], log.size))
    ensures (forall b :: b in log.buffers ==> b.Valid()) && log.currentBuffer.Valid()
    ensures Bytes(log.buffers) + log.currentBuffer.Contents() ==
            P.Flat(P.AcceptedOf(events[P.LastSwap(events)..], log.size))
  {
    P.AfterStop(states, events);
    BuffersAreValid(log);
    P.FlatConcat(P.Records(log.held, log.buffers), log.held[log.currentBuffer]);
  }
}
