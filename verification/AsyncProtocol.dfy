/** The double-buffer protocol of the asynchronous logger as a transition system: producers append
    under the mutex, between any two steps of the backend thread. */
module AsyncProtocol {
  import opened Options

  /** A log line. */
  type Record = string

  function Flat(rs: seq<Record>): string {
    if rs == [] then "" else rs[0] + Flat(rs[1..])
  }

  lemma {:induction false} FlatConcat(a: seq<Record>, b: seq<Record>)
    ensures Flat(a + b) == Flat(a) + Flat(b)
  {
    if a == [] {
      assert [] + b == b;
    } else {
      FlatConcat(a[1..], b);
      assert (a + b)[1..] == a[1..] + b;
      assert (a[0] + Flat(a[1..])) + Flat(b) == a[0] + (Flat(a[1..]) + Flat(b));
    }
  }

  /** Where the backend thread is: not started, at the loop test, before the swap, writing, or behind the loop. */
  datatype Place = NotStarted | AtTest | BeforeSwap | Writing | Finished

  /** Who holds which buffer, and what is in each. Ref stands for the address of a buffer. */
  datatype State<!Ref(==)> = State(
    size: nat,
    current: Ref, next: Option<Ref>, buffers: seq<Ref>,
    spare1: Option<Ref>, spare2: Option<Ref>, toWrite: seq<Ref>, written: nat,
    place: Place, running: bool,
    held: map<Ref, seq<Record>>,
    file: seq<Record>,
    accepted: seq<Record>,
    swapped: nat)

  /** What can happen next; an append brings the buffer that would be allocated if none is spare. */
  datatype Event<Ref> = Append(line: Record, room: Ref) | Start | Stop | Test | Swap | WriteOne | Recycle

  function One(b: bool): nat {
    if b then 1 else 0
  }

  function Occurrences<Ref(==)>(bs: seq<Ref>, b: Ref): nat {
    if bs == [] then 0 else One(bs[0] == b) + Occurrences(bs[1..], b)
  }

  /** How many of the owning pointers of the logger and of its backend thread point to b. */
  function Owners<Ref(==)>(s: State<Ref>, b: Ref): nat {
    One(s.current == b) + One(s.next == Some(b)) + Occurrences(s.buffers, b)
    + One(s.spare1 == Some(b)) + One(s.spare2 == Some(b)) + Occurrences(s.toWrite, b)
  }

  /** The records of a list of buffers, one after the other. */
  function Records<Ref>(held: map<Ref, seq<Record>>, bs: seq<Ref>): seq<Record>
    requires forall i :: 0 <= i < |bs| ==> bs[i] in held
  {
    if bs == [] then [] else held[bs[0]] + Records(held, bs[1..])
  }

  /** An append that finds no room and no spare buffer allocates one. */
  ghost predicate NeedsRoom<Ref>(s: State<Ref>, line: Record) {
    s.current in s.held && !Fits(s, line) && s.next.None?
  }

  ghost predicate Enabled<Ref>(s: State<Ref>, e: Event<Ref>) {
    match e
    case Append(line, b) => NeedsRoom(s, line) ==> b !in s.held
    case Start => s.place == NotStarted
    case Stop => true
    case Test => s.place == AtTest
    case Swap => s.place == BeforeSwap
    case WriteOne => s.place == Writing && s.written < |s.toWrite|
    case Recycle => s.place == Writing && s.written == |s.toWrite|
  }

  /** FixedBuffer::append: the line goes in if one character stays free, else it is dropped. */
  function Fill(size: nat, rs: seq<Record>, line: Record): seq<Record> {
    if size - |Flat(rs)| > |line| then rs + [line] else rs
  }

  predicate Fits<Ref>(s: State<Ref>, line: Record)
    requires s.current in s.held
  {
    s.size - |Flat(s.held[s.current])| > |line|
  }

  /** The line goes into the current buffer, or is dropped if that is too small for it. */
  function FillStep<Ref>(s: State<Ref>, line: Record): State<Ref>
    requires s.current in s.held
  {
    s.(held := s.held[s.current := Fill(s.size, s.held[s.current], line)],
       accepted := if |line| < s.size then s.accepted + [line] else s.accepted)
  }

  /** The current buffer joins the vector; the spare buffer takes its place, or a new one. */
  function HandOverStep<Ref>(s: State<Ref>, room: Ref): State<Ref> {
    s.(buffers := s.buffers + [s.current], current := if s.next.Some? then s.next.value else room, next := None,
       held := if s.next.Some? then s.held else s.held[room := []])
  }

  function AppendStep<Ref>(s: State<Ref>, line: Record, room: Ref): State<Ref>
    requires s.current in s.held && (s.next.Some? ==> s.next.value in s.held)
  {
    if Fits(s, line) then FillStep(s, line) else FillStep(HandOverStep(s, room), line)
  }

  function StartStep<Ref>(s: State<Ref>): State<Ref> {
    s.(running := true, place := AtTest)
  }

  function TestStep<Ref>(s: State<Ref>): State<Ref> {
    s.(place := if s.running then BeforeSwap else Finished)
  }

  function SwapStep<Ref>(s: State<Ref>): State<Ref>
    requires s.spare1.Some?
  {
    s.(toWrite := s.buffers + [s.current], buffers := [], current := s.spare1.value, spare1 := None,
       next := if s.next.None? then s.spare2 else s.next,
       spare2 := if s.next.None? then None else s.spare2,
       place := Writing, written := 0, swapped := |s.accepted|)
  }

  function WriteStep<Ref>(s: State<Ref>): State<Ref>
    requires s.written < |s.toWrite| && s.toWrite[s.written] in s.held
  {
    s.(file := s.file + s.held[s.toWrite[s.written]], written := s.written + 1)
  }

  ghost predicate CanRecycle<Ref>(s: State<Ref>) {
    s.spare1.None? && s.toWrite != [] && (s.spare2.None? ==> |s.toWrite| >= 2)
  }

  /** Of the written buffers two at most are kept; the last of them is the new first spare. */
  function LastKept<Ref>(s: State<Ref>): (i: nat)
    requires s.toWrite != []
    ensures i < |s.toWrite| && (|s.toWrite| >= 2 ==> i >= 1)
  {
    if |s.toWrite| > 2 then 1 else |s.toWrite| - 1
  }

  /** The buffers that the backend takes back, emptied. */
  function TakenBack<Ref(==)>(s: State<Ref>): set<Ref>
    requires CanRecycle(s)
  {
    {s.toWrite[LastKept(s)]} + (if s.spare2.None? then {s.toWrite[LastKept(s) - 1]} else {})
  }

  /** What the buffers hold when those are emptied and none is given up yet. */
  function Emptied<Ref>(s: State<Ref>): map<Ref, seq<Record>>
    requires CanRecycle(s)
  {
    var first := s.held[s.toWrite[LastKept(s)] := []];
    if s.spare2.None? then first[s.toWrite[LastKept(s) - 1] := []] else first
  }

  function RecycleStep<Ref>(s: State<Ref>): State<Ref>
    requires CanRecycle(s)
  {
    var taken := TakenBack(s);
    s.(spare1 := Some(s.toWrite[LastKept(s)]),
       spare2 := if s.spare2.None? then Some(s.toWrite[LastKept(s) - 1]) else s.spare2,
       toWrite := [], written := 0, place := AtTest,
       held := map b | b in s.held && (b in taken || b !in s.toWrite) :: if b in taken then [] else s.held[b])
  }

  ghost predicate Next<Ref>(s: State<Ref>, e: Event<Ref>, s': State<Ref>) {
    && Enabled(s, e)
    && match e
       case Append(line, b) =>
         s.current in s.held && (s.next.Some? ==> s.next.value in s.held) && s' == AppendStep(s, line, b)
       case Start => s' == StartStep(s)
       case Stop => s' == s.(running := false)
       case Test => s' == TestStep(s)
       case Swap => s.spare1.Some? && s' == SwapStep(s)
       case WriteOne => s.toWrite[s.written] in s.held && s' == WriteStep(s)
       case Recycle => CanRecycle(s) && s' == RecycleStep(s)
  }

  /** The state after the constructor: two buffers in front, and the two the backend thread will bring. */
  ghost predicate Init<Ref>(s: State<Ref>) {
    && s.next.Some? && s.spare1.Some? && s.spare2.Some?
    && s.buffers == [] && s.toWrite == [] && s.written == 0
    && s.place == NotStarted && !s.running && s.size > 0
    && s.current != s.next.value && s.spare1.value !in {s.current, s.next.value}
    && s.spare2.value !in {s.current, s.next.value, s.spare1.value}
    && s.held.Keys == {s.current, s.next.value, s.spare1.value, s.spare2.value}
    && (forall b :: b in s.held ==> s.held[b] == [])
    && s.file == [] && s.accepted == [] && s.swapped == 0
  }

  // ----- the invariant -----

  /** Every pointer points to a buffer there is. */
  ghost predicate Known<Ref>(s: State<Ref>) {
    && s.current in s.held
    && (s.next.Some? ==> s.next.value in s.held)
    && (s.spare1.Some? ==> s.spare1.value in s.held)
    && (s.spare2.Some? ==> s.spare2.value in s.held)
    && (forall i :: 0 <= i < |s.buffers| ==> s.buffers[i] in s.held)
    && (forall i :: 0 <= i < |s.toWrite| ==> s.toWrite[i] in s.held)
  }

  /** Every buffer has exactly one owner. */
  ghost predicate Ownership<Ref>(s: State<Ref>) {
    forall b {:trigger Owners(s, b)} :: b in s.held ==> Owners(s, b) == 1
  }

  /** No buffer is full, and the spare ones are empty. */
  ghost predicate Fillings<Ref>(s: State<Ref>)
    requires Known(s)
  {
    && (forall b {:trigger Flat(s.held[b])} :: b in s.held ==> |Flat(s.held[b])| < s.size)
    && (s.next.Some? ==> s.held[s.next.value] == [])
    && (s.spare1.Some? ==> s.held[s.spare1.value] == [])
    && (s.spare2.Some? ==> s.held[s.spare2.value] == [])
  }

  /** Outside the writing part of its loop the backend has both spares and nothing to write. */
  ghost predicate Idle<Ref>(s: State<Ref>) {
    s.spare1.Some? && s.spare2.Some? && s.toWrite == [] && s.written == 0
  }

  /** Inside it the first spare is given away, and there are enough buffers to take the spares from. */
  ghost predicate Busy<Ref>(s: State<Ref>) {
    s.spare1.None? && s.toWrite != [] && s.written <= |s.toWrite| && (s.spare2.None? ==> |s.toWrite| >= 2)
  }

  ghost predicate Conserved<Ref>(s: State<Ref>)
    requires Known(s)
  {
    && s.written <= |s.toWrite|
    && s.swapped <= |s.accepted|
    && s.file + Records(s.held, s.toWrite[s.written..]) == s.accepted[..s.swapped]
    && Records(s.held, s.buffers) + s.held[s.current] == s.accepted[s.swapped..]
  }

  /** Every buffer has one owner, none is full, no line is lost, and the front end without a spare
      buffer has at least one full one. */
  ghost predicate Core<Ref>(s: State<Ref>) {
    && s.size > 0 && Known(s) && Ownership(s) && Fillings(s) && Conserved(s)
    && (s.next.None? ==> s.buffers != [])
  }

  ghost predicate Inv<Ref>(s: State<Ref>) {
    match s.place
    case Writing => Core(s) && Busy(s)
    case _ => Core(s) && Idle(s)
  }

  lemma {:induction false} InitInv<Ref>(s: State<Ref>)
    requires Init(s)
    ensures Inv(s)
  {
  }

  lemma {:induction false} OccurrencesSnoc<Ref>(bs: seq<Ref>, c: Ref, b: Ref)
    ensures Occurrences(bs + [c], b) == Occurrences(bs, b) + One(c == b)
  {
    if bs == [] {
      assert [] + [c] == [c];
    } else {
      OccurrencesSnoc(bs[1..], c, b);
      assert (bs + [c])[1..] == bs[1..] + [c];
    }
  }

  lemma {:induction false} OccurrencesAt<Ref>(bs: seq<Ref>, i: nat)
    requires i < |bs|
    ensures Occurrences(bs, bs[i]) >= 1
  {
    if i > 0 {
      OccurrencesAt(bs[1..], i - 1);
    }
  }

  lemma {:induction false} HandOverOwnership<Ref>(s: State<Ref>, room: Ref)
    requires Known(s) && Ownership(s) && (s.next.None? ==> room !in s.held)
    ensures Known(HandOverStep(s, room)) && Ownership(HandOverStep(s, room))
  {
    var s' := HandOverStep(s, room);
    forall b | b in s'.held
      ensures Owners(s', b) == 1
    {
      OccurrencesSnoc(s.buffers, s.current, b);
      if b in s.held {
        assert Owners(s, b) == 1;
      } else {
        NotOwned(s, b);
      }
    }
  }

  lemma {:induction false} NotOwned<Ref>(s: State<Ref>, b: Ref)
    requires Known(s) && b !in s.held
    ensures Owners(s, b) == 0
  {
    NoOccurrences(s.held.Keys, s.buffers, b);
    NoOccurrences(s.held.Keys, s.toWrite, b);
  }

  lemma {:induction false} NoOccurrences<Ref>(keys: set<Ref>, bs: seq<Ref>, b: Ref)
    requires b !in keys && forall i :: 0 <= i < |bs| ==> bs[i] in keys
    ensures Occurrences(bs, b) == 0
  {
    if bs != [] {
      NoOccurrences(keys, bs[1..], b);
    }
  }

  // ----- what each step keeps -----

  lemma {:induction false} RecordsSame<Ref>(held: map<Ref, seq<Record>>, held': map<Ref, seq<Record>>, bs: seq<Ref>)
    requires forall i :: 0 <= i < |bs| ==> bs[i] in held && bs[i] in held' && held[bs[i]] == held'[bs[i]]
    ensures Records(held, bs) == Records(held', bs)
  {
    if bs != [] {
      RecordsSame(held, held', bs[1..]);
    }
  }

  lemma {:induction false} RecordsSnoc<Ref>(held: map<Ref, seq<Record>>, bs: seq<Ref>, b: Ref)
    requires b in held && forall i :: 0 <= i < |bs| ==> bs[i] in held
    ensures Records(held, bs + [b]) == Records(held, bs) + held[b]
  {
    if bs == [] {
      assert [] + [b] == [b];
    } else {
      RecordsSnoc(held, bs[1..], b);
      assert (bs + [b])[1..] == bs[1..] + [b];
      assert (held[bs[0]] + Records(held, bs[1..])) + held[b] == held[bs[0]] + (Records(held, bs[1..]) + held[b]);
    }
  }

  /** A buffer with one owner is in no other place. */
  lemma {:induction false} CurrentIsAlone<Ref>(s: State<Ref>)
    requires Known(s) && Ownership(s)
    ensures forall i :: 0 <= i < |s.buffers| ==> s.buffers[i] != s.current
    ensures forall i :: 0 <= i < |s.toWrite| ==> s.toWrite[i] != s.current
    ensures s.next != Some(s.current) && s.spare1 != Some(s.current) && s.spare2 != Some(s.current)
  {
    assert Owners(s, s.current) == 1;
    forall i | 0 <= i < |s.buffers|
      ensures s.buffers[i] != s.current
    {
      OccurrencesAt(s.buffers, i);
    }
    forall i | 0 <= i < |s.toWrite|
      ensures s.toWrite[i] != s.current
    {
      OccurrencesAt(s.toWrite, i);
    }
  }

  lemma {:induction false} FlatSnoc(rs: seq<Record>, line: Record)
    ensures Flat(rs + [line]) == Flat(rs) + line
  {
    FlatConcat(rs, [line]);
    assert Flat([line]) == line + Flat([]) == line;
  }

  lemma {:induction false} HistorySnoc(rs: seq<Record>, line: Record, k: nat)
    requires k <= |rs|
    ensures (rs + [line])[..k] == rs[..k] && (rs + [line])[k..] == rs[k..] + [line]
  {
  }

  /** Handing over keeps everything: the old buffer is now the last of the vector, the new one is empty. */
  lemma {:induction false} HandOverKeepsInv<Ref>(s: State<Ref>, room: Ref)
    requires Inv(s) && (s.next.None? ==> room !in s.held)
    ensures Inv(HandOverStep(s, room))
    ensures var s' := HandOverStep(s, room); s'.held[s'.current] == []
  {
    var s' := HandOverStep(s, room);
    HandOverOwnership(s, room);
    RecordsSnoc(s.held, s.buffers, s.current);
    RecordsSame(s.held, s'.held, s'.buffers);
    RecordsSame(s.held, s'.held, s.toWrite[s.written..]);
  }

  lemma {:induction false} FillFillings<Ref>(s: State<Ref>, line: Record)
    requires Known(s) && Ownership(s) && Fillings(s)
    ensures Known(FillStep(s, line)) && Fillings(FillStep(s, line))
  {
    CurrentIsAlone(s);
    FlatSnoc(s.held[s.current], line);
  }

  lemma {:induction false} FillConserved<Ref>(s: State<Ref>, line: Record)
    requires Known(s) && Ownership(s) && Conserved(s) && (Fits(s, line) || s.held[s.current] == [])
    ensures Known(FillStep(s, line)) && Conserved(FillStep(s, line))
  {
    var s' := FillStep(s, line);
    CurrentIsAlone(s);
    RecordsSame(s.held, s'.held, s.toWrite[s.written..]);
    RecordsSame(s.held, s'.held, s.buffers);
    HistorySnoc(s.accepted, line, s.swapped);
    var front := Records(s.held, s.buffers);
    assert front + (s.held[s.current] + [line]) == front + s.held[s.current] + [line];
  }

  lemma {:induction false} FillKeepsInv<Ref>(s: State<Ref>, line: Record)
    requires Inv(s) && (Fits(s, line) || s.held[s.current] == [])
    ensures Inv(FillStep(s, line))
  {
    FillFillings(s, line);
    FillConserved(s, line);
    SamePointers(s, FillStep(s, line));
  }

  lemma {:induction false} SwapOwnership<Ref>(s: State<Ref>)
    requires Known(s) && Ownership(s) && s.spare1.Some? && s.toWrite == []
    ensures Known(SwapStep(s)) && Ownership(SwapStep(s))
  {
    forall b | b in s.held
      ensures Owners(SwapStep(s), b) == Owners(s, b)
    {
      OccurrencesSnoc(s.buffers, s.current, b);
    }
  }

  lemma {:induction false} SwapConserved<Ref>(s: State<Ref>)
    requires Inv(s) && s.place == BeforeSwap
    ensures Known(SwapStep(s)) && Conserved(SwapStep(s))
  {
    SwapOwnership(s);
    var s' := SwapStep(s);
    RecordsSnoc(s.held, s.buffers, s.current);
    assert s.toWrite[s.written..] == [] && s'.toWrite[0..] == s'.toWrite;
    assert s.file == s.accepted[..s.swapped];
    assert s.accepted == s.accepted[..s.swapped] + s.accepted[s.swapped..];
    assert s.accepted[..|s.accepted|] == s.accepted;
  }

  lemma {:induction false} WriteConserved<Ref>(s: State<Ref>)
    requires Inv(s) && s.place == Writing && s.written < |s.toWrite|
    ensures Known(WriteStep(s)) && Conserved(WriteStep(s))
  {
  }

  lemma {:induction false} OccurrencesTwice<Ref>(bs: seq<Ref>, i: nat, j: nat)
    requires i < j < |bs| && bs[i] == bs[j]
    ensures Occurrences(bs, bs[i]) >= 2
  {
    if i == 0 {
      OccurrencesAt(bs[1..], j - 1);
    } else {
      OccurrencesTwice(bs[1..], i - 1, j - 1);
    }
  }

  lemma {:induction false} OccurrencesNone<Ref>(bs: seq<Ref>, b: Ref)
    requires b !in bs
    ensures Occurrences(bs, b) == 0
  {
    if bs != [] {
      OccurrencesNone(bs[1..], b);
    }
  }

  /** A buffer that has been written is in the backend's vector once and nowhere else. */
  lemma {:induction false} WrittenIsAlone<Ref>(s: State<Ref>, i: nat)
    requires Known(s) && Ownership(s) && i < |s.toWrite|
    ensures var b := s.toWrite[i];
      && s.current != b && s.next != Some(b) && s.spare1 != Some(b) && s.spare2 != Some(b)
      && Occurrences(s.buffers, b) == 0 && b !in s.buffers
      && forall j :: 0 <= j < |s.toWrite| && j != i ==> s.toWrite[j] != b
  {
    var b := s.toWrite[i];
    assert Owners(s, b) == 1;
    OccurrencesAt(s.toWrite, i);
    forall j | 0 <= j < |s.toWrite| && j != i
      ensures s.toWrite[j] != b
    {
      if s.toWrite[j] == b {
        OccurrencesTwice(s.toWrite, if i < j then i else j, if i < j then j else i);
      }
    }
    forall j | 0 <= j < |s.buffers|
      ensures s.buffers[j] != b
    {
      OccurrencesAt(s.buffers, j);
    }
  }

  lemma {:induction false} OthersAreNotWritten<Ref>(s: State<Ref>)
    requires Known(s) && Ownership(s)
    ensures s.current !in s.toWrite
    ensures s.next.Some? ==> s.next.value !in s.toWrite
    ensures s.spare2.Some? ==> s.spare2.value !in s.toWrite
    ensures forall i :: 0 <= i < |s.buffers| ==> s.buffers[i] !in s.toWrite
  {
    forall j | 0 <= j < |s.toWrite|
      ensures s.current != s.toWrite[j] && s.next != Some(s.toWrite[j]) && s.spare2 != Some(s.toWrite[j])
      ensures s.toWrite[j] !in s.buffers
    {
      WrittenIsAlone(s, j);
    }
  }

  lemma {:induction false} RecycleKnown<Ref>(s: State<Ref>)
    requires Known(s) && Ownership(s) && CanRecycle(s)
    ensures Known(RecycleStep(s))
  {
    OthersAreNotWritten(s);
  }

  lemma {:induction false} RestIsEmptied<Ref>(s: State<Ref>)
    requires CanRecycle(s)
    ensures var kept := RecycleStep(s).held; forall b :: b in kept ==> b in Emptied(s) && Emptied(s)[b] == kept[b]
  {
  }

  lemma {:induction false} RecycleOwnership<Ref>(s: State<Ref>)
    requires Known(s) && Ownership(s) && CanRecycle(s)
    ensures Ownership(RecycleStep(s))
  {
    var s' := RecycleStep(s);
    var i := LastKept(s);
    forall b | b in s'.held
      ensures Owners(s', b) == 1
    {
      if b !in s.toWrite {
        OccurrencesNone(s.toWrite, b);
        assert Owners(s, b) == 1;
      } else if b == s.toWrite[i] {
        WrittenIsAlone(s, i);
      } else {
        WrittenIsAlone(s, i - 1);
      }
    }
  }

  lemma {:induction false} RecycleConserved<Ref>(s: State<Ref>)
    requires Inv(s) && s.place == Writing && s.written == |s.toWrite|
    ensures Known(RecycleStep(s)) && Fillings(RecycleStep(s)) && Conserved(RecycleStep(s))
  {
    var s' := RecycleStep(s);
    RecycleKnown(s);
    OthersAreNotWritten(s);
    RecordsSame(s.held, s'.held, s.buffers);
    assert s.toWrite[s.written..] == [] && s'.toWrite[0..] == [];
  }

  // ----- every run -----

  lemma {:induction false} AppendKeepsInv<Ref>(s: State<Ref>, line: Record, room: Ref)
    requires Inv(s) && (NeedsRoom(s, line) ==> room !in s.held)
    ensures Inv(AppendStep(s, line, room))
  {
    if Fits(s, line) {
      FillKeepsInv(s, line);
    } else {
      HandOverKeepsInv(s, room);
      FillKeepsInv(HandOverStep(s, room), line);
    }
  }

  lemma {:induction false} RecycleKeepsInv<Ref>(s: State<Ref>)
    requires Inv(s) && s.place == Writing && s.written == |s.toWrite|
    ensures Inv(RecycleStep(s))
  {
    RecycleKnown(s);
    RecycleOwnership(s);
    RecycleConserved(s);
  }

  lemma {:induction false} SwapKeepsInv<Ref>(s: State<Ref>)
    requires Inv(s) && s.place == BeforeSwap
    ensures Inv(SwapStep(s))
  {
    SwapOwnership(s);
    SwapConserved(s);
  }

  /** Each step keeps the invariant. */
  lemma {:induction false} NextKeepsInv<Ref>(s: State<Ref>, e: Event<Ref>, s': State<Ref>)
    requires Inv(s) && Next(s, e, s')
    ensures Inv(s')
  {
    match e
    case Append(line, room) => AppendKeepsInv(s, line, room);
    case Start => SamePointers(s, s');
    case Stop => SamePointers(s, s');
    case Test => SamePointers(s, s');
    case Swap => SwapKeepsInv(s);
    case WriteOne =>
      SamePointers(s, s');
      WriteConserved(s);
    case Recycle => RecycleKeepsInv(s);
  }

  lemma {:induction false} SamePointers<Ref>(s: State<Ref>, s': State<Ref>)
    requires Ownership(s) && s'.held.Keys == s.held.Keys
    requires s'.current == s.current && s'.next == s.next && s'.buffers == s.buffers
    requires s'.spare1 == s.spare1 && s'.spare2 == s.spare2 && s'.toWrite == s.toWrite
    ensures Ownership(s')
  {
    forall b | b in s'.held
      ensures Owners(s', b) == 1
    {
      assert b in s.held.Keys;
      assert Owners(s, b) == 1;
    }
  }

  /** Whatever the schedule allows can be done: the asserts at the top of the loop hold, no step
      reads a pointer that was given away, and back() and pop_back() never meet an empty vector. */
  lemma {:induction false} NeverStuck<Ref>(s: State<Ref>, e: Event<Ref>)
    requires Inv(s) && Enabled(s, e)
    ensures exists s' :: Next(s, e, s')
    ensures e.Test? || e.Swap? ==>
      && s.spare1.Some? && s.held[s.spare1.value] == []
      && s.spare2.Some? && s.held[s.spare2.value] == [] && s.spare1 != s.spare2
      && s.toWrite == []
    ensures e.Recycle? ==> s.toWrite != [] && (s.spare2.None? ==> |s.toWrite| >= 2)
  {
    match e
    case Append(line, room) => assert Next(s, e, AppendStep(s, line, room));
    case Start => assert Next(s, e, StartStep(s));
    case Stop => assert Next(s, e, s.(running := false));
    case Test =>
      assert Owners(s, s.spare1.value) == 1;
      assert Next(s, e, TestStep(s));
    case Swap =>
      assert Owners(s, s.spare1.value) == 1;
      assert Next(s, e, SwapStep(s));
    case WriteOne => assert Next(s, e, WriteStep(s));
    case Recycle => assert Next(s, e, RecycleStep(s));
  }

  /** A run: the producers and the backend thread interleaved in any way. */
  ghost predicate IsRun<Ref>(states: seq<State<Ref>>, events: seq<Event<Ref>>) {
    && |states| == |events| + 1 && Init(states[0])
    && forall i {:trigger events[i]} :: 0 <= i < |events| ==> Next(states[i], events[i], states[i + 1])
  }

  lemma {:induction false} RunGrows<Ref>(states: seq<State<Ref>>, events: seq<Event<Ref>>, e: Event<Ref>, s: State<Ref>)
    requires IsRun(states, events) && Next(states[|events|], e, s)
    ensures IsRun(states + [s], events + [e])
  {
  }

  /** The lines that were appended, in order. */
  function Appends<Ref>(events: seq<Event<Ref>>): seq<Record> {
    if events == [] then []
    else
      var e := events[|events| - 1];
      Appends(events[..|events| - 1]) + if e.Append? then [e.line] else []
  }

  lemma {:induction false} AppendsOneMore<Ref>(events: seq<Event<Ref>>, e: Event<Ref>)
    ensures Appends(events + [e]) == Appends(events) + if e.Append? then [e.line] else []
  {
    assert (events + [e])[..|events|] == events;
  }

  /** The lines that were appended and fit a buffer at all, in order. */
  function AcceptedOf<Ref>(events: seq<Event<Ref>>, size: nat): seq<Record> {
    if events == [] then []
    else
      var before, e := AcceptedOf(events[..|events| - 1], size), events[|events| - 1];
      if e.Append? && |e.line| < size then before + [e.line] else before
  }

  /** The lines that are shorter than a buffer, in order. */
  function Short(lines: seq<Record>, size: nat): seq<Record> {
    if lines == [] then []
    else
      var line := lines[|lines| - 1];
      Short(lines[..|lines| - 1], size) + if |line| < size then [line] else []
  }

  lemma {:induction false} ShortOneMore(lines: seq<Record>, line: Record, size: nat)
    ensures Short(lines + [line], size) == if |line| < size then Short(lines, size) + [line] else Short(lines, size)
  {
    assert (lines + [line])[..|lines|] == lines;
  }

  /** When every line is shorter than a buffer none is left out. */
  lemma {:induction false} AllAreShort(lines: seq<Record>, size: nat)
    ensures (forall line :: line in lines ==> |line| < size) <==> Short(lines, size) == lines
    ensures |Short(lines, size)| <= |lines|
  {
    if lines != [] {
      var before, line := lines[..|lines| - 1], lines[|lines| - 1];
      assert lines == before + [line];
      AllAreShort(before, size);
    }
  }

  lemma {:induction false} AcceptedAreShort<Ref>(events: seq<Event<Ref>>, size: nat)
    ensures AcceptedOf(events, size) == Short(Appends(events), size)
  {
    if events != [] {
      var before, e := events[..|events| - 1], events[|events| - 1];
      AcceptedAreShort(before, size);
      if e.Append? {
        ShortOneMore(Appends(before), e.line, size);
      } else {
        assert Appends(before) + [] == Appends(before);
      }
    }
  }

  /** How many events there are up to and including the last swap. */
  function LastSwap<Ref>(events: seq<Event<Ref>>): (k: nat)
    ensures k <= |events| && (k == 0 || events[k - 1].Swap?)
    ensures forall i :: k <= i < |events| ==> !events[i].Swap?
  {
    if events == [] then 0
    else if events[|events| - 1].Swap? then |events|
    else LastSwap(events[..|events| - 1])
  }

  /** What had been accepted when the last swap was made. */
  function LoggedAtSwap<Ref>(events: seq<Event<Ref>>, size: nat): seq<Record> {
    if events == [] then []
    else
      var before := events[..|events| - 1];
      if events[|events| - 1].Swap? then AcceptedOf(before, size) else LoggedAtSwap(before, size)
  }

  lemma {:induction false} LoggedIsPrefix<Ref>(events: seq<Event<Ref>>, size: nat)
    ensures LoggedAtSwap(events, size) == AcceptedOf(events[..LastSwap(events)], size)
  {
    if events == [] {
    } else if events[|events| - 1].Swap? {
      assert events[..|events|] == events;
    } else {
      var before := events[..|events| - 1];
      LoggedIsPrefix(before, size);
      assert events[..LastSwap(before)] == before[..LastSwap(before)];
    }
  }

  lemma {:induction false} RunStep<Ref>(states: seq<State<Ref>>, events: seq<Event<Ref>>, n: nat)
    requires IsRun(states, events) && n < |events|
    ensures Next(states[n], events[n], states[n + 1])
    ensures states[n + 1].size == states[n].size
  {
  }

  lemma {:induction false} RunInv<Ref>(states: seq<State<Ref>>, events: seq<Event<Ref>>, n: nat)
    requires IsRun(states, events) && n <= |events|
    ensures Inv(states[n]) && states[n].size == states[0].size
  {
    if n == 0 {
      InitInv(states[0]);
    } else {
      RunInv(states, events, n - 1);
      RunStep(states, events, n - 1);
      NextKeepsInv(states[n - 1], events[n - 1], states[n]);
    }
  }

  /** The two logs a state carries are those of the events so far. */
  ghost predicate LogsAre<Ref>(s: State<Ref>, events: seq<Event<Ref>>, size: nat) {
    s.size == size && s.accepted == AcceptedOf(events, size) && s.swapped == |LoggedAtSwap(events, size)|
  }

  lemma {:induction false} LogStep<Ref>(s: State<Ref>, events: seq<Event<Ref>>, e: Event<Ref>, s': State<Ref>,
                                        size: nat)
    requires LogsAre(s, events, size) && Next(s, e, s')
    ensures LogsAre(s', events + [e], size)
  {
  }

  lemma {:induction false} RunLog<Ref>(states: seq<State<Ref>>, events: seq<Event<Ref>>, n: nat)
    requires IsRun(states, events) && n <= |events|
    ensures LogsAre(states[n], events[..n], states[0].size)
  {
    if n > 0 {
      RunLog(states, events, n - 1);
      RunStep(states, events, n - 1);
      LogStep(states[n - 1], events[..n - 1], events[n - 1], states[n], states[0].size);
      assert events[..n] == events[..n - 1] + [events[n - 1]];
    }
  }

  /** On every run, at every moment: the file, what the backend has still to write, the full buffers
      and the current one hold exactly the accepted lines, whole and in the order of their appends. */
  lemma {:induction false} NothingLost<Ref>(states: seq<State<Ref>>, events: seq<Event<Ref>>, n: nat)
    requires IsRun(states, events) && n <= |events|
    ensures var s := states[n];
      && Known(s) && s.written <= |s.toWrite|
      && s.file + Records(s.held, s.toWrite[s.written..]) + Records(s.held, s.buffers) + s.held[s.current]
         == AcceptedOf(events[..n], s.size)
  {
    RunInv(states, events, n);
    RunLog(states, events, n);
    Halves(states[n]);
  }

  lemma {:induction false} Halves<Ref>(s: State<Ref>)
    requires Known(s) && Conserved(s)
    ensures s.file + Records(s.held, s.toWrite[s.written..]) + Records(s.held, s.buffers) + s.held[s.current]
            == s.accepted
  {
  }

  lemma {:induction false} AcceptedSplit<Ref>(events: seq<Event<Ref>>, k: nat, size: nat)
    requires k <= |events|
    ensures AcceptedOf(events, size) == AcceptedOf(events[..k], size) + AcceptedOf(events[k..], size)
    decreases |events|
  {
    if k < |events| {
      var n := |events| - 1;
      AcceptedSplit(events[..n], k, size);
      assert events[..n][..k] == events[..k] && events[..n][k..] == events[k..][..n - k];
    } else {
      assert events[..k] == events;
    }
  }

  /** When the thread has ended the file is what was appended before its last swap, and what is
      missing from it is exactly what was appended after. */
  lemma {:induction false} AfterStop<Ref>(states: seq<State<Ref>>, events: seq<Event<Ref>>)
    requires IsRun(states, events) && states[|events|].place == Finished
    ensures var s, k := states[|events|], LastSwap(events);
      && s.file == AcceptedOf(events[..k], s.size)
      && Known(s) && Records(s.held, s.buffers) + s.held[s.current] == AcceptedOf(events[k..], s.size)
      && AcceptedOf(events, s.size) == s.file + AcceptedOf(events[k..], s.size)
  {
    var n := |events|;
    assert events[..n] == events;
    RunInv(states, events, n);
    RunLog(states, events, n);
    LoggedIsPrefix(events, states[n].size);
    var s, k := states[n], LastSwap(events);
    AcceptedSplit(events, k, s.size);
    assert s.toWrite[s.written..] == [];
    var before := AcceptedOf(events[..k], s.size);
    assert (before + AcceptedOf(events[k..], s.size))[..|before|] == before;
    assert s.file + [] == s.file;
  }

  /** One line, one stop, and the thread ends before it has swapped: the line is accepted and not written. */
  lemma {:induction false} StopLosesALine() returns (states: seq<State<nat>>, events: seq<Event<nat>>)
    ensures IsRun(states, events) && states[|events|].place == Finished
    ensures states[|events|].file == [] && AcceptedOf(events, states[0].size) == ["x"]
  {
    var held: map<nat, seq<Record>> := map[1 := [], 2 := [], 3 := [], 4 := []];
    var s0 := State.State(10, 1, Some(2), [], Some(3), Some(4), [], 0, NotStarted, false, held, [], [], 0);
    var s1 := StartStep(s0);
    var s2 := AppendStep(s1, "x", 5);
    var s3 := s2.(running := false);
    states := [s0, s1, s2, s3, TestStep(s3)];
    var first: seq<Event<nat>> := [Start];
    var both := first + [Append("x", 5)];
    events := both + [Stop] + [Test];
    assert s1.held[1] == [] && Fits(s1, "x");
    assert first[..0] == [] && both[..1] == first && (both + [Stop])[..2] == both && events[..3] == both + [Stop];
    assert AcceptedOf(first, 10) == [] && AcceptedOf(both, 10) == ["x"] && AcceptedOf(both + [Stop], 10) == ["x"];
  }

  /** A line goes behind the others of the current buffer if it leaves a character of it free; otherwise that buffer
      joins the full ones as it is, and the spare one, or a new one, is current with this line alone, or without it if
      it is too long for any buffer. */
  lemma {:induction false} AppendPlaces<Ref>(s: State<Ref>, line: Record, room: Ref)
    requires Inv(s) && (NeedsRoom(s, line) ==> room !in s.held)
    ensures |Flat(s.held[s.current])| + |line| < s.size ==>
              AppendStep(s, line, room) == s.(held := s.held[s.current := s.held[s.current] + [line]],
                                              accepted := s.accepted + [line])
    ensures |Flat(s.held[s.current])| + |line| >= s.size ==>
              var now := if s.next.Some? then s.next.value else room;
              now != s.current &&
              AppendStep(s, line, room) == s.(
                buffers := s.buffers + [s.current], current := now, next := None,
                held := s.held[now := if |line| < s.size then [line] else []],
                accepted := if |line| < s.size then s.accepted + [line] else s.accepted)
  {
    CurrentIsAlone(s);
    assert s.held[s.current := s.held[s.current]] == s.held;
    assert s.next.Some? ==> s.held[s.next.value := []] == s.held;
    assert [] + [line] == [line];
  }

  /** A line as long as a buffer is not accepted anywhere. */
  lemma {:induction false} LongLineIsDropped<Ref>(s: State<Ref>, line: Record, room: Ref)
    requires Inv(s) && (NeedsRoom(s, line) ==> room !in s.held)
    ensures AppendStep(s, line, room).accepted == s.accepted <==> |line| >= s.size
  {
  }
}
