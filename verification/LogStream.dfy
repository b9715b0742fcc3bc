/** The text stream a log line is composed in. */
module LogStreams {
  import opened Decimals
  import opened FixedBuffers
  import opened Options

  const SMALL_BUFFER: nat := 4000
  const MAX_NUMERIC_SIZE: nat := 32

  /** What is put into the stream with <<; None is the null pointer. */
  datatype Item =
    | Integer(v: int)
    | Boolean(b: bool)
    | Character(c: char)
    | CString(p: Option<string>)
    | Text(s: string)

  predicate Proper(item: Item) {
    match item
    case Integer(v) => IsInt64(v)
    case Boolean(_) => true
    case Character(_) => true
    case CString(p) => p.Some? ==> |p.value| < INT_LIMIT
    case Text(s) => |s| < INT_LIMIT
  }

  function Fragment(item: Item): string {
    match item
    case Integer(v) => Decimal(v)
    case Boolean(b) => if b then "1" else "0"
    case Character(c) => [c]
    case CString(p) => if p.Some? then p.value else "(null)"
    case Text(s) => s
  }

  /** What an item looks like in a line, said of the text: a number is the canonical decimal text that reads as it. */
  predicate Shows(item: Item, text: string) {
    match item
    case Integer(v) => Canonical(text) && ReadInt(text) == v
    case Boolean(b) => text == if b then "1" else "0"
    case Character(c) => text == [c]
    case CString(p) => text == if p.None? then "(null)" else p.value
    case Text(s) => text == s
  }

  lemma {:induction false} ShowsIsFragment(item: Item, text: string)
    ensures Shows(item, text) <==> text == Fragment(item)
  {
    if item.Integer? {
      ReadDecimal(item.v);
      if Canonical(text) {
        DecimalRead(text);
      }
    }
  }

  /** Numbers ask for a fixed reserve, everything else for one character more than it has. */
  function Room(item: Item): nat {
    if item.Integer? then MAX_NUMERIC_SIZE else |Fragment(item)| + 1
  }

  function Put(contents: string, item: Item, size: nat): string {
    if size - |contents| >= Room(item) then contents + Fragment(item) else contents
  }

  function PutAll(contents: string, items: seq<Item>, size: nat): string
    decreases items
  {
    if items == [] then contents else PutAll(Put(contents, items[0], size), items[1..], size)
  }

  lemma {:induction false} HoldsBehind(buf: array<char>, was: string, s: string)
    requires Holds(buf, |was|, s) && buf[..|was|] == was
    ensures buf[..|was| + |s|] == was + s
  {
  }

  class LogStream {
    const buffer: FixedBuffer

    ghost predicate Valid()
      reads this, buffer
    {
      buffer.Valid()
    }

    ghost function Contents(): string
      requires Valid()
      reads this, buffer, buffer.data
    {
      buffer.Contents()
    }

    constructor ()
      ensures Valid() && fresh(buffer) && fresh(buffer.data)
      ensures buffer.data.Length == SMALL_BUFFER && Contents() == ""
    {
      buffer := new FixedBuffer(SMALL_BUFFER);
    }

    /** Converts into the buffer itself, behind the cursor; a value without the full reserve is dropped. */
    method FormatInteger(v: int)
      requires Valid() && IsInt64(v)
      modifies buffer, buffer.data
      ensures Valid() && Contents() == Put(old(Contents()), Integer(v), buffer.data.Length)
    {
      var avail := buffer.Avail();
      if avail >= MAX_NUMERIC_SIZE {
        DecimalFits(v);
        ghost var was := buffer.Contents();
        var len := Convert(buffer.data, buffer.cur, v);
        HoldsBehind(buffer.data, was, Decimal(v));
        buffer.Add(len);
      }
    }

    /** One operator <<, chosen by the type of what is put. */
    method Output(item: Item)
      requires Valid() && Proper(item)
      modifies buffer, buffer.data
      ensures Valid() && Contents() == Put(old(Contents()), item, buffer.data.Length)
      ensures old(Contents()) <= Contents()
      ensures item.Integer? ==>
                if buffer.data.Length - |old(Contents())| >= 32
                then Canonical(Contents()[|old(Contents())|..]) && ReadInt(Contents()[|old(Contents())|..]) == item.v
                else Contents() == old(Contents())
      ensures !item.Integer? ==>
                var text := match item
                  case Text(s) => s
                  case CString(Some(s)) => s
                  case CString(None) => "(null)"
                  case Character(c) => [c]
                  case Boolean(b) => if b then "1" else "0"
                  case Integer(_) => "";
                Contents() == if |old(Contents())| + |text| < buffer.data.Length then old(Contents()) + text
                              else old(Contents())
    {
      if item.Integer? {
        ReadDecimal(item.v);
      }
      match item {
        case Integer(v) => FormatInteger(v);
        case Boolean(b) => buffer.Append(if b then "1" else "0");
        case Character(c) => buffer.Append([c]);
        case CString(p) => buffer.Append(if p.Some? then p.value else "(null)");
        case Text(s) => buffer.Append(s);
      }
    }

    /** A chain of << on one line. */
    method OutputAll(items: seq<Item>)
      requires Valid() && forall i :: 0 <= i < |items| ==> Proper(items[i])
      modifies buffer, buffer.data
      ensures Valid() && Contents() == PutAll(old(Contents()), items, buffer.data.Length)
      ensures forall parts {:trigger ShowsAll(items, parts)} ::
                (ShowsAll(items, parts) && |old(Contents())| + |Concat(parts)| + 32 <= buffer.data.Length) ==>
                  Contents() == old(Contents()) + Concat(parts)
    {
      for i := 0 to |items|
        invariant Valid()
        invariant PutAll(Contents(), items[i..], buffer.data.Length)
               == PutAll(old(Contents()), items, buffer.data.Length)
      {
        assert items[i..][1..] == items[i + 1..];
        Output(items[i]);
      }
      forall parts {:trigger ShowsAll(items, parts)} | ShowsAll(items, parts)
        && |old(Contents())| + |Concat(parts)| + 32 <= buffer.data.Length
        ensures Contents() == old(Contents()) + Concat(parts)
      {
        NothingDropped(old(Contents()), items, parts, buffer.data.Length);
      }
    }

    method ResetBuffer()
      requires Valid()
      modifies buffer
      ensures Valid() && Contents() == ""
    {
      buffer.Reset();
    }
  }

  // ----- what a chain leaves in the buffer -----

  ghost predicate AllProper(items: seq<Item>) {
    forall i :: 0 <= i < |items| ==> Proper(items[i])
  }

  /** The items for which there was room when their turn came. */
  function Accepted(contents: string, items: seq<Item>, size: nat): seq<Item>
    decreases items
  {
    if items == [] then []
    else
      var rest := Accepted(Put(contents, items[0], size), items[1..], size);
      if size - |contents| >= Room(items[0]) then [items[0]] + rest else rest
  }

  function Concat(parts: seq<string>): string {
    if parts == [] then "" else parts[0] + Concat(parts[1..])
  }

  /** The parts are what the items look like, one by one. */
  ghost predicate ShowsAll(items: seq<Item>, parts: seq<string>) {
    |parts| == |items| && forall i {:trigger parts[i]} :: 0 <= i < |items| ==> Shows(items[i], parts[i])
  }

  /** Whatever parts show the items, together they are the same text. */
  lemma {:induction false} PartsAreJoined(items: seq<Item>, parts: seq<string>)
    requires ShowsAll(items, parts)
    ensures Concat(parts) == Joined(items)
  {
    if items != [] {
      assert Shows(items[0], parts[0]);
      ShowsIsFragment(items[0], parts[0]);
      assert forall i {:trigger parts[1..][i]} :: 0 <= i < |items[1..]| ==> parts[1..][i] == parts[i + 1];
      PartsAreJoined(items[1..], parts[1..]);
    }
  }

  function Joined(items: seq<Item>): string {
    if items == [] then "" else Fragment(items[0]) + Joined(items[1..])
  }

  /** What an item takes is less than what it asks for. */
  lemma {:induction false} FragmentFits(item: Item)
    requires Proper(item)
    ensures |Fragment(item)| < Room(item)
  {
    if item.Integer? {
      DecimalFits(item.v);
    }
  }

  /** The buffer is its old contents and then the accepted items whole and in order; it never fills up. */
  lemma {:induction false} BufferIsAcceptedItems(contents: string, items: seq<Item>, size: nat)
    requires |contents| < size && AllProper(items)
    ensures |PutAll(contents, items, size)| < size
    ensures forall parts :: ShowsAll(Accepted(contents, items, size), parts) ==>
              PutAll(contents, items, size) == contents + Concat(parts)
  {
    AcceptedAreJoined(contents, items, size);
    forall parts | ShowsAll(Accepted(contents, items, size), parts)
      ensures Concat(parts) == Joined(Accepted(contents, items, size))
    {
      PartsAreJoined(Accepted(contents, items, size), parts);
    }
  }

  lemma {:induction false} AcceptedAreJoined(contents: string, items: seq<Item>, size: nat)
    requires |contents| < size && AllProper(items)
    ensures PutAll(contents, items, size) == contents + Joined(Accepted(contents, items, size))
    ensures |PutAll(contents, items, size)| < size
    decreases items
  {
    if items == [] {
      assert contents + "" == contents;
    } else {
      FragmentFits(items[0]);
      var contents' := Put(contents, items[0], size);
      AcceptedAreJoined(contents', items[1..], size);
      var rest := Accepted(contents', items[1..], size);
      assert ([items[0]] + rest)[1..] == rest;
      assert (contents + Fragment(items[0])) + Joined(rest) == contents + (Fragment(items[0]) + Joined(rest));
    }
  }

  lemma {:induction false} AllAccepted(contents: string, items: seq<Item>, size: nat)
    requires |contents| + |Joined(items)| + MAX_NUMERIC_SIZE <= size
    ensures Accepted(contents, items, size) == items
    ensures PutAll(contents, items, size) == contents + Joined(items)
    decreases items
  {
    if items == [] {
      assert contents + "" == contents;
    } else {
      AllAccepted(contents + Fragment(items[0]), items[1..], size);
      assert (contents + Fragment(items[0])) + Joined(items[1..])
          == contents + (Fragment(items[0]) + Joined(items[1..]));
    }
  }

  /** Nothing is dropped from a line that leaves 32 characters free: it is what the items look like, in order. */
  lemma {:induction false} NothingDropped(contents: string, items: seq<Item>, parts: seq<string>, size: nat)
    requires ShowsAll(items, parts) && |contents| + |Concat(parts)| + 32 <= size
    ensures Accepted(contents, items, size) == items
    ensures PutAll(contents, items, size) == contents + Concat(parts)
  {
    PartsAreJoined(items, parts);
    AllAccepted(contents, items, size);
  }

  /** One item of every kind on one line. */
  lemma {:induction false} LineOfFive()
    ensures ShowsAll([Text("x"), Integer(-120), Boolean(true), Character('c'), CString(None)],
                     ["x", "-120", "1", "c", "(null)"])
    ensures PutAll("", [Text("x"), Integer(-120), Boolean(true), Character('c'), CString(None)], 4000)
            == "x-1201c(null)"
  {
    var items := [Text("x"), Integer(-120), Boolean(true), Character('c'), CString(None)];
    var parts := ["x", "-120", "1", "c", "(null)"];
    MinusOneTwenty();
    assert Concat(parts[5..]) == "";
    assert parts[4..][1..] == parts[5..] && Concat(parts[4..]) == "(null)";
    assert parts[3..][1..] == parts[4..] && Concat(parts[3..]) == "c(null)";
    assert parts[2..][1..] == parts[3..] && Concat(parts[2..]) == "1c(null)";
    assert parts[1..][1..] == parts[2..] && Concat(parts[1..]) == "-1201c(null)";
    assert Concat(parts) == "x-1201c(null)";
    NothingDropped("", items, parts, 4000);
  }

  /** A dropped item might as well not have been put: what comes later is treated the same. A number is dropped when
      fewer than 32 characters are free, anything else when it would leave none of them free. */
  lemma {:induction false} DroppedItemIsSkipped(contents: string, before: seq<Item>, item: Item, text: string,
                                                after: seq<Item>, size: nat)
    requires Shows(item, text)
    requires size - |PutAll(contents, before, size)| < if item.Integer? then 32 else |text| + 1
    ensures PutAll(contents, before + ([item] + after), size) == PutAll(contents, before + after, size)
    decreases before
  {
    if before == [] {
      ShowsIsFragment(item, text);
      assert [] + ([item] + after) == [item] + after && ([item] + after)[1..] == after && [] + after == after;
    } else {
      DroppedItemIsSkipped(Put(contents, before[0], size), before[1..], item, text, after, size);
      assert (before + ([item] + after))[1..] == before[1..] + ([item] + after);
      assert (before + after)[1..] == before[1..] + after;
    }
  }
}
