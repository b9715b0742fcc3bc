/** The buffer a request is parsed from: bytes, and a cursor that moves over complete lines. */
module ParseWorkers {
  import opened HttpText
  import opened Options

  lemma {:induction false} LineOff(s: string, line: string, rest: string)
    requires s == line + CRLF + rest && CrlfFree(line)
    ensures Lines(s) == [line] + Lines(rest) && Partial(s) == Partial(rest)
  {
    OneMoreLine(line, rest);
  }

  class ParseWorker {
    var context: string
    var readerIndex: nat
    var size: nat

    ghost predicate Valid()
      reads this
    {
      readerIndex <= size <= |context|
    }

    /** What has not been consumed. */
    ghost function Remaining(): string
      requires Valid()
      reads this
    {
      context[readerIndex..size]
    }

    constructor ()
      ensures Valid() && Remaining() == ""
    {
      size, context, readerIndex := 0, "", 0;
    }

    method SetStr(str: string)
      modifies this
      ensures Valid() && Remaining() == str && |context| == |str|
    {
      size := |str|;
      readerIndex := 0;
      context := str;
    }

    /** Where the next CR LF is. The buffer must hold a byte for the cursor to point at. */
    function FindCRLF(): (crlf: Option<nat>)
      requires Valid() && |context| > 0
      reads this
      ensures crlf.None? ==> Lines(Remaining()) == [] && Partial(Remaining()) == Remaining()
      ensures crlf.Some? ==> readerIndex <= crlf.value && crlf.value + 2 <= size
      ensures crlf.Some? ==> CrlfFree(Peek(crlf.value))
      ensures crlf.Some? ==> Remaining() == Peek(crlf.value) + CRLF + context[crlf.value + 2..size]
    {
      var rest := context[readerIndex..size];
      var i := FindCrlf(rest);
      if i == |rest| then None
      else
        FirstLine(rest);
        assert rest[..i] == context[readerIndex..readerIndex + i];
        assert rest[i + 2..] == context[readerIndex + i + 2..size];
        Some(readerIndex + i)
    }

    function Peek(crlf: nat): string
      requires Valid() && readerIndex <= crlf <= size
      reads this
    {
      context[readerIndex..crlf]
    }

    /** Consuming everything empties the buffer, its bytes stay behind. */
    method RetrieveUntil(end: nat)
      requires Valid() && readerIndex <= end <= size
      modifies this`readerIndex, this`size
      ensures Valid() && Remaining() == old(context[end..size])
    {
      var len := end - readerIndex;
      if end < size {
        readerIndex := readerIndex + len;
      } else {
        size := 0;
        readerIndex := 0;
      }
    }

    lemma {:induction false} HasLine(crlf: nat)
      requires Valid() && |context| > 0 && FindCRLF() == Some(crlf)
      ensures Lines(Remaining()) == [Peek(crlf)] + Lines(context[crlf + 2..size])
      ensures Partial(Remaining()) == Partial(context[crlf + 2..size])
    {
      LineOff(Remaining(), Peek(crlf), context[crlf + 2..size]);
    }

    /** Taking the next line off the buffer takes the first of its lines. */
    method TakeLine(crlf: nat)
      requires Valid() && |context| > 0 && FindCRLF() == Some(crlf)
      modifies this`readerIndex, this`size
      ensures Valid()
      ensures old(Lines(Remaining())) == [old(Peek(crlf))] + Lines(Remaining())
      ensures old(Partial(Remaining())) == Partial(Remaining())
    {
      HasLine(crlf);
      RetrieveUntil(crlf + 2);
    }
  }
}
