/** The parser of requests, and what the server does with its answer. */
module HttpContexts {
  import opened HttpGrammar
  import opened HttpRequests
  import opened HttpText
  import opened ParseWorkers
  import opened Text

  class HttpContext {
    var state: State
    const request: HttpRequest

    constructor ()
      ensures state == ExpectRequestLine && request.Value() == NOTHING && fresh(request)
    {
      state := ExpectRequestLine;
      request := new HttpRequest();
    }

    /** The target, with a query only if it has a question mark. */
    method SetTarget(target: string)
      modifies request
      ensures request.Value() == WithTarget(old(request.Value()), target)
    {
      var question := Find(target, '?');
      FindInside(target, '?');
      if question != |target| {
        request.SetPath(target[..question]);
        request.SetQuery(target[question..]);
      } else {
        request.SetPath(target);
      }
    }

    method SetVersionText(version: string) returns (succeed: bool)
      modifies request
      ensures succeed <==> VersionOf(version) != Unknown
      ensures request.Value() ==
              if succeed then old(request.Value()).(version := VersionOf(version)) else old(request.Value())
    {
      VersionsOnly(version);
      succeed := |version| == 8 && version[..7] == "HTTP/1.";
      if succeed {
        if version[7] == '1' {
          request.SetVersion(Http11);
        } else if version[7] == '0' {
          request.SetVersion(Http10);
        } else {
          succeed := false;
        }
      }
    }

    /** Accepts a request line exactly when it is one, and keeps what it read of another. */
    method ProcessRequestLine(line: string) returns (succeed: bool)
      modifies request
      ensures (succeed, request.Value()) == AfterRequestLine(old(request.Value()), line)
    {
      succeed := false;
      var space := Find(line, ' ');
      if space != |line| {
        var known := request.SetMethod(line[..space]);
        if known {
          var tail := line[space + 1..];
          space := Find(tail, ' ');
          if space != |tail| {
            SetTarget(tail[..space]);
            succeed := SetVersionText(tail[space + 1..]);
          }
        }
      }
    }

    /** The branch of the loop for a complete header line. */
    method ProcessHeader(line: string) returns (hasMore: bool)
      modifies this`state, request
      ensures hasMore <==> ':' in line
      ensures hasMore ==> request.Value() == WithHeader(old(request.Value()), line) && state == ExpectHeaders
      ensures !hasMore ==> request.Value() == old(request.Value()) && state == GotAll
    {
      state := ExpectHeaders;
      var colon := Find(line, ':');
      FindInside(line, ':');
      hasMore := colon != |line|;
      if hasMore {
        request.AddHeader(line, colon);
      } else {
        state := GotAll;
      }
    }

    /** The branch of the loop for the request line, which goes on only after a good one. */
    method RequestLineStep(worker: ParseWorker) returns (ok: bool)
      requires worker.Valid() && |worker.context| > 0 && state == ExpectRequestLine
      modifies this`state, request, worker`readerIndex, worker`size
      ensures worker.Valid() && Partial(worker.Remaining()) == Partial(old(worker.Remaining()))
      ensures var lines := Lines(worker.Remaining());
              Read(ExpectRequestLine, old(request.Value()), old(Lines(worker.Remaining()))) ==
              if ok then ReadHeaders(true, request.Value(), lines) else Outcome(false, state, request.Value(), lines)
      ensures ok ==> state == ExpectHeaders
    {
      ok := false;
      var crlf := worker.FindCRLF();
      if crlf.Some? {
        ok := ProcessRequestLine(worker.Peek(crlf.value));
        if ok {
          worker.TakeLine(crlf.value);
          state := ExpectHeaders;
        } else {
          worker.HasLine(crlf.value);
        }
      }
    }

    /** The branch of the loop for a header line, which goes on unless it is the last one. In the
        source the state is assigned where it looks compared, so this branch serves every other state. */
    method HeaderStep(worker: ParseWorker, ok: bool) returns (hasMore: bool)
      requires worker.Valid() && |worker.context| > 0
      modifies this`state, request, worker`readerIndex, worker`size
      ensures worker.Valid() && Partial(worker.Remaining()) == Partial(old(worker.Remaining()))
      ensures var lines := Lines(worker.Remaining());
              ReadHeaders(ok, old(request.Value()), old(Lines(worker.Remaining()))) ==
              if hasMore then ReadHeaders(ok, request.Value(), lines) else Outcome(ok, state, request.Value(), lines)
      ensures hasMore ==> state == ExpectHeaders && |Lines(worker.Remaining())| < |old(Lines(worker.Remaining()))|
    {
      state := ExpectHeaders;
      hasMore := false;
      var crlf := worker.FindCRLF();
      if crlf.Some? {
        hasMore := ProcessHeader(worker.Peek(crlf.value));
        worker.TakeLine(crlf.value);
      }
    }

    /** One call of the parser: it reads exactly the complete lines of the buffer that it should,
        and leaves the others and the incomplete one in it. */
    method ParseRequest(worker: ParseWorker) returns (ok: bool)
      requires worker.Valid() && |worker.context| > 0
      modifies this`state, request, worker`readerIndex, worker`size
      ensures worker.Valid()
      ensures Outcome(ok, state, request.Value(), Lines(worker.Remaining()))
           == Read(old(state), old(request.Value()), old(Lines(worker.Remaining())))
      ensures Partial(worker.Remaining()) == Partial(old(worker.Remaining()))
    {
      ok := false;
      var hasMore := true;
      ghost var all := Read(state, request.Value(), Lines(worker.Remaining()));
      while hasMore
        invariant worker.Valid() && Partial(worker.Remaining()) == Partial(old(worker.Remaining()))
        invariant hasMore && state == ExpectRequestLine ==>
                    !ok && all == Read(state, request.Value(), Lines(worker.Remaining()))
        invariant hasMore && state != ExpectRequestLine ==>
                    all == ReadHeaders(ok, request.Value(), Lines(worker.Remaining()))
        invariant !hasMore ==> all == Outcome(ok, state, request.Value(), Lines(worker.Remaining()))
        decreases hasMore, state == ExpectRequestLine, |Lines(worker.Remaining())|
      {
        if state == ExpectRequestLine {
          ok := RequestLineStep(worker);
          hasMore := ok;
        } else {
          hasMore := HeaderStep(worker, ok);
        }
      }
    }

    method Reset()
      modifies this, request
      ensures state == ExpectRequestLine && request.Value() == NOTHING
    {
      state := ExpectRequestLine;
      var dummy := new HttpRequest();
      request.Swap(dummy);
    }
  }

  lemma {:induction false} VersionsOnly(s: string)
    ensures VersionOf(s) == if |s| == 8 && s[..7] == "HTTP/1." && s[7] == '1' then Http11
                            else if |s| == 8 && s[..7] == "HTTP/1." && s[7] == '0' then Http10 else Unknown
  {
  }
}
