/** What the server does with the bytes of one message. */
module HttpServers {
  import opened HttpContexts
  import opened HttpGrammar
  import opened HttpMessage
  import opened HttpText
  import opened Options
  import opened ParseWorkers

  class HttpServer {
    const worker: ParseWorker

    constructor ()
      ensures worker.Valid() && fresh(worker)
    {
      worker := new ParseWorker();
    }

    /** Nothing happens on a closed connection. Otherwise the message is refused, with a reply and a
        shutdown for that, exactly when it does not begin with a request line, and a request is handed on
        exactly when the message begins with a printed one; then it is that request. */
    method OnMessage(connected: bool, str: string)
      returns (sent: Option<string>, refused: bool, handed: Option<Parsed>)
      requires connected ==> |str| > 0
      modifies worker
      ensures !connected ==> sent == None && !refused && handed == None
      ensures connected ==> (refused <==> !BeginsWell(str))
      ensures sent == if refused then Some("HTTP/1.1 400 Bad Request\r\n\r\n") else None
      ensures handed.Some? <==>
              connected && exists m, closing, rest :: Printable(m, closing) && str == Printed(m, closing) + rest
      ensures forall m, closing, rest :: connected && Printable(m, closing) && str == Printed(m, closing) + rest ==>
                !refused && handed == Some(Whole(m, []).request)
    {
      sent, refused, handed := None, false, None;
      if !connected {
        return;
      }
      var context := new HttpContext();
      worker.SetStr(str);
      var ok := context.ParseRequest(worker);
      ghost var o := Outcome(ok, context.state, context.request.Value(), Lines(worker.Remaining()));
      if !ok {
        sent, refused := Some(BAD_REQUEST), true;
      }
      if context.state == GotAll {
        handed := Some(context.request.Value());
        context.Reset();
      }
      FreshAnswer(NOTHING, Lines(str));
      CompleteExactlyPrinted(str);
      forall m, closing, rest | Printable(m, closing) && str == Printed(m, closing) + rest
        ensures o.ok && o.state == GotAll && o.request == Whole(m, []).request
      {
        PrintedIsRead(m, closing, rest);
      }
    }
  }

  const BAD_REQUEST: string := "HTTP/1.1 400 Bad Request\r\n\r\n"

  /** The first line is there, and is a request line. */
  ghost predicate BeginsWell(str: string) {
    Lines(str) != [] && exists m, target, v :: IsRequestLine(Lines(str)[0], m, target, v)
  }
}
