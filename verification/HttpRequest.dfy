/** The request object that the parser fills in. */
module HttpRequests {
  import opened HttpGrammar
  import opened HttpText

  class HttpRequest {
    var verb: Method
    var version: Version
    var path: string
    var query: string
    var headers: map<string, string>

    function Value(): Parsed
      reads this
    {
      Parsed(verb, version, path, query, headers)
    }

    constructor ()
      ensures Value() == NOTHING
    {
      verb, version, path, query, headers := Invalid, Unknown, "", "", map[];
    }

    method SetVersion(v: Version)
      modifies this
      ensures Value() == old(Value()).(version := v)
    {
      version := v;
    }

    /** An unknown name leaves the request without a method. */
    method SetMethod(m: string) returns (known: bool)
      modifies this
      ensures known <==> MethodOf(m) != Invalid
      ensures Value() == old(Value()).(verb := MethodOf(m))
    {
      if m == "GET" {
        verb := Get;
      } else if m == "POST" {
        verb := Post;
      } else if m == "HEAD" {
        verb := Head;
      } else if m == "PUT" {
        verb := Put;
      } else if m == "DELETE" {
        verb := Delete;
      } else {
        verb := Invalid;
      }
      return verb != Invalid;
    }

    /** The name of the method, from which SetMethod sets it again. */
    function MethodString(): (s: string)
      reads this
      ensures MethodOf(s) == verb
      ensures verb == Get <==> s == "GET"
      ensures verb == Post <==> s == "POST"
      ensures verb == Head <==> s == "HEAD"
      ensures verb == Put <==> s == "PUT"
      ensures verb == Delete <==> s == "DELETE"
      ensures verb == Invalid <==> s == "UNKNOWN"
    {
      NameIsRead(verb);
      match verb
      case Get => "GET"
      case Post => "POST"
      case Head => "HEAD"
      case Put => "PUT"
      case Delete => "DELETE"
      case Invalid => "UNKNOWN"
    }

    method SetPath(s: string)
      modifies this
      ensures Value() == old(Value()).(path := s)
    {
      path := s;
    }

    method SetQuery(s: string)
      modifies this
      ensures Value() == old(Value()).(query := s)
    {
      query := s;
    }

    /** The name is taken as it is, the value without the white space around it. */
    method AddHeader(line: string, colon: nat)
      requires colon < |line|
      modifies this
      ensures Value() == old(Value()).(headers := old(headers)[line[..colon] := Trim(line[colon + 1..])])
      ensures forall pre, v, post {:trigger Padded(line[colon + 1..], pre, v, post)} ::
                Padded(line[colon + 1..], pre, v, post) ==> headers == old(headers)[line[..colon] := v]
    {
      var field := line[..colon];
      var i := colon + 1;
      while i < |line| && IsSpace(line[i])
        invariant colon < i <= |line|
        invariant TrimLeft(line[i..]) == TrimLeft(line[colon + 1..])
      {
        assert line[i..][0] == line[i] && line[i..][1..] == line[i + 1..];
        i := i + 1;
      }
      assert i < |line| ==> line[i..][0] == line[i];
      var value := line[i..];
      assert value == TrimLeft(line[colon + 1..]);
      while value != "" && IsSpace(value[|value| - 1])
        invariant TrimRight(value) == Trim(line[colon + 1..])
        decreases |value|
      {
        value := value[..|value| - 1];
      }
      headers := headers[field := value];
      forall pre, v, post {:trigger Padded(line[colon + 1..], pre, v, post)} | Padded(line[colon + 1..], pre, v, post)
        ensures value == v
      {
        PaddingIsTrimmed(line[colon + 1..], pre, v, post);
      }
    }

    /** The value of a header, empty when it was not sent. */
    function GetHeader(field: string): (value: string)
      reads this
      ensures field in headers ==> value == headers[field]
      ensures field !in headers ==> value == ""
    {
      if field in headers then headers[field] else ""
    }

    method Swap(rhs: HttpRequest)
      modifies this, rhs
      ensures Value() == old(rhs.Value()) && rhs.Value() == old(Value())
    {
      verb, rhs.verb := rhs.verb, verb;
      version, rhs.version := rhs.version, version;
      path, rhs.path := rhs.path, path;
      query, rhs.query := rhs.query, query;
      headers, rhs.headers := rhs.headers, headers;
    }
  }
}
