/**
 * The dispatcher of src/common/maelstrom.cpp, the path the program runs.
 *
 * The static members of maelstrom::Message (the handler map keyed by type
 * string and the shared counter naive_message_id) are the fields of one
 * Dispatcher object; what is written to standard output is the field
 * `written`. A thrown exception and std::abort both end the process: the
 * methods report that as `aborted`, and nothing runs after it.
 *
 * A handler is a std::function; the program registers two, the init handler
 * of run_node and the echo handler of main, and the Callback datatype names
 * them.
 */
module Maelstrom {
  import opened Wrappers
  import Json

  /** json::parse of a line: the tree, or nothing when the text is not JSON (parse then throws). */
  type Parser = string -> Option<Json.Value>

  /** A maelstrom::Message: the members its constructor fills. */
  datatype Request = Request(source: string, destination: string, payload: Json.Value)

  /** The two std::function handlers the program registers. */
  datatype Callback = InitCallback | EchoCallback

  /**
   * The constructor: json::parse must succeed, and src and dest, read with
   * the assigning operator[] and converted to std::string, must be strings of
   * an object. The payload is data["body"], null when it is absent.
   */
  function ParseRequest(tree: Option<Json.Value>): (r: Option<Request>)
    ensures r.Some? <==> tree.Some? && Json.HasString(tree.value, "src") && Json.HasString(tree.value, "dest")
    ensures r.Some? ==> && r.value.source == tree.value.fields["src"].s
                        && r.value.destination == tree.value.fields["dest"].s
                        && r.value.payload == Json.Index(tree.value, "body")
  {
    if tree.Some? && Json.HasString(tree.value, "src") && Json.HasString(tree.value, "dest") then
      var data := tree.value;
      Some(Request(data.fields["src"].s, data.fields["dest"].s, Json.Index(data, "body")))
    else None
  }

  /**
   * The key message_dispatch looks up: payload["type"] converted to a string.
   * The conversion throws unless the payload is an object holding a string
   * type.
   */
  function RouteKey(payload: Json.Value): (k: Option<string>)
    ensures k.Some? <==> Json.HasString(payload, "type")
    ensures k.Some? ==> k.value == payload.fields["type"].s
  {
    if Json.HasString(payload, "type") then Some(payload.fields["type"].s) else None
  }

  /** A response body that carries the message id n. */
  predicate Numbered(body: Json.Value, n: int) {
    body.Obj? && "msg_id" in body.fields && body.fields["msg_id"] == Json.Int(n)
  }

  /** A written line whose body carries the message id n. */
  predicate Answered(line: Json.Value, n: int) {
    line.Obj? && "body" in line.fields && Numbered(line.fields["body"], n)
  }

  /**
   * The body the init handler returns: type init_ok, the counter as msg_id,
   * and the request's msg_id (null when it has none) as in_reply_to.
   */
  function InitReply(payload: Json.Value, counter: int): (body: Json.Value)
    requires payload.Obj?
    ensures body.Obj? && body.fields.Keys == {"type", "msg_id", "in_reply_to"}
    ensures body.fields["type"] == Json.Str("init_ok")
    ensures Numbered(body, counter)
    ensures body.fields["in_reply_to"] == Json.Index(payload, "msg_id")
  {
    Json.Obj(map["type" := Json.Str("init_ok"), "msg_id" := Json.Int(counter),
                 "in_reply_to" := Json.Index(payload, "msg_id")])
  }

  /**
   * The body main's echo handler returns: type echo_ok, the counter as
   * msg_id, the request's msg_id as in_reply_to and its echo as echo (each
   * null when absent).
   */
  function EchoReply(payload: Json.Value, counter: int): (body: Json.Value)
    requires payload.Obj?
    ensures body.Obj? && body.fields.Keys == {"type", "msg_id", "in_reply_to", "echo"}
    ensures body.fields["type"] == Json.Str("echo_ok")
    ensures Numbered(body, counter)
    ensures body.fields["in_reply_to"] == Json.Index(payload, "msg_id")
    ensures body.fields["echo"] == Json.Index(payload, "echo")
  {
    Json.Obj(map["type" := Json.Str("echo_ok"), "msg_id" := Json.Int(counter),
                 "in_reply_to" := Json.Index(payload, "msg_id"), "echo" := Json.Index(payload, "echo")])
  }

  /** What a callback returns; both take the counter's value and add one to it. */
  function Reply(fn: Callback, payload: Json.Value, counter: int): (body: Json.Value)
    requires payload.Obj?
    ensures Numbered(body, counter)
  {
    match fn
    case InitCallback => InitReply(payload, counter)
    case EchoCallback => EchoReply(payload, counter)
  }

  /** The line message_dispatch writes: src and dest swapped, and the handler's body. */
  function Response(req: Request, body: Json.Value): (j: Json.Value)
    ensures j.Obj? && j.fields.Keys == {"src", "dest", "body"}
    ensures j.fields["src"] == Json.Str(req.destination)
    ensures j.fields["dest"] == Json.Str(req.source)
    ensures j.fields["body"] == body
  {
    Json.Obj(map["src" := Json.Str(req.destination), "dest" := Json.Str(req.source), "body" := body])
  }

  /** A line handled: the response written and the counter after it. */
  datatype Dispatch = Dispatch(response: Json.Value, counter: int)

  /**
   * What message_dispatch does with a line: None when the process ends (the
   * line is not a message, its payload has no string type, or no handler is
   * registered for it).
   */
  function Dispatched(raw: string, parse: Parser, handlers: map<string, Callback>, counter: int): (d: Option<Dispatch>)
    ensures d.Some? <==> && ParseRequest(parse(raw)).Some?
                         && RouteKey(ParseRequest(parse(raw)).value.payload).Some?
                         && RouteKey(ParseRequest(parse(raw)).value.payload).value in handlers
    ensures d.Some? ==> var req := ParseRequest(parse(raw)).value;
                        && d.value.counter == counter + 1
                        && d.value.response == Response(req, Reply(handlers[RouteKey(req.payload).value], req.payload, counter))
    ensures d.Some? ==> d.value.counter == counter + 1 && Answered(d.value.response, counter)
  {
    match ParseRequest(parse(raw))
    case None => None
    case Some(req) =>
      match RouteKey(req.payload)
      case None => None
      case Some(key) =>
        if key in handlers then
          Some(Dispatch(Response(req, Reply(handlers[key], req.payload, counter)), counter + 1))
        else None
  }

  /** What run_node's loop leaves: the lines written, the counter, and whether the process ended early. */
  datatype Run = Run(written: seq<Json.Value>, counter: int, aborted: bool)

  /**
   * The loop of run_node over its input: lines are dispatched until the first
   * empty one (or the end of input) or until one ends the process. Each
   * response carries the next value of the counter.
   */
  function Served(lines: seq<string>, parse: Parser, handlers: map<string, Callback>, counter: int): (r: Run)
    ensures r.counter == counter + |r.written|
    decreases |lines|
  {
    if lines == [] || lines[0] == "" then Run([], counter, false)
    else
      match Dispatched(lines[0], parse, handlers, counter)
      case None => Run([], counter, true)
      case Some(d) =>
        var rest := Served(lines[1..], parse, handlers, d.counter);
        Run([d.response] + rest.written, rest.counter, rest.aborted)
  }

  /** The k-th line written carries the counter's value plus k as its message id. */
  lemma {:induction false} ServedNumberedAt(lines: seq<string>, parse: Parser, handlers: map<string, Callback>, counter: int, k: nat)
    requires k < |Served(lines, parse, handlers, counter).written|
    ensures Answered(Served(lines, parse, handlers, counter).written[k], counter + k)
    decreases |lines|
  {
    var d := Dispatched(lines[0], parse, handlers, counter);
    if k > 0 {
      ServedNumberedAt(lines[1..], parse, handlers, d.value.counter, k - 1);
    }
  }

  /** Every line written carries its own message id: the ids count up from the counter. */
  lemma ServedNumbered(lines: seq<string>, parse: Parser, handlers: map<string, Callback>, counter: int)
    ensures var r := Served(lines, parse, handlers, counter);
            forall k | 0 <= k < |r.written| :: Answered(r.written[k], counter + k)
  {
    var r := Served(lines, parse, handlers, counter);
    forall k | 0 <= k < |r.written|
      ensures Answered(r.written[k], counter + k)
    {
      ServedNumberedAt(lines, parse, handlers, counter, k);
    }
  }

  /** Serving from line i on, once line i is handled, is serving from line i + 1 on. */
  lemma ServedStep(lines: seq<string>, i: nat, parse: Parser, handlers: map<string, Callback>, counter: int)
    requires i < |lines| && lines[i] != ""
    ensures var d := Dispatched(lines[i], parse, handlers, counter);
            var r := Served(lines[i..], parse, handlers, counter);
            && (d.None? ==> r == Run([], counter, true))
            && (d.Some? ==> var rest := Served(lines[i + 1..], parse, handlers, d.value.counter);
                            r == Run([d.value.response] + rest.written, rest.counter, rest.aborted))
  {
    assert lines[i..][0] == lines[i];
    assert lines[i..][1..] == lines[i + 1..];
  }

  /** Writing one line and then the rest is writing the line followed by the rest. */
  lemma Regroup(written: seq<Json.Value>, line: Json.Value, rest: seq<Json.Value>)
    ensures written + ([line] + rest) == (written + [line]) + rest
  {}

  class Dispatcher {
    var handlerMap: map<string, Callback>
    var naiveMessageId: int
    /** The lines written to standard output, in order. */
    var written: seq<Json.Value>

    /** The static members before main runs: no handler, the counter at 0. */
    constructor ()
      ensures handlerMap == map[] && naiveMessageId == 0 && written == []
    {
      handlerMap := map[];
      naiveMessageId := 0;
      written := [];
    }

    /** add_handler: a type string registered twice aborts; otherwise it gains exactly that entry. */
    method AddHandler(key: string, fn: Callback) returns (aborted: bool)
      modifies this
      ensures aborted <==> key in old(handlerMap)
      ensures aborted ==> handlerMap == old(handlerMap)
      ensures !aborted ==> handlerMap == old(handlerMap)[key := fn]
      ensures naiveMessageId == old(naiveMessageId) && written == old(written)
    {
      if key in handlerMap {
        return true;
      }
      handlerMap := handlerMap[key := fn];
      aborted := false;
    }

    /** The init handler of run_node: it post-increments the shared counter. */
    method InitHandler(msg: Request) returns (response: Json.Value)
      requires msg.payload.Obj?
      modifies this
      ensures response == InitReply(msg.payload, old(naiveMessageId))
      ensures naiveMessageId == old(naiveMessageId) + 1
      ensures handlerMap == old(handlerMap) && written == old(written)
    {
      response := Json.Null;
      response := Json.Set(response, "type", Json.Str("init_ok"));
      response := Json.Set(response, "msg_id", Json.Int(naiveMessageId));
      naiveMessageId := naiveMessageId + 1;
      response := Json.Set(response, "in_reply_to", Json.Index(msg.payload, "msg_id"));
    }

    /** The echo handler of main: it post-increments the shared counter. */
    method EchoHandler(msg: Request) returns (response: Json.Value)
      requires msg.payload.Obj?
      modifies this
      ensures response == EchoReply(msg.payload, old(naiveMessageId))
      ensures naiveMessageId == old(naiveMessageId) + 1
      ensures handlerMap == old(handlerMap) && written == old(written)
    {
      response := Json.Null;
      response := Json.Set(response, "type", Json.Str("echo_ok"));
      response := Json.Set(response, "msg_id", Json.Int(naiveMessageId));
      naiveMessageId := naiveMessageId + 1;
      response := Json.Set(response, "in_reply_to", Json.Index(msg.payload, "msg_id"));
      response := Json.Set(response, "echo", Json.Index(msg.payload, "echo"));
    }

    /** Calling the std::function held for a type. */
    method Invoke(fn: Callback, msg: Request) returns (body: Json.Value)
      requires msg.payload.Obj?
      modifies this
      ensures body == Reply(fn, msg.payload, old(naiveMessageId))
      ensures naiveMessageId == old(naiveMessageId) + 1
      ensures handlerMap == old(handlerMap) && written == old(written)
    {
      match fn {
        case InitCallback => body := InitHandler(msg);
        case EchoCallback => body := EchoHandler(msg);
      }
    }

    /**
     * message_dispatch: the line becomes a message; the handler for its type
     * is invoked and the response, addressed back to the sender, is written.
     * Without a handler the process aborts.
     */
    method MessageDispatch(raw: string, parse: Parser) returns (aborted: bool)
      modifies this
      ensures var d := Dispatched(raw, parse, old(handlerMap), old(naiveMessageId));
              && (aborted <==> d.None?)
              && (d.None? ==> written == old(written) && naiveMessageId == old(naiveMessageId))
              && (d.Some? ==> written == old(written) + [d.value.response] && naiveMessageId == d.value.counter)
      ensures handlerMap == old(handlerMap)
    {
      var message := ParseRequest(parse(raw));                   // Message message(raw)
      if message.None? {
        return true;
      }
      var key := RouteKey(message.value.payload);
      if key.None? || key.value !in handlerMap {
        return true;                                             // std::abort()
      }
      var body := Invoke(handlerMap[key.value], message.value);
      var response := Json.Null;
      response := Json.Set(response, "src", Json.Str(message.value.destination));
      response := Json.Set(response, "dest", Json.Str(message.value.source));
      response := Json.Set(response, "body", body);
      written := written + [response];
      aborted := false;
    }

    /** The reading loop of run_node. */
    method ServeLines(lines: seq<string>, parse: Parser) returns (aborted: bool)
      modifies this
      ensures var r := Served(lines, parse, old(handlerMap), old(naiveMessageId));
              && written == old(written) + r.written
              && naiveMessageId == r.counter
              && aborted == r.aborted
      ensures handlerMap == old(handlerMap)
    {
      ghost var total := Served(lines, parse, handlerMap, naiveMessageId);
      var i := 0;
      while true
        invariant 0 <= i <= |lines|
        invariant handlerMap == old(handlerMap)
        invariant var rest := Served(lines[i..], parse, handlerMap, naiveMessageId);
                  && old(written) + total.written == written + rest.written
                  && total.counter == rest.counter
                  && total.aborted == rest.aborted
        decreases |lines| - i
      {
        var buf := if i < |lines| then lines[i] else "";         // std::getline(std::cin, buf)
        if buf == "" {
          return false;
        }
        aborted := ServeLine(lines, i, parse, old(written), total);
        if aborted {
          return;
        }
        i := i + 1;
      }
    }

    /** One turn of that loop, on a non-empty line. */
    method ServeLine(lines: seq<string>, i: nat, parse: Parser, ghost base: seq<Json.Value>, ghost total: Run) returns (aborted: bool)
      requires i < |lines| && lines[i] != ""
      requires var rest := Served(lines[i..], parse, handlerMap, naiveMessageId);
               && base + total.written == written + rest.written
               && total.counter == rest.counter && total.aborted == rest.aborted
      modifies this
      ensures aborted ==> base + total.written == written && total.counter == naiveMessageId && total.aborted
      ensures !aborted ==> var rest := Served(lines[i + 1..], parse, handlerMap, naiveMessageId);
                           && base + total.written == written + rest.written
                           && total.counter == rest.counter && total.aborted == rest.aborted
      ensures handlerMap == old(handlerMap)
    {
      ServedStep(lines, i, parse, handlerMap, naiveMessageId);
      ghost var d := Dispatched(lines[i], parse, handlerMap, naiveMessageId);
      ghost var before := written;
      aborted := MessageDispatch(lines[i], parse);
      if !aborted {
        ghost var rest := Served(lines[i + 1..], parse, handlerMap, naiveMessageId);
        Regroup(before, d.value.response, rest.written);
      }
    }

    /** run_node: the init handler is registered, then the input is served. */
    method RunNode(lines: seq<string>, parse: Parser) returns (aborted: bool)
      modifies this
      ensures "init" in old(handlerMap) ==>
                && aborted && handlerMap == old(handlerMap) && written == old(written)
                && naiveMessageId == old(naiveMessageId)
      ensures "init" !in old(handlerMap) ==>
                && handlerMap == old(handlerMap)["init" := InitCallback]
                && var r := Served(lines, parse, handlerMap, old(naiveMessageId));
                   && written == old(written) + r.written
                   && naiveMessageId == r.counter
                   && aborted == r.aborted
    {
      var duplicate := AddHandler("init", InitCallback);
      if duplicate {
        return true;
      }
      aborted := ServeLines(lines, parse);
    }
  }
}
