/**
 * The program of src/main.cpp: an echo node on the legacy dispatcher. It
 * registers its echo handler under "echo" and hands over to run_node, which
 * adds the init handler and serves standard input.
 */
module EchoMain {
  import opened Wrappers
  import Json
  import opened Maelstrom

  /** The handler map once run_node has started. */
  const Handlers: map<string, Callback> := map["echo" := EchoCallback, "init" := InitCallback]

  /**
   * main: the echo handler is registered, then run_node serves the input.
   * Both registrations succeed, so the run is the dispatcher's service of the
   * input with both handlers and the counter starting at 0.
   */
  method Program(lines: seq<string>, parse: Parser) returns (written: seq<Json.Value>, aborted: bool)
    ensures var r := Served(lines, parse, Handlers, 0);
            written == r.written && aborted == r.aborted
  {
    var node := new Dispatcher();
    var duplicate := node.AddHandler("echo", EchoCallback);
    aborted := node.RunNode(lines, parse);
    written := node.written;
  }

  /** Only init and echo requests are answered; any other message ends the process. */
  lemma Routing(raw: string, parse: Parser, counter: int)
    ensures var req := ParseRequest(parse(raw));
            Dispatched(raw, parse, Handlers, counter).Some? <==>
              && req.Some?
              && (RouteKey(req.value.payload) == Some("echo") || RouteKey(req.value.payload) == Some("init"))
  {
    var req := ParseRequest(parse(raw));
    if req.Some? && RouteKey(req.value.payload).Some? {
      var key := RouteKey(req.value.payload).value;
      assert key in Handlers <==> key == "echo" || key == "init";
    }
  }

  /**
   * An echo request is answered by an echo_ok addressed back to its sender,
   * carrying the echo text, the request's msg_id as in_reply_to and the
   * counter as its own msg_id.
   */
  lemma EchoAnswer(raw: string, parse: Parser, counter: int)
    requires var req := ParseRequest(parse(raw));
             req.Some? && RouteKey(req.value.payload) == Some("echo")
    ensures var req := ParseRequest(parse(raw)).value;
            var d := Dispatched(raw, parse, Handlers, counter);
            && d.Some?
            && d.value.counter == counter + 1
            && d.value.response.fields["src"] == Json.Str(req.destination)
            && d.value.response.fields["dest"] == Json.Str(req.source)
            && var body := d.value.response.fields["body"];
               && body.Obj?
               && body.fields["type"] == Json.Str("echo_ok")
               && body.fields["msg_id"] == Json.Int(counter)
               && body.fields["in_reply_to"] == Json.Index(req.payload, "msg_id")
               && body.fields["echo"] == Json.Index(req.payload, "echo")
  {
    var req := ParseRequest(parse(raw)).value;
    assert Handlers["echo"] == EchoCallback;
    var body := EchoReply(req.payload, counter);
    assert Dispatched(raw, parse, Handlers, counter) == Some(Dispatch(Response(req, body), counter + 1));
  }

  /** The responses of a run carry the message ids 0, 1, 2, ... in the order they are written. */
  lemma ProgramNumbered(lines: seq<string>, parse: Parser)
    ensures var r := Served(lines, parse, Handlers, 0);
            forall k | 0 <= k < |r.written| :: Answered(r.written[k], k)
  {
    ServedNumbered(lines, parse, Handlers, 0);
  }
}
