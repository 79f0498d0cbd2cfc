/**
 * The node runtime of src/common/node.cpp, as sequential steps.
 *
 * A Node keeps the cluster membership given by init, a registry of handlers
 * by message type, a FIFO queue of tasks and a run state. The reader of
 * `run` parses each input line and queues a task for it; workers take tasks
 * from the front of the queue and write the responses. Here the reader runs
 * to the end of its input first and the workers then run one after the
 * other; what is written to standard output is the field `written`.
 */
module Nodes {
  import opened Wrappers
  import Json
  import Messages

  type Message = Messages.Message
  type MessageType = Messages.MessageType

  /** callback_fn: a handler maps a request to its response; it is code outside the node. */
  type Handler = Message -> Message

  /** json::parse of an input line: the tree, or nothing when the line is not JSON. */
  type Parser = string -> Option<Json.Value>

  datatype NodeState = Starting | Running | Shutdown

  /** ThreadTask: a parsed message and the handler registered for its type. */
  datatype Task = Task(message: Message, invoke: Handler)

  /** What one turn of a worker's loop does. */
  datatype WorkerStep = Waits | Exits | Handled(response: Message)

  /** The task dispatch_message queues for a line, if any. */
  function LineTask(raw: string, parse: Parser, handlers: map<MessageType, Handler>): (t: Option<Task>)
    ensures t.Some? <==> parse(raw).Some? && Messages.Validated(parse(raw).value).Some?
                         && Messages.Validated(parse(raw).value).value.kind in handlers
    ensures t.Some? ==> t.value.message == Messages.Validated(parse(raw).value).value
    ensures t.Some? ==> t.value.invoke == handlers[t.value.message.kind]
  {
    match parse(raw)
    case None => None
    case Some(tree) =>
      match Messages.Validated(tree)
      case None => None
      case Some(msg) => if msg.kind in handlers then Some(Task(msg, handlers[msg.kind])) else None
  }

  /** A task as a queue of at most one. */
  function Queued(t: Option<Task>): (q: seq<Task>)
    ensures t.None? ==> q == []
    ensures t.Some? ==> q == [t.value]
  {
    if t.Some? then [t.value] else []
  }

  /** The tasks the first n lines give, in the order of the lines. */
  function LineTasks(lines: seq<string>, n: nat, parse: Parser, handlers: map<MessageType, Handler>): (ts: seq<Task>)
    requires n <= |lines|
    ensures |ts| <= n
  {
    if n == 0 then []
    else LineTasks(lines, n - 1, parse, handlers) + Queued(LineTask(lines[n - 1], parse, handlers))
  }

  /** What a worker writes for a response: its JSON form, unless the response is INVALID. */
  function Emitted(response: Message): (out: seq<Json.Value>)
    ensures |out| <= 1
    ensures out != [] <==> response.kind != Messages.Invalid
    ensures out != [] ==> out[0] == Messages.AsJson(response)
  {
    if response.kind != Messages.Invalid then [Messages.AsJson(response)] else []
  }

  /** What the workers write for the tasks, taken in queue order. */
  function Replies(tasks: seq<Task>): (out: seq<Json.Value>)
    ensures |out| <= |tasks|
  {
    if tasks == [] then []
    else Replies(tasks[..|tasks| - 1]) + Emitted(tasks[|tasks| - 1].invoke(tasks[|tasks| - 1].message))
  }

  /** Every task the lines give carries the handler registered for its message's type. */
  lemma {:induction false} LineTasksRegistered(lines: seq<string>, n: nat, parse: Parser, handlers: map<MessageType, Handler>)
    requires n <= |lines|
    ensures forall t | t in LineTasks(lines, n, parse, handlers) :: t.message.kind in handlers && t.invoke == handlers[t.message.kind]
  {
    if n > 0 {
      LineTasksRegistered(lines, n - 1, parse, handlers);
    }
  }

  /** Draining a queue in two parts writes what draining it at once writes: responses keep queue order. */
  lemma {:induction false} RepliesInOrder(first: seq<Task>, second: seq<Task>)
    ensures Replies(first + second) == Replies(first) + Replies(second)
    decreases |second|
  {
    if second != [] {
      var front := second[..|second| - 1];
      assert (first + second)[..|first + second| - 1] == first + front;
      RepliesInOrder(first, front);
    } else {
      assert first + second == first;
    }
  }

  /**
   * The lines run reads: those before the first empty one. A read past the
   * end of the input leaves the buffer empty, so the end stops it too.
   */
  function LinesRead(lines: seq<string>): (r: seq<string>)
    ensures |r| <= |lines| && r == lines[..|r|]
    ensures forall k | 0 <= k < |r| :: r[k] != ""
    ensures |r| < |lines| ==> lines[|r|] == ""
  {
    if lines == [] || lines[0] == "" then [] else [lines[0]] + LinesRead(lines[1..])
  }

  class Node {
    var handlerMap: map<MessageType, Handler>
    var state: NodeState
    var selfNodeId: string
    var allNodeIds: seq<string>
    var taskQueue: seq<Task>
    /** The responses written to standard output, in order. */
    var written: seq<Json.Value>
    const workerCount: int

    /** Node(num_workers): nothing registered, nothing queued, not initialized. */
    constructor (numWorkers: int)
      ensures workerCount == numWorkers
      ensures handlerMap == map[] && state == Starting
      ensures selfNodeId == "" && allNodeIds == []
      ensures taskQueue == [] && written == []
    {
      workerCount := numWorkers;
      handlerMap := map[];
      state := Starting;
      selfNodeId := "";
      allNodeIds := [];
      taskQueue := [];
      written := [];
    }

    /**
     * init: once the membership or the node's own id is set, later calls
     * change nothing. Otherwise the list is taken and the own id is element
     * self_index of it; `.at` throws when the index is out of range, after
     * the list has been taken.
     */
    method Init(allNodes: seq<string>, selfIndex: int) returns (thrown: bool)
      modifies this
      ensures old(allNodeIds) != [] || old(selfNodeId) != "" ==>
                !thrown && allNodeIds == old(allNodeIds) && selfNodeId == old(selfNodeId)
      ensures old(allNodeIds) == [] && old(selfNodeId) == "" ==>
                && allNodeIds == allNodes
                && (thrown <==> !(0 <= selfIndex < |allNodes|))
                && (!thrown ==> selfNodeId == allNodes[selfIndex])
                && (thrown ==> selfNodeId == old(selfNodeId))
      ensures handlerMap == old(handlerMap) && state == old(state)
      ensures taskQueue == old(taskQueue) && written == old(written)
    {
      if allNodeIds != [] || selfNodeId != "" {
        return false;
      }
      allNodeIds := allNodes;
      if !(0 <= selfIndex < |allNodeIds|) {
        return true;
      }
      selfNodeId := allNodeIds[selfIndex];
      thrown := false;
    }

    /** register_handler: a type keeps the first handler registered for it. */
    method RegisterHandler(kind: MessageType, handler: Handler)
      modifies this
      ensures kind in old(handlerMap) ==> handlerMap == old(handlerMap)
      ensures kind !in old(handlerMap) ==> handlerMap == old(handlerMap)[kind := handler]
      ensures state == old(state) && selfNodeId == old(selfNodeId) && allNodeIds == old(allNodeIds)
      ensures taskQueue == old(taskQueue) && written == old(written)
    {
      if kind in handlerMap {
        return;
      }
      handlerMap := handlerMap[kind := handler];
    }

    /**
     * dispatch_message: a line that parses into a message with a registered
     * handler adds one task at the back of the queue; any other line changes
     * nothing.
     */
    method DispatchMessage(raw: string, parse: Parser)
      modifies this
      ensures taskQueue == old(taskQueue) + Queued(LineTask(raw, parse, old(handlerMap)))
      ensures handlerMap == old(handlerMap) && state == old(state)
      ensures selfNodeId == old(selfNodeId) && allNodeIds == old(allNodeIds) && written == old(written)
    {
      var tree := parse(raw);
      if tree.None? {
        return;
      }
      var msg := Messages.FromJson(tree.value);
      if msg.None? {
        return;
      }
      if msg.value.kind !in handlerMap {
        return;
      }
      var newTask := Task(msg.value, handlerMap[msg.value.kind]);
      taskQueue := taskQueue + [newTask];
    }

    /**
     * One turn of a worker's loop: it waits while the node runs and the
     * queue is empty, exits once the node is shut down and the queue is
     * empty, and otherwise takes the front task, invokes its handler and
     * writes the response unless it is INVALID.
     */
    method WorkerStep() returns (step: WorkerStep)
      modifies this
      ensures old(taskQueue) == [] ==> taskQueue == [] && written == old(written)
      ensures old(taskQueue) == [] ==> (step == Exits <==> state == Shutdown) && (step == Waits <==> state != Shutdown)
      ensures old(taskQueue) != [] ==>
                && step == Handled(old(taskQueue)[0].invoke(old(taskQueue)[0].message))
                && taskQueue == old(taskQueue)[1..]
                && written == old(written) + Emitted(step.response)
      ensures handlerMap == old(handlerMap) && state == old(state)
      ensures selfNodeId == old(selfNodeId) && allNodeIds == old(allNodeIds)
    {
      if state != Shutdown && taskQueue == [] {
        return Waits;
      }
      if state == Shutdown && taskQueue == [] {
        return Exits;
      }
      var task := taskQueue[0];
      taskQueue := taskQueue[1..];
      var response := task.invoke(task.message);
      if response.kind != Messages.Invalid {
        written := written + [Messages.AsJson(response)];
      }
      step := Handled(response);
    }

    /** A worker's loop once the node is shut down: it drains the queue in order, then exits. */
    method Work()
      requires state == Shutdown
      modifies this
      ensures taskQueue == [] && written == old(written) + Replies(old(taskQueue))
      ensures handlerMap == old(handlerMap) && state == old(state)
      ensures selfNodeId == old(selfNodeId) && allNodeIds == old(allNodeIds)
    {
      ghost var queued := taskQueue;
      ghost var k := 0;
      while true
        invariant state == Shutdown && 0 <= k <= |queued|
        invariant taskQueue == queued[k..]
        invariant written == old(written) + Replies(queued[..k])
        invariant handlerMap == old(handlerMap)
        invariant selfNodeId == old(selfNodeId) && allNodeIds == old(allNodeIds)
        decreases |taskQueue|
      {
        var step := WorkerStep();
        if step.Exits? {
          assert queued[..k] == queued;
          return;
        }
        assert queued[..k + 1][..k] == queued[..k];
        k := k + 1;
      }
    }

    /**
     * The reading loop of run: read lines and dispatch each until the first
     * empty one, which shuts the node down.
     */
    method ReadInput(lines: seq<string>, parse: Parser)
      requires state == Running
      modifies this
      ensures state == Shutdown
      ensures taskQueue == old(taskQueue) + LineTasks(LinesRead(lines), |LinesRead(lines)|, parse, old(handlerMap))
      ensures handlerMap == old(handlerMap) && written == old(written)
      ensures selfNodeId == old(selfNodeId) && allNodeIds == old(allNodeIds)
    {
      ghost var read := LinesRead(lines);
      var i := 0;
      while state == Running
        invariant 0 <= i <= |read|
        invariant taskQueue == old(taskQueue) + LineTasks(read, i, parse, old(handlerMap))
        invariant state == Running || (state == Shutdown && i == |read|)
        invariant handlerMap == old(handlerMap) && written == old(written)
        invariant selfNodeId == old(selfNodeId) && allNodeIds == old(allNodeIds)
        decreases |read| - i, state == Running
      {
        i := ReadLine(lines, read, i, parse, old(taskQueue));
      }
    }

    /**
     * One turn of the reading loop: the next line, or the empty buffer past
     * the end of the input. An empty line shuts the node down; any other is
     * dispatched.
     */
    method ReadLine(lines: seq<string>, ghost read: seq<string>, i: nat, parse: Parser, ghost queued: seq<Task>) returns (next: nat)
      requires i <= |read| <= |lines| && state == Running
      requires i < |read| ==> lines[i] == read[i] != ""
      requires i == |read| ==> i == |lines| || lines[i] == ""
      requires taskQueue == queued + LineTasks(read, i, parse, handlerMap)
      modifies this
      ensures next <= |read|
      ensures taskQueue == queued + LineTasks(read, next, parse, handlerMap)
      ensures state == Running ==> next == i + 1
      ensures state != Running ==> state == Shutdown && next == i == |read|
      ensures handlerMap == old(handlerMap) && written == old(written)
      ensures selfNodeId == old(selfNodeId) && allNodeIds == old(allNodeIds)
    {
      var buf := if i < |lines| then lines[i] else "";           // std::getline(std::cin, buf)
      if buf == "" {
        state := Shutdown;
        return i;
      }
      assert i < |read| && read[i] == buf;
      DispatchMessage(buf, parse);
      next := i + 1;
    }

    /**
     * run: the worker pool is built first, so a negative worker count makes
     * the vector constructor throw std::length_error before anything else
     * happens (thrown). Otherwise the node reads its input, then the workers
     * drain the queue. The responses are those of the tasks already queued,
     * then of the lines read, in order; with no worker nothing is handled.
     */
    method Run(lines: seq<string>, parse: Parser) returns (thrown: bool)
      modifies this
      ensures thrown <==> workerCount < 0
      ensures thrown ==> && state == old(state)
                         && taskQueue == old(taskQueue)
                         && written == old(written)
      ensures !thrown ==> state == Shutdown
      ensures workerCount > 0 ==>
                && taskQueue == []
                && written == old(written) + Replies(old(taskQueue) + LineTasks(LinesRead(lines), |LinesRead(lines)|, parse, old(handlerMap)))
      ensures workerCount == 0 ==>
                && written == old(written)
                && taskQueue == old(taskQueue) + LineTasks(LinesRead(lines), |LinesRead(lines)|, parse, old(handlerMap))
      ensures handlerMap == old(handlerMap)
      ensures selfNodeId == old(selfNodeId) && allNodeIds == old(allNodeIds)
    {
      if workerCount < 0 {
        return true;                                               // std::vector<std::thread>(worker_count)
      }
      state := Running;
      ReadInput(lines, parse);
      if workerCount > 0 {
        Work();
      }
      thrown := false;
    }
  }
}
