# maelstrom-cpp in Dafny

This project models the core of maelstrom-cpp. maelstrom-cpp is a C++ runtime for nodes that answer line-delimited JSON requests of the Maelstrom protocol. The modelled parts are:

- **Base64 codecs** (`Base64`, base64.dfy). The four character maps. The two encoders and the two decoders, each as the `for` loop of the C++ over an output buffer, driven by its carry state. The decoder buffer is `char_count + 1` slots, the returned string plus the slot the final `>>=` may touch.
- **Snowflake identifiers** (`Snowflakes`, snowflake.dfy). A pair of 64-bit halves, validity, the constructors, the JSON wire form, and decoding from every JSON kind.
- **Typed messages** (`Messages`, message.dfy). The two-way type-name table, the 5-argument constructor, validation of a JSON tree (`from_json`), `create_response` and `as_json`.
- **Node bookkeeping** (`Nodes`, node.dfy). A `Node` class with:
  - the write-once membership (`init`);
  - the add-only handler registry;
  - the FIFO task queue filled by `dispatch_message`;
  - one worker step;
  - the reading loop of `run`.
- **The legacy dispatcher** (`Maelstrom`, maelstrom.dfy). It is the path the program runs. The static handler map keyed by type string and the shared counter `naive_message_id` are fields of one `Dispatcher` object. `add_handler`, `message_dispatch`, the init handler and the loop of `run_node` are its methods.
- **The echo program** (`EchoMain`, echo.dfy). The echo handler of `main` and the program flow: register `echo`, then `run_node`.

`Json` (json.dfy) is the JSON tree of the nlohmann library. It provides the member access the code uses: `contains`/`at`, and the non-const `operator[]`, which inserts a null member. `Wrappers` (wrappers.dfy) holds `Option`.

Each imperative part is a method with loops and frames. Each method is proved against a specification function: `UrlEncoding`, `Decoding`, `Wire`, `Decode`, `Validated`, `LineTasks`, `Replies`, `Dispatched` and `Served`. Lemmas then prove these properties of the specification functions:

- `Decoding(UrlEncoding(d)) == Some(d)`;
- `Decode(Wire(s)) == Some(s)`;
- `TypeFromString(TypeToString(t)) == t`;
- constructed messages survive `as_json` and `from_json`, with the reply id dropped;
- response ids count up from the counter.

In these places the model follows the code where a reader of the Maelstrom protocol might expect otherwise:

- **Reply key.** `from_json` reads the reply id from the key `is_reply_to`, but the constructor writes `in_reply_to`. Because of this the round trip drops the reply id (`Messages.ReplyIdLost`).
- **Init handler.** The `Node` constructor registers no init handler.
- **Snowflake strings.** A raw 16-byte string is not taken as a Snowflake. String ids are always base64-decoded first, once or twice.
- **Unparsable lines.** On the legacy path, a line that is not JSON, or whose `src`/`dest` are not strings, throws and ends the process. The line is not dropped.
- **Standard encoding.** `encode_base64` is not standard base64:
  - its middle symbol of each group comes from the URL table;
  - it appends `n % 3` padding characters;
  - neither decoder accepts `+`, `/` or `=`, so its output with padding is rejected (`Base64.StdEncodingRejected`).

## Model

| member | source | states |
|---|---|---|
| Base64.ToBase64UrlChar | src/common/encoding/base64.cpp:19-22 | a value below 64 maps into the URL alphabet `A-Z a-z 0-9 - _`, and every other value maps to `'?'` |
| Base64.ToBase64Char | src/common/encoding/base64.cpp:6-9 | the standard table: it agrees with the URL table below 62, gives `+` and `/` for 62 and 63, and `'?'` beyond |
| Base64.FromBase64Url | src/common/encoding/base64.cpp:24-30 | defined exactly on the URL alphabet; every value it yields is below 64 and maps back to the same character |
| Base64.FromBase64 | src/common/encoding/base64.cpp:11-17 | the same map as `from_base64url`, so `+`, `/` and `=` are rejected |
| Base64.UrlSymbolRoundTrip | src/common/encoding/base64.cpp:19-30 | decoding the symbol of any value below 64 gives that value back |
| Base64.UrlEncoding | src/common/encoding/base64.cpp:175-214 | the unpadded base64url text of n bytes: exactly (8n+5)/6 characters, all from the URL alphabet |
| Base64.StdEncoding | src/common/encoding/base64.cpp:82-123 | the text `encode_base64` yields: (8n+5)/6 symbols followed by exactly n % 3 `=` characters, with no `=` among the symbols |
| Base64.Decoding | src/common/encoding/base64.cpp:127-173 | fewer than 2 characters give the empty string; otherwise the result is defined iff every character is in the URL alphabet, and it has (6m)/8 bytes |
| Base64.LengthsInverse | src/common/encoding/base64.cpp:128-176 | the decoded length of the encoded length of n bytes is n, and a non-empty input encodes to at least 2 symbols |
| Base64.UrlRoundTrip | src/common/encoding/base64.cpp:127-214 | decoding the base64url encoding of any byte string gives it back |
| Base64.StdEncodingRejected | src/common/encoding/base64.cpp:82-123 | when n % 3 != 0, neither decoder accepts the output of `encode_base64`, because of its `=` padding |
| Base64.StdEncodingOneByte | src/common/encoding/base64.cpp:117-121 | one zero byte encodes to `AA=`, which the decoders reject |
| Base64.EncodeUrlCase0 | src/common/encoding/base64.cpp:189-193 | the first byte of a group writes its top six bits as one symbol and carries its low two bits; no other slot changes |
| Base64.EncodeCase2 | src/common/encoding/base64.cpp:194-198 | the second byte of a group completes the second symbol, from the URL table in both encoders, and carries its low four bits |
| Base64.EncodeUrlCase4 | src/common/encoding/base64.cpp:199-204 | the third byte of a group writes the third and fourth symbols and clears the carry |
| Base64.EncodeUrlPass | src/common/encoding/base64.cpp:185-208 | one turn of the loop: the carry_bits value 2r selects the case for the group position r, so the `default` branch is never taken |
| Base64.EncodeUrlSymbols | src/common/encoding/base64.cpp:181-208 | after the loop, every symbol written is the URL symbol of the corresponding sextet of the input, and the carry is the pending tail |
| Base64.EncodeBase64Url | src/common/encoding/base64.cpp:175-214 | always returns `Some(UrlEncoding(data))`, so it never fails |
| Base64.EncodeStdCase0 | src/common/encoding/base64.cpp:97-101 | as the URL case 0, with the standard table |
| Base64.EncodeStdCase4 | src/common/encoding/base64.cpp:107-112 | as the URL case 4, with the standard table |
| Base64.EncodeStdPass | src/common/encoding/base64.cpp:93-116 | one turn of the standard loop; the middle symbol of a group comes from the URL table |
| Base64.EncodeStdSymbols | src/common/encoding/base64.cpp:89-116 | after the loop, every symbol written is the mixed-table symbol of the corresponding sextet |
| Base64.EncodeBase64 | src/common/encoding/base64.cpp:82-123 | always returns `Some(StdEncoding(data))` |
| Base64.DecodeCase6 | src/common/encoding/base64.cpp:142-150 | a symbol at group position 0 or 3 fills the open byte, and advances `out_idx` only when the carry is set |
| Base64.DecodeCase2 | src/common/encoding/base64.cpp:151-158 | the second symbol completes the first byte and opens the next one with its low four bits |
| Base64.DecodeCase4 | src/common/encoding/base64.cpp:159-167 | the third symbol completes the second byte, opens the third and sets the carry |
| Base64.DecodeUrlPass | src/common/encoding/base64.cpp:138-170 | one turn of the loop: it fails iff the character is outside the URL alphabet; otherwise the bytes before `out_idx` are decoded and the later slots stay zero |
| Base64.DecodeUrlSymbols | src/common/encoding/base64.cpp:133-170 | the loop succeeds iff every character is a URL symbol; then `out_idx` == (6m)/8, so every write lands at or below `char_count`, and the bytes before it are the decoded bytes |
| Base64.DecodeBase64Url | src/common/encoding/base64.cpp:127-173 | returns exactly `Decoding(text)` |
| Base64.DecodeStdPass | src/common/encoding/base64.cpp:45-76 | one turn of the `decode_base64` loop, which has the same behaviour as the URL one |
| Base64.DecodeStdSymbols | src/common/encoding/base64.cpp:40-77 | the same loop result as the URL decoder |
| Base64.DecodeBase64 | src/common/encoding/base64.cpp:34-80 | returns exactly `Decoding(text)`, so `decode_base64` and `decode_base64url` agree on every input |
| Snowflakes.Snowflake.IsValid | src/common/snowflake.h:20 | an id is valid iff it is not the all-zero id |
| Snowflakes.Invalid | src/common/snowflake.cpp:40-43 | the invalid id, and the only value that is not valid (`is_valid` holds iff some half is non-zero) |
| Snowflakes.Generate | src/common/snowflake.cpp:21-29 | sets both halves to the drawn values; valid iff one of them is non-zero |
| Snowflakes.Generate64 | src/common/snowflake.cpp:31-38 | the low half is 0, and the id is valid iff the drawn value is non-zero; a valid one travels as the plain number |
| Snowflakes.Image | src/common/snowflake.cpp:145-168 | the 16-byte memory layout of an id: the high half, then the low half |
| Snowflakes.FromImage | src/common/snowflake.cpp:95-118 | reading the fields back from 16 bytes gives an id whose layout is those bytes |
| Snowflakes.ValueOfDigits | src/common/snowflake.cpp:95-118 | the value of the little-endian bytes of x is x |
| Snowflakes.BytesOfValue | src/common/snowflake.cpp:95-118 | the little-endian bytes of the value of a byte string are that string |
| Snowflakes.DigitIsByte | src/common/snowflake.cpp:145-168 | byte k of the layout is the k-th byte of the half, as read through the byte pointer |
| Snowflakes.ImageRoundTrip | src/common/snowflake.cpp:95-168 | reading back the layout of an id gives the id |
| Snowflakes.Wire | src/common/snowflake.cpp:134-170 | the wire form is the number `most_sig` exactly when the high half is non-zero and the low half is zero; otherwise it is 22 base64url characters |
| Snowflakes.AsJson | src/common/snowflake.cpp:134-170 | the byte-copy loop and base64url encoding yield exactly the wire form |
| Snowflakes.FromNumber | src/common/snowflake.cpp:172-175 | the number cast to `uint64` (two's complement for negative integers) as the high half, with the low half zero |
| Snowflakes.ArrayResult | src/common/snowflake.cpp:60-83 | an array never yields an id: any size but two returns nothing, and of a two-element array only the first element is inspected: a number returns nothing at line 77, anything else (a boolean included) makes `get<uint64_t>` throw a type error at line 79 |
| Snowflakes.FromJsonArray | src/common/snowflake.cpp:60-83 | the loop ends on its first turn, and its outcome is `ArrayResult` |
| Snowflakes.AsText | src/common/snowflake.cpp:85-132 | the decoded bytes taken as a `std::string`, one character per byte |
| Snowflakes.StringDecode | src/common/snowflake.cpp:85-132 | succeeds only if the first base64 decode succeeds and either gives 16 bytes or decodes once more to 16 bytes; the id's layout is those 16 bytes |
| Snowflakes.CopyImage | src/common/snowflake.cpp:95-118 | the pointer copy loop fills the fields as `FromImage` does |
| Snowflakes.FromJsonString | src/common/snowflake.cpp:85-132 | returns exactly `StringDecode(text)` |
| Snowflakes.Decode | src/common/snowflake.cpp:45-58 | integers go through `from_json_number` and strings through `from_json_string`; arrays and every other kind yield nothing |
| Snowflakes.FromJson | src/common/snowflake.cpp:45-58 | returns exactly `Decode(v)` |
| Snowflakes.WireRoundTrip | src/common/snowflake.cpp:45-175 | `from_json(as_json(s))` gives back s for every s, the invalid id included |
| Messages.TypeToString | src/common/message.cpp:25-45 | INVALID is the only type named `""`; every other type's name is one of the six names |
| Messages.TypeFromString | src/common/message.cpp:8-23 | a string maps to INVALID iff it is not one of the six names, and each name maps to the type it names |
| Messages.TypeNameRoundTrip | src/common/message.cpp:8-45 | `message_type_from_string(message_type_to_string(t)) == t` for every t, INVALID included (it is named `""`, which maps back to INVALID) |
| Messages.Default | src/common/message.cpp:102-104 | the default message: INVALID, both ids invalid, empty addresses, null body |
| Messages.Constructed | src/common/message.cpp:110-123 | the typed fields are the arguments, and the body has `type` iff the type is not INVALID, `msg_id` iff the id is valid, and `in_reply_to` iff the reply id is valid |
| Messages.New | src/common/message.cpp:110-123 | the conditional body writes build exactly `Constructed` |
| Messages.IdField | src/common/message.cpp:78-86 | a missing key, or a value that `from_json` reads as "no id", gives the invalid id; a decoded value gives that id |
| Messages.Validated | src/common/message.cpp:55-100 | defined iff `src` and `dest` are strings, `body` is an object with a string `type`, and the name is known; then `from`, `to`, the type and the ids are read from the tree, and the body is the input body |
| Messages.FromJson | src/common/message.cpp:55-100 | all four field checks are evaluated, then the message is constructed and its body overwritten; the result is `Validated(v)` |
| Messages.ResponseType | src/common/message.cpp:125-140 | INIT_REQ, ECHO_REQ and GENERATE_REQ map to their responses, and every other type to INVALID |
| Messages.CreateResponse | src/common/message.cpp:125-140 | a request gets its response type, swapped addresses, a fresh 64-bit id and its own id as reply id; any other message gets the default message |
| Messages.AsJson | src/common/message.cpp:142-150 | an object with exactly the keys `src`, `dest` and `body`, holding `from`, `to` and the body |
| Messages.ConstructedIds | src/common/message.cpp:78-123 | reading back a constructed body gives its id for `msg_id` and the invalid id for `is_reply_to` |
| Messages.ConstructedRoundTrip | src/common/message.cpp:55-150 | `from_json(as_json(m))` gives back the constructed message, with the reply id reset to invalid |
| Messages.ReplyIdLost | src/common/message.cpp:81-86 | a valid reply id does not survive the round trip, because it is written as `in_reply_to` and read from `is_reply_to` |
| Nodes.LineTask | src/common/node.cpp:97-122 | a line gives a task iff it parses, validates, and its type has a handler; the task carries that message and that handler |
| Nodes.Emitted | src/common/node.cpp:41-50 | a response is written iff its type is not INVALID, and then it is written as `as_json` gives it |
| Nodes.LinesRead | src/common/node.cpp:57-67 | the lines before the first empty line (or the end of input), in order |
| Nodes.LineTasksRegistered | src/common/node.cpp:106-121 | every queued task carries the handler registered for its message's type |
| Nodes.RepliesInOrder | src/common/node.cpp:32-42 | draining a queue in two parts writes the responses of the first part, then those of the second |
| Nodes.Node.constructor | src/common/node.cpp:9-11 | a fresh node: no handler, nothing queued, no membership, not running |
| Nodes.Node.Init | src/common/node.cpp:13-23 | write-once: a node that has membership or an id keeps it; otherwise it takes the list and element `self_index`, and `.at` throws after the list is set when the index is out of range |
| Nodes.Node.RegisterHandler | src/common/node.cpp:86-95 | a registered type keeps its handler; otherwise the map gains exactly that one entry |
| Nodes.Node.DispatchMessage | src/common/node.cpp:97-122 | the queue gains exactly the line's task at the back, or nothing when the line fails to parse or has no handler |
| Nodes.Node.WorkerStep | src/common/node.cpp:30-50 | it waits on an empty queue while running, exits only on an empty queue after shutdown, and otherwise pops the front task and writes its response unless it is INVALID |
| Nodes.Node.Work | src/common/node.cpp:29-52 | after shutdown a worker drains the queue in FIFO order, writing `Replies` of it |
| Nodes.Node.ReadLine | src/common/node.cpp:57-67 | an empty buffer shuts the node down; any other line is dispatched |
| Nodes.Node.ReadInput | src/common/node.cpp:57-67 | reading stops at the first empty line and queues the tasks of the earlier lines in input order |
| Nodes.Node.Run | src/common/node.cpp:25-78 | a negative worker count throws `std::length_error` from the pool's constructor and changes nothing; otherwise the node ends shut down, and the responses are those of the queued tasks, then those of the lines read, in order; with no worker nothing is written and the lines stay queued |
| Maelstrom.ParseRequest | src/common/maelstrom.cpp:9-15 | a line is a message iff it parses and `src` and `dest` are strings; the payload is `body`, null when absent |
| Maelstrom.RouteKey | src/common/maelstrom.cpp:20 | the lookup key exists iff the payload is an object with a string `type` |
| Maelstrom.InitReply | src/common/maelstrom.cpp:40-46 | exactly the keys `type = "init_ok"`, `msg_id` = the counter and `in_reply_to` = the request's `msg_id` |
| Maelstrom.Reply | src/common/maelstrom.cpp:22 | whatever the handler, the body carries the counter's value as `msg_id` |
| Maelstrom.Response | src/common/maelstrom.cpp:21-26 | exactly the keys `src` = the request's `dest`, `dest` = the request's `src`, and `body` = the handler's result |
| Maelstrom.Dispatched | src/common/maelstrom.cpp:17-30 | a line is answered iff it is a message whose payload type has a handler; the response is addressed back and the counter moves on by one |
| Maelstrom.Served | src/common/maelstrom.cpp:49-55 | the loop answers lines until the first empty one or the first that ends the process; the counter rises by one per response written |
| Maelstrom.ServedNumberedAt | src/common/maelstrom.cpp:7-55 | the k-th response written carries the counter's start value plus k as `msg_id` |
| Maelstrom.ServedNumbered | src/common/maelstrom.cpp:7-55 | all responses carry consecutive message ids in the order they are written |
| Maelstrom.ServedStep | src/common/maelstrom.cpp:49-55 | serving from a non-empty line on is answering it, then serving the lines after it |
| Maelstrom.Dispatcher.constructor | src/common/maelstrom.cpp:6-7 | the handler map starts empty and the counter at 0 |
| Maelstrom.Dispatcher.AddHandler | src/common/maelstrom.cpp:32-36 | a type already registered aborts and changes nothing; otherwise the map gains exactly that one entry |
| Maelstrom.Dispatcher.InitHandler | src/common/maelstrom.cpp:40-46 | returns `InitReply` of the counter's value before the call, and raises the counter by exactly one |
| Maelstrom.Dispatcher.EchoHandler | src/main.cpp:6-13 | returns `EchoReply` of the counter's value before the call, and raises the counter by exactly one |
| Maelstrom.Dispatcher.Invoke | src/common/maelstrom.cpp:22 | calling the stored callback gives `Reply` and raises the counter by one |
| Maelstrom.Dispatcher.MessageDispatch | src/common/maelstrom.cpp:17-30 | aborts iff `Dispatched` has no answer, changing nothing; otherwise it writes that answer and moves the counter on |
| Maelstrom.Dispatcher.ServeLine | src/common/maelstrom.cpp:54 | one dispatched line moves the loop's remaining work from the line to the lines after it |
| Maelstrom.Dispatcher.ServeLines | src/common/maelstrom.cpp:49-55 | the loop writes exactly what `Served` gives, and ends with its counter and its abort flag |
| Maelstrom.Dispatcher.RunNode | src/common/maelstrom.cpp:38-56 | registers `init` (aborting if it is already there), then serves the input with that map |
| Maelstrom.EchoReply | src/main.cpp:7-12 | exactly the keys `type = "echo_ok"`, `msg_id` = the counter, `in_reply_to` = the request's `msg_id`, and `echo` = the request's `echo` |
| EchoMain.Program | src/main.cpp:4-16 | the program's output is that of serving the input with the `echo` and `init` handlers and the counter at 0 |
| EchoMain.Routing | src/main.cpp:6 | only requests of type `echo` or `init` are answered; any other message ends the process |
| EchoMain.EchoAnswer | src/main.cpp:6-12 | an echo request is answered to its sender with `echo_ok`, the counter as `msg_id`, its `msg_id` as `in_reply_to` and its `echo` |
| EchoMain.ProgramNumbered | src/main.cpp:9 | the program's responses carry the ids 0, 1, 2, ... in the order they are written |

## Left out

- JSON text parsing and printing (the nlohmann library): a parser is a parameter that gives an optional tree, and what is written is kept as trees. The key order of `ordered_json` in run_node's init response is not modelled.
- Threads, the mutexes and condition variable, `stop()`, and joining in node.cpp. `Nodes.Node.Run` reads all input first, then drains the queue with one worker after the other. The order in which several workers' responses interleave is not modelled. The missing notification when the reader sets SHUTDOWN on an empty line is a liveness matter outside a sequential model.
- Nodes.Node.Run: with several workers the source writes the same set of responses in an interleaved order. The model writes them in queue order.
- Randomness: the draws of `generate` and `generate_64` are parameters.
- Nodes.Node.Init: `std::out_of_range` from `.at` is reported as `thrown`. The exception propagating to the caller is not modelled.
- Host byte order: the model fixes little-endian for the `reinterpret_cast` byte copies of a Snowflake.
- Snowflakes.Decode: an array folds to "no id". In the source a two-element array whose first element is not a number makes `get<uint64_t>` throw a type error (snowflake.cpp:79); the array reader itself (`Snowflakes.FromJsonArray`) reports that as `TypeError`, but `Decode` does not pass it on.
- Snowflakes.FromJson: returns `Decode(v)`, so the type error of such an array is "no id" here rather than an exception.
- Messages.IdField: a `msg_id` or `is_reply_to` that is a two-element array with a non-number first element gives the invalid id here. In the source the type error escapes `Message::from_json` (message.cpp:80 and 85) and `dispatch_message`, and leaves `run()` while the worker threads are still joinable, so the process terminates. The members below inherit this, and so do `Nodes.LineTask`, `Nodes.Node.ReadLine`, `Nodes.Node.ReadInput` and `Nodes.Node.Run`, which go on reading where the source stops.
- Messages.Validated: for a tree that passes the field checks but carries such an array id, gives a message (or nothing, for an unknown type name) where the source throws; the ids are read before the type name is checked.
- Messages.FromJson: returns `Validated(v)`, so the same array ids give a message rather than the thrown type error.
- Nodes.Node.DispatchMessage: for such a line queues a task or drops the line where the source's `dispatch_message` throws.
- Logging through `std::clog` and `std::cerr`.
- `Nodes.Node` handlers are functions from message to message: the handler bodies registered there are code outside the node.
- Maelstrom.Dispatcher.InitHandler: the counter is an unbounded integer; the overflow of the C++ `int` is not modelled.
- `std::abort` and uncaught exceptions in maelstrom.cpp are reported as `aborted`, after which nothing else happens.
- The unused `static long naive_msg_id` in `message_dispatch`.
- `Message::parse` is `json::parse` followed by `from_json`, and `Nodes.Node.DispatchMessage` models it as that pair.
- The 4-argument `Message` constructor only forwards to the 5-argument one; it is not a separate member here.
- Base64 passes call `from_base64` once before the switch rather than in each case. The function is pure, so the value is the same.
- Base64 alphabets are written arithmetically rather than as indexed string literals.
- `src/common/json` (an unfinished JSON variant), `src/common/monad/result.h`, `src/cpp-rs.cpp`, `src/bench.cpp` and `src/common/error.*` are not part of this model.
