/**
 * Typed messages of src/common/message.cpp: the table between type names and
 * MessageType, the validation of a JSON tree into a Message, the constructor
 * that fills the body from the typed fields, create_response and as_json.
 *
 * Message::parse is json::parse (outside the model) followed by from_json:
 * here the parsed tree is the input.
 */
module Messages {
  import opened Wrappers
  import Json
  import Snowflakes

  type Snowflake = Snowflakes.Snowflake

  datatype MessageType = Invalid | InitReq | InitRes | EchoReq | EchoRes | GenerateReq | GenerateRes

  /** The six names of the conversion table. */
  const TypeNames: set<string> := {"init", "init_ok", "echo", "echo_ok", "generate", "generate_ok"}

  /** message_type_to_string: the wire name of a type; INVALID has the empty name. */
  function TypeToString(t: MessageType): (s: string)
    ensures s == "" <==> t == Invalid
    ensures t != Invalid ==> s in TypeNames
  {
    match t
    case Invalid => ""
    case InitReq => "init"
    case InitRes => "init_ok"
    case EchoReq => "echo"
    case EchoRes => "echo_ok"
    case GenerateReq => "generate"
    case GenerateRes => "generate_ok"
  }

  /**
   * message_type_from_string: a case-sensitive lookup in the conversion
   * table; every string not in it, the empty one included, is INVALID.
   */
  function TypeFromString(raw: string): (t: MessageType)
    ensures t == Invalid <==> raw !in TypeNames
    ensures t != Invalid ==> TypeToString(t) == raw
  {
    if raw == "init" then InitReq
    else if raw == "init_ok" then InitRes
    else if raw == "echo" then EchoReq
    else if raw == "echo_ok" then EchoRes
    else if raw == "generate" then GenerateReq
    else if raw == "generate_ok" then GenerateRes
    else Invalid
  }

  /**
   * The two conversions are inverse on every type: INVALID is named "", and
   * "" is no known name, so it maps back to INVALID.
   */
  lemma TypeNameRoundTrip(t: MessageType)
    ensures TypeFromString(TypeToString(t)) == t
  {
    if t != Invalid {
      assert TypeToString(t) in TypeNames;
    }
  }

  // ---------------------------------------------------------------------------
  // Messages

  datatype Message = Message(kind: MessageType, id: Snowflake, replyId: Snowflake,
                             from: string, to: string, body: Json.Value)

  /** Message(): an INVALID message with invalid ids, empty addresses and a null body. */
  function Default(): (m: Message)
    ensures m.kind == Invalid && !m.id.IsValid() && !m.replyId.IsValid()
    ensures m.from == "" && m.to == "" && m.body == Json.Null
  {
    Message(Invalid, Snowflakes.Invalid(), Snowflakes.Invalid(), "", "", Json.Null)
  }

  /**
   * The body the five-argument constructor leaves: "type" exactly when the
   * type is not INVALID, "msg_id" exactly when the id is valid,
   * "in_reply_to" exactly when the reply id is valid, holding the name and
   * the wire forms of the ids; null when none of them applies.
   */
  predicate ConsistentBody(body: Json.Value, kind: MessageType, id: Snowflake, replyId: Snowflake) {
    && (body.Null? <==> kind == Invalid && !id.IsValid() && !replyId.IsValid())
    && (body.Null? || body.Obj?)
    && (body.Obj? ==>
          && body.fields.Keys <= {"type", "msg_id", "in_reply_to"}
          && ("type" in body.fields <==> kind != Invalid)
          && ("msg_id" in body.fields <==> id.IsValid())
          && ("in_reply_to" in body.fields <==> replyId.IsValid())
          && ("type" in body.fields ==> body.fields["type"] == Json.Str(TypeToString(kind)))
          && ("msg_id" in body.fields ==> body.fields["msg_id"] == Snowflakes.Wire(id))
          && ("in_reply_to" in body.fields ==> body.fields["in_reply_to"] == Snowflakes.Wire(replyId)))
  }

  /** The message the five-argument constructor builds. */
  function Constructed(kind: MessageType, id: Snowflake, replyId: Snowflake, from: string, to: string): (m: Message)
    ensures m.kind == kind && m.id == id && m.replyId == replyId && m.from == from && m.to == to
    ensures ConsistentBody(m.body, kind, id, replyId)
  {
    var withType := if kind != Invalid then Json.Set(Json.Null, "type", Json.Str(TypeToString(kind))) else Json.Null;
    var withId := if id.IsValid() then Json.Set(withType, "msg_id", Snowflakes.Wire(id)) else withType;
    var withReply := if replyId.IsValid() then Json.Set(withId, "in_reply_to", Snowflakes.Wire(replyId)) else withId;
    Message(kind, id, replyId, from, to, withReply)
  }

  /** Message(type, id, reply_id, from, to): each body field written under its condition. */
  method New(kind: MessageType, id: Snowflake, replyId: Snowflake, from: string, to: string) returns (m: Message)
    ensures m == Constructed(kind, id, replyId, from, to)
  {
    var body := Json.Null;
    if kind != Invalid {
      body := Json.Set(body, "type", Json.Str(TypeToString(kind)));
    }
    if id.IsValid() {
      var wire := Snowflakes.AsJson(id);
      body := Json.Set(body, "msg_id", wire);
    }
    if replyId.IsValid() {
      var wire := Snowflakes.AsJson(replyId);
      body := Json.Set(body, "in_reply_to", wire);
    }
    m := Message(kind, id, replyId, from, to, body);
  }

  // ---------------------------------------------------------------------------
  // Validation of a JSON tree

  /** The four checks of from_json: string src and dest, an object body holding a string type. */
  predicate HasRequiredFields(v: Json.Value) {
    && Json.HasString(v, "src")
    && Json.HasString(v, "dest")
    && Json.HasObject(v, "body")
    && Json.HasString(v.fields["body"], "type")
  }

  /** An id read from the body: absent, or present but not readable, gives the invalid id. */
  function IdField(body: Json.Value, key: string): (s: Snowflake)
    requires body.Obj?
    ensures key !in body.fields ==> s == Snowflakes.Invalid()
    ensures key in body.fields && Snowflakes.Decode(body.fields[key]).Some? ==> s == Snowflakes.Decode(body.fields[key]).value
    ensures key in body.fields && Snowflakes.Decode(body.fields[key]).None? ==> s == Snowflakes.Invalid()
  {
    if key in body.fields then Snowflakes.Decode(body.fields[key]).GetOr(Snowflakes.Invalid())
    else Snowflakes.Invalid()
  }

  /**
   * What from_json returns. It fails when a required field is missing or the
   * type name is unknown. Otherwise the addresses and the type come from the
   * tree, the ids from "msg_id" and "is_reply_to" (not "in_reply_to"), and the
   * body is the tree's body as it is: it replaces the body the constructor
   * built.
   */
  function Validated(v: Json.Value): (r: Option<Message>)
    ensures r.Some? <==> HasRequiredFields(v) && v.fields["body"].fields["type"].s in TypeNames
    ensures r.Some? ==> && r.value.from == v.fields["src"].s
                        && r.value.to == v.fields["dest"].s
                        && r.value.kind == TypeFromString(v.fields["body"].fields["type"].s)
                        && r.value.body == v.fields["body"]
                        && r.value.id == IdField(v.fields["body"], "msg_id")
                        && r.value.replyId == IdField(v.fields["body"], "is_reply_to")
  {
    if !HasRequiredFields(v) then None
    else
      var body := v.fields["body"];
      var kind := TypeFromString(body.fields["type"].s);
      if kind == Invalid then None
      else
        Some(Message(kind, IdField(body, "msg_id"), IdField(body, "is_reply_to"),
                     v.fields["src"].s, v.fields["dest"].s, body))
  }

  /**
   * Message::from_json. Every check runs and clears the flag before the
   * function gives up, so each missing field is logged; the ids are read
   * before the type is refused.
   */
  method FromJson(v: Json.Value) returns (r: Option<Message>)
    ensures r == Validated(v)
  {
    var requiredFieldsPresent := true;
    if !Json.HasString(v, "src") {
      requiredFieldsPresent := false;
    }
    if !Json.HasString(v, "dest") {
      requiredFieldsPresent := false;
    }
    if !Json.HasObject(v, "body") {
      requiredFieldsPresent := false;
    } else if !Json.HasString(v.fields["body"], "type") {
      requiredFieldsPresent := false;
    }
    if !requiredFieldsPresent {
      return None;
    }
    var body := v.fields["body"];
    var parsedType := TypeFromString(body.fields["type"].s);
    var msgId := Snowflakes.Invalid();
    if "msg_id" in body.fields {
      var read := Snowflakes.FromJson(body.fields["msg_id"]);
      msgId := read.GetOr(Snowflakes.Invalid());
    }
    var replyId := Snowflakes.Invalid();
    if "is_reply_to" in body.fields {
      var read := Snowflakes.FromJson(body.fields["is_reply_to"]);
      replyId := read.GetOr(Snowflakes.Invalid());
    }
    if parsedType == Invalid {
      return None;
    }
    var msg := New(parsedType, msgId, replyId, v.fields["src"].s, v.fields["dest"].s);
    msg := msg.(body := body);                                  // msg.body = json_msg["body"]
    return Some(msg);
  }

  // ---------------------------------------------------------------------------
  // Responses and the wire form

  /** The response type of create_response's switch; INVALID for every type but the three requests. */
  function ResponseType(t: MessageType): (r: MessageType)
    ensures t == InitReq <==> r == InitRes
    ensures t == EchoReq <==> r == EchoRes
    ensures t == GenerateReq <==> r == GenerateRes
    ensures r == Invalid <==> t !in {InitReq, EchoReq, GenerateReq}
  {
    match t
    case InitReq => InitRes
    case EchoReq => EchoRes
    case GenerateReq => GenerateRes
    case _ => Invalid
  }

  /**
   * create_response. The new id comes from generate_64; its random draw is
   * the parameter.
   */
  function CreateResponse(m: Message, draw: Snowflakes.uint64): (r: Message)
    ensures m.kind !in {InitReq, EchoReq, GenerateReq} ==> r == Default()
    ensures m.kind in {InitReq, EchoReq, GenerateReq} ==>
              && r.kind == ResponseType(m.kind)
              && r.from == m.to && r.to == m.from
              && r.replyId == m.id
              && r.id == Snowflakes.Generate64(draw)
              && ConsistentBody(r.body, r.kind, r.id, r.replyId)
  {
    var responseType := ResponseType(m.kind);
    if responseType == Invalid then Default()
    else Constructed(responseType, Snowflakes.Generate64(draw), m.id, m.to, m.from)
  }

  /** as_json: an object with exactly the keys src, dest and body. */
  function AsJson(m: Message): (j: Json.Value)
    ensures j.Obj? && j.fields.Keys == {"src", "dest", "body"}
    ensures j.fields["src"] == Json.Str(m.from) && j.fields["dest"] == Json.Str(m.to)
    ensures j.fields["body"] == m.body
  {
    Json.Obj(map["src" := Json.Str(m.from), "dest" := Json.Str(m.to), "body" := m.body])
  }

  /**
   * A constructed message read back from its JSON form keeps its type, id,
   * addresses and body but loses its reply id: the constructor writes
   * "in_reply_to" and from_json reads "is_reply_to".
   */
  lemma ConstructedRoundTrip(kind: MessageType, id: Snowflake, replyId: Snowflake, from: string, to: string)
    requires kind != Invalid
    ensures Validated(AsJson(Constructed(kind, id, replyId, from, to)))
            == Some(Constructed(kind, id, replyId, from, to).(replyId := Snowflakes.Invalid()))
  {
    TypeNameRoundTrip(kind);
    ConstructedIds(kind, id, replyId, from, to);
  }

  /** The ids from_json reads from a constructed body: the id, and no reply id. */
  lemma ConstructedIds(kind: MessageType, id: Snowflake, replyId: Snowflake, from: string, to: string)
    requires kind != Invalid
    ensures Constructed(kind, id, replyId, from, to).body.Obj?
    ensures IdField(Constructed(kind, id, replyId, from, to).body, "msg_id") == id
    ensures IdField(Constructed(kind, id, replyId, from, to).body, "is_reply_to") == Snowflakes.Invalid()
  {
    if id.IsValid() {
      Snowflakes.WireRoundTrip(id);
    }
  }

  /** So a valid reply id never survives the trip. */
  lemma ReplyIdLost(kind: MessageType, id: Snowflake, replyId: Snowflake, from: string, to: string)
    requires kind != Invalid && replyId.IsValid()
    ensures Validated(AsJson(Constructed(kind, id, replyId, from, to))).Some?
    ensures Validated(AsJson(Constructed(kind, id, replyId, from, to))).value.replyId != replyId
  {
    ConstructedRoundTrip(kind, id, replyId, from, to);
  }
}
