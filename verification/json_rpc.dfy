/** JSON-RPC 2.0 envelopes and newline framing (src/mcp/json_rpc.cpp). */
module JsonRpc {
  import opened Basics
  import opened JsonValue
  import opened JsonParser
  import opened JsonGrammar
  import opened JsonTheorems

  // ---- responses ----

  type i32 = n: int | -0x8000_0000 <= n < 0x8000_0000

  datatype RpcError = RpcError(code: i32, message: bytes, data: Option<Json>)

  datatype Response = Response(id: Json, result: Option<Json>, error: Option<RpcError>)

  function Success(id: Json, result: Json): Response {
    Response(id, Some(result), None)
  }

  function Failure(id: Json, code: i32, message: bytes, data: Option<Json>): Response {
    Response(id, None, Some(RpcError(code, message, data)))
  }

  const JSONRPC := Ascii("jsonrpc")
  const TWO := Ascii("2.0")
  const ID := Ascii("id")
  const RESULT := Ascii("result")
  const ERROR := Ascii("error")
  const CODE := Ascii("code")
  const MESSAGE := Ascii("message")
  const DATA := Ascii("data")
  const METHOD := Ascii("method")
  const PARAMS := Ascii("params")

  function ErrorMembers(e: RpcError): seq<Member> {
    var ms := Set(Set([], CODE, Integer(e.code)), MESSAGE, Str(e.message));
    if e.data.Some? then Set(ms, DATA, e.data.value) else ms
  }

  function Members(r: Response): seq<Member> {
    var ms := Set(Set([], JSONRPC, Str(TWO)), ID, r.id);
    var withResult := if r.result.Some? then Set(ms, RESULT, r.result.value) else ms;
    if r.error.Some? then Set(withResult, ERROR, Object(ErrorMembers(r.error.value))) else withResult
  }

  /** JsonRpcResponse::serialize */
  function Serialize(lib: FloatLib, r: Response): bytes {
    Text(lib, Object(Members(r)))
  }

  /** Its building steps, one set after another. */
  method SerializeResponse(lib: FloatLib, r: Response) returns (out: bytes)
    ensures out == Serialize(lib, r)
  {
    var ms := SetMember([], JSONRPC, Str(TWO));
    ms := SetMember(ms, ID, r.id);
    if r.result.Some? {
      ms := SetMember(ms, RESULT, r.result.value);
    }
    if r.error.Some? {
      var e := r.error.value;
      var es := SetMember([], CODE, Integer(e.code));
      es := SetMember(es, MESSAGE, Str(e.message));
      if e.data.Some? {
        es := SetMember(es, DATA, e.data.value);
      }
      ms := SetMember(ms, ERROR, Object(es));
    }
    out := SerializeValue(lib, Object(ms), []);
    assert [] + Text(lib, Object(ms)) == Text(lib, Object(ms));
  }

  lemma {:induction false} NamesDistinct()
    ensures JSONRPC != ID && RESULT != JSONRPC && RESULT != ID
    ensures ERROR != JSONRPC && ERROR != ID && ERROR != RESULT
    ensures CODE != MESSAGE && DATA != CODE && DATA != MESSAGE
    ensures METHOD != JSONRPC && METHOD != ID && PARAMS != JSONRPC && PARAMS != ID && PARAMS != METHOD
  {
    assert |JSONRPC| == 7 && |ID| == 2 && |RESULT| == 6 && |ERROR| == 5;
    assert |CODE| == 4 && |MESSAGE| == 7 && |DATA| == 4 && |METHOD| == 6 && |PARAMS| == 6;
    assert CODE[0] == 99 && DATA[0] == 100 && METHOD[0] == 109 && PARAMS[0] == 112;
  }

  predicate Portable(v: Json) { DoubleFree(v) && WellBuilt(v) }

  predicate PortableResponse(r: Response) {
    && Portable(r.id)
    && (r.result.Some? ==> Portable(r.result.value))
    && (r.error.Some? && r.error.value.data.Some? ==> Portable(r.error.value.data.value))
  }

  predicate PortableMembers(ms: seq<Member>) {
    Distinct(ms) && forall i :: 0 <= i < |ms| ==> Portable(ms[i].value)
  }

  lemma {:induction false} SetPortable(ms: seq<Member>, key: bytes, value: Json)
    requires PortableMembers(ms) && Portable(value)
    ensures PortableMembers(Set(ms, key, value))
  {
    hide Portable;
    SetSemantics(ms, key, value);
    var out := Set(ms, key, value);
    forall i | 0 <= i < |out| ensures Portable(out[i].value) {
      assert i < |ms| && ms[i].key != key ==> out[i] == ms[i];
    }
  }

  lemma {:induction false} ErrorPortable(e: RpcError)
    requires e.data.Some? ==> Portable(e.data.value)
    ensures Portable(Object(ErrorMembers(e)))
  {
    hide Set;
    SetPortable([], CODE, Integer(e.code));
    var one := Set([], CODE, Integer(e.code));
    SetPortable(one, MESSAGE, Str(e.message));
    if e.data.Some? {
      SetPortable(Set(one, MESSAGE, Str(e.message)), DATA, e.data.value);
    }
  }

  lemma {:induction false} EnvelopePortable(r: Response)
    requires PortableResponse(r)
    ensures Portable(Object(Members(r)))
  {
    hide Set, ErrorMembers;
    SetPortable([], JSONRPC, Str(TWO));
    var one := Set([], JSONRPC, Str(TWO));
    SetPortable(one, ID, r.id);
    var ms := Set(one, ID, r.id);
    if r.result.Some? {
      SetPortable(ms, RESULT, r.result.value);
      ms := Set(ms, RESULT, r.result.value);
    }
    if r.error.Some? {
      ErrorPortable(r.error.value);
      SetPortable(ms, ERROR, Object(ErrorMembers(r.error.value)));
    }
  }

  /** A serialized response parses back to an envelope with version "2.0", the same id and
      exactly one of result and error, each with its own contents (JSON-RPC 2.0 section 5). */
  lemma {:induction false} ResponseReparses(lib: FloatLib, r: Response)
    requires PortableResponse(r) && (r.result.Some? <==> r.error.None?)
    ensures var parsed := Parse(lib, Serialize(lib, r));
            parsed.Good? && parsed.value.Object? && HoldsEnvelope(parsed.value.members, r)
  {
    EnvelopePortable(r);
    JsonRoundTrip(lib, Object(Members(r)));
    hide Parse, Serialize;
    EnvelopeHeld(r);
  }

  ghost predicate HoldsEnvelope(ms: seq<Member>, r: Response) {
    && Get(ms, Ascii("jsonrpc")) == Some(Str(Ascii("2.0"))) && Get(ms, Ascii("id")) == Some(r.id)
    && Get(ms, Ascii("result")) == r.result
    && (Get(ms, Ascii("error")).Some? <==> r.error.Some?)
    && (r.error.Some? ==> exists es :: Get(ms, Ascii("error")) == Some(Object(es)) && HoldsError(es, r.error.value))
  }

  predicate HoldsError(es: seq<Member>, e: RpcError) {
    && Get(es, Ascii("code")) == Some(Integer(e.code)) && Get(es, Ascii("message")) == Some(Str(e.message))
    && Get(es, Ascii("data")) == e.data
  }

  lemma {:induction false} EnvelopeHeld(r: Response)
    ensures HoldsEnvelope(Members(r), r)
  {
    EnvelopeLookUps(r);
    if r.error.Some? {
      ErrorLookUps(r.error.value);
      hide Get, Members, ErrorMembers;
      assert HoldsError(ErrorMembers(r.error.value), r.error.value);
    }
    hide Get, Members, ErrorMembers, HoldsError;
  }

  lemma {:induction false} EnvelopeLookUps(r: Response)
    ensures Get(Members(r), JSONRPC) == Some(Str(TWO)) && Get(Members(r), ID) == Some(r.id)
    ensures Get(Members(r), RESULT) == r.result
    ensures Get(Members(r), ERROR) == if r.error.Some? then Some(Object(ErrorMembers(r.error.value))) else None
  {
    NamesDistinct();
    hide Set, ErrorMembers;
    assert forall k :: Get([], k) == None;
    hide Get;
    var one := Set([], JSONRPC, Str(TWO));
    var two := Set(one, ID, r.id);
    forall k | k in {JSONRPC, ID, RESULT, ERROR}
      ensures Get(two, k) == if k == ID then Some(r.id) else if k == JSONRPC then Some(Str(TWO)) else None
    {
      GetAfterSet([], JSONRPC, Str(TWO), k);
      GetAfterSet(one, ID, r.id, k);
    }
    var ms := two;
    if r.result.Some? {
      forall k | k in {JSONRPC, ID, RESULT, ERROR}
        ensures Get(Set(two, RESULT, r.result.value), k) == if k == RESULT then r.result else Get(two, k)
      {
        GetAfterSet(two, RESULT, r.result.value, k);
      }
      ms := Set(two, RESULT, r.result.value);
    }
    if r.error.Some? {
      forall k | k in {JSONRPC, ID, RESULT, ERROR} {
        GetAfterSet(ms, ERROR, Object(ErrorMembers(r.error.value)), k);
      }
    }
  }

  lemma {:induction false} ErrorLookUps(e: RpcError)
    ensures Get(ErrorMembers(e), CODE) == Some(Integer(e.code))
    ensures Get(ErrorMembers(e), MESSAGE) == Some(Str(e.message))
    ensures Get(ErrorMembers(e), DATA) == e.data
  {
    NamesDistinct();
    hide Set;
    assert forall k :: Get([], k) == None;
    hide Get;
    var one := Set([], CODE, Integer(e.code));
    var two := Set(one, MESSAGE, Str(e.message));
    forall k | k in {CODE, MESSAGE, DATA}
      ensures Get(two, k)
           == if k == MESSAGE then Some(Str(e.message)) else if k == CODE then Some(Integer(e.code)) else None
    {
      GetAfterSet([], CODE, Integer(e.code), k);
      GetAfterSet(one, MESSAGE, Str(e.message), k);
    }
    if e.data.Some? {
      forall k | k in {CODE, MESSAGE, DATA} {
        GetAfterSet(two, DATA, e.data.value, k);
      }
    }
  }

  // ---- newline framing ----

  const NEWLINE: byte := 10

  predicate NoControl(s: bytes) {
    forall i :: 0 <= i < |s| ==> s[i] >= 0x20
  }

  ghost predicate PrintsNoControl(lib: FloatLib) {
    forall bits :: NoControl(lib.format(bits))
  }

  lemma {:induction false} EscapedNoControl(s: bytes)
    ensures NoControl(Escaped(s))
  {
    if s != [] { EscapedNoControl(s[1..]); }
  }

  /** serialize never emits a byte below 0x20, for any value whatever. */
  lemma {:induction false} TextNoControl(lib: FloatLib, v: Json)
    requires PrintsNoControl(lib)
    ensures NoControl(Text(lib, v))
    decreases v
  {
    hide NoControl, MembersText, ElementsText;
    match v
    case Object(members) =>
      MembersNoControl(lib, members);
      EnclosedNoControl(OPEN_BRACE, MembersText(lib, members), CLOSE_BRACE);
    case Array(elements) =>
      ElementsNoControl(lib, elements);
      EnclosedNoControl(OPEN_BRACKET, ElementsText(lib, elements), CLOSE_BRACKET);
    case _ =>
      ScalarNoControl(lib, v);
  }

  lemma {:induction false} EnclosedNoControl(open: byte, inner: bytes, close: byte)
    requires open >= 0x20 && close >= 0x20 && NoControl(inner)
    ensures NoControl([open] + inner + [close])
  {
  }

  lemma {:induction false} ScalarNoControl(lib: FloatLib, v: Json)
    requires PrintsNoControl(lib) && !v.Object? && !v.Array?
    ensures NoControl(Text(lib, v))
  {
    hide Escaped;
    match v
    case Str(s) => EscapedNoControl(s);
    case _ =>
  }

  lemma {:induction false} MembersNoControl(lib: FloatLib, ms: seq<Member>)
    requires PrintsNoControl(lib)
    ensures NoControl(MembersText(lib, ms))
    decreases ms
  {
    if ms != [] {
      EscapedNoControl(ms[0].key);
      TextNoControl(lib, ms[0].value);
      MembersNoControl(lib, ms[1..]);
    }
  }

  lemma {:induction false} ElementsNoControl(lib: FloatLib, vs: seq<Json>)
    requires PrintsNoControl(lib)
    ensures NoControl(ElementsText(lib, vs))
    decreases vs
  {
    if vs != [] {
      TextNoControl(lib, vs[0]);
      ElementsNoControl(lib, vs[1..]);
    }
  }

  /** Messages as written to the stream, each ended by a newline. */
  function Lines(messages: seq<bytes>): bytes {
    if messages == [] then [] else messages[0] + [NEWLINE] + Lines(messages[1..])
  }

  /** A line-by-line reader; text behind the last newline is not a line yet. */
  function SplitLines(s: bytes, line: bytes): seq<bytes>
    decreases |s|
  {
    if s == [] then []
    else if s[0] == NEWLINE then [line] + SplitLines(s[1..], [])
    else SplitLines(s[1..], line + [s[0]])
  }

  lemma {:induction false} SplitOne(message: bytes, rest: bytes, line: bytes)
    requires forall i :: 0 <= i < |message| ==> message[i] != NEWLINE
    ensures SplitLines(message + [NEWLINE] + rest, line) == [line + message] + SplitLines(rest, [])
    decreases |message|
  {
    var s := message + [NEWLINE] + rest;
    if message == [] {
      assert s[1..] == rest;
      assert line + message == line;
    } else {
      assert s[1..] == message[1..] + [NEWLINE] + rest;
      SplitOne(message[1..], rest, line + [message[0]]);
      assert line + [message[0]] + message[1..] == line + message;
    }
  }

  function SerializeAll(lib: FloatLib, rs: seq<Response>): seq<bytes> {
    if rs == [] then [] else [Serialize(lib, rs[0])] + SerializeAll(lib, rs[1..])
  }

  /** Line framing: splitting the written stream on newlines recovers exactly the messages. */
  lemma {:induction false} LineFraming(lib: FloatLib, rs: seq<Response>)
    requires PrintsNoControl(lib)
    ensures SplitLines(Lines(SerializeAll(lib, rs)), []) == SerializeAll(lib, rs)
  {
    if rs != [] {
      var first, rest := Serialize(lib, rs[0]), SerializeAll(lib, rs[1..]);
      TextNoControl(lib, Object(Members(rs[0])));
      assert SerializeAll(lib, rs)[1..] == rest;
      SplitOne(first, Lines(rest), []);
      assert [] + first == first;
      LineFraming(lib, rs[1..]);
    }
  }

  // ---- requests ----

  datatype Request = Request(rpcMethod: bytes, id: Json, params: Json)

  datatype Reason = BadJson(problem: Problem) | NotAnObject | BadVersion | BadMethod | BadId | BadParams

  datatype Verdict = Accepted(request: Request) | Rejected(reason: Reason)

  predicate ValidId(v: Json) { v.Null? || v.Str? || v.Integer? || v.Double? }

  predicate ValidParams(v: Json) { v.Object? || v.Array? }

  /** JsonRpcParser::parseRequest */
  function ParseRequest(lib: FloatLib, text: bytes): Verdict {
    match Parse(lib, text)
    case Fault(_, problem) => Rejected(BadJson(problem))
    case Good(root, _) =>
      if !root.Object? then Rejected(NotAnObject)
      else
        var ms := root.members;
        if Get(ms, JSONRPC) != Some(Str(TWO)) then Rejected(BadVersion)
        else if Get(ms, METHOD).None? || !Get(ms, METHOD).value.Str? then Rejected(BadMethod)
        else if Get(ms, ID).Some? && !ValidId(Get(ms, ID).value) then Rejected(BadId)
        else if Get(ms, PARAMS).Some? && !ValidParams(Get(ms, PARAMS).value) then Rejected(BadParams)
        else
          Accepted(Request(Get(ms, METHOD).value.s,
                           if Get(ms, ID).Some? then Get(ms, ID).value else Null,
                           if Get(ms, PARAMS).Some? then Get(ms, PARAMS).value else Null))
  }

  /** An object that stands for a request: the four known members hold it, in any order and
      among any others; a missing id or params is null. */
  predicate Denotes(ms: seq<Member>, r: Request) {
    && Get(ms, Ascii("jsonrpc")) == Some(Str(Ascii("2.0")))
    && Get(ms, Ascii("method")) == Some(Str(r.rpcMethod))
    && (r.id.Null? || r.id.Str? || r.id.Integer? || r.id.Double?)
    && (Get(ms, Ascii("id")) == Some(r.id) || (Get(ms, Ascii("id")) == None && r.id == Null))
    && (if Get(ms, Ascii("params")) == None then r.params == Null
        else Get(ms, Ascii("params")) == Some(r.params) && (r.params.Object? || r.params.Array?))
  }

  /** The requests accepted are exactly the renderings, in any spacing and escaping, of objects
      that stand for them. */
  lemma {:induction false} AcceptedRequests(lib: FloatLib, text: bytes, r: Request)
    ensures ParseRequest(lib, text) == Accepted(r)
            <==> exists before, d, after :: Blank(before) && Valid(d) && Reads(lib, d, after) && Blank(after)
                   && text == before + DocText(d) + after && Value(d).Object? && Denotes(Value(d).members, r)
  {
    hide Parse, Denotes, Get;
    if ParseRequest(lib, text) == Accepted(r) {
      var before, d, after := ParseSound(lib, text);
      AcceptedDenotes(lib, text, r);
    }
    if before, d, after :| Blank(before) && Valid(d) && Reads(lib, d, after) && Blank(after)
                           && text == before + DocText(d) + after && Value(d).Object? && Denotes(Value(d).members, r) {
      ParseAcceptsGrammar(lib, before, d, after);
      DenotedAccepted(lib, text, Value(d).members, r);
    }
  }

  lemma {:induction false} AcceptedDenotes(lib: FloatLib, text: bytes, r: Request)
    requires ParseRequest(lib, text) == Accepted(r)
    ensures Parse(lib, text).Good? && Parse(lib, text).value.Object? && Denotes(Parse(lib, text).value.members, r)
  {
    hide Parse, Get;
  }

  lemma {:induction false} DenotedAccepted(lib: FloatLib, text: bytes, ms: seq<Member>, r: Request)
    requires Parse(lib, text) == Good(Object(ms), []) && Denotes(ms, r)
    ensures ParseRequest(lib, text) == Accepted(r)
  {
    hide Parse, Get;
  }
}
