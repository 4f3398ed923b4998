/** From TCP chunks to dispatched requests: RpcServer::Impl::onMessage (src/rpc/rpc_server.cpp). */
module RequestStream {
  import opened Basics
  import W = Wire
  import opened Metadata
  import opened Frames
  import opened RpcMessage

  /** What one connection makes of the frames it receives. */
  datatype Event =
    | Dispatch(request: Request)          // handed on to the in-flight limit and the queue
    | RejectTarget(requestId: u64)        // answered kInvalidArgument, then half-closed

  /** How one onMessage call ends. Broken stands for W.Undefined: nothing is claimed after it. */
  datatype Outcome = Open | HalfClosed | Closed | Broken

  /** The server closes the connection, or its own half of it. */
  predicate Shuts(o: Outcome) { o == HalfClosed || o == Closed }

  datatype Class = NotRequest | NoTarget | Target(request: Request)

  function Classify(f: Frame): Class {
    if f.msgType != W.REQUEST then NotRequest
    else if SERVICE_KEY !in f.metadata || METHOD_KEY !in f.metadata
            || f.metadata[SERVICE_KEY] == [] || f.metadata[METHOD_KEY] == [] then NoTarget
    else Target(Request(f.metadata[SERVICE_KEY], f.metadata[METHOD_KEY], f.metadata, f.body, f.requestId))
  }

  function AfterFeed(r: W.ParseResult): Outcome {
    match r
    case Ok | NeedMoreData => Open
    case Undefined => Broken
    case _ => Closed
  }

  // ---- specification of onMessage ----

  datatype Turn = Turn(parser: Parser, events: seq<Event>, outcome: Outcome)

  /** The while loop of onMessage. */
  function Pump(p: Parser): (t: Turn)
    requires p.Valid()
    ensures t.parser.Valid()
    decreases |p.buffer| + if p.complete then 1 else 0
  {
    if !p.complete then Turn(p, [], Open)
    else
      match Classify(p.Taken())
      case NotRequest => Turn(p, [], Closed)
      case NoTarget => Turn(p, [RejectTarget(p.header.requestId)], HalfClosed)
      case Target(request) =>
        var (r, q) := FeedResult(ResetResult(p), []);
        if AfterFeed(r) != Open then Turn(q, [Dispatch(request)], AfterFeed(r))
        else
          var t := Pump(q);
          t.(events := [Dispatch(request)] + t.events)
  }

  function OnMessageTurn(p: Parser, chunk: bytes): (t: Turn)
    requires p.Valid()
    ensures t.parser.Valid()
  {
    var (r, q) := FeedResult(p, chunk);
    if AfterFeed(r) != Open then Turn(q, [], AfterFeed(r)) else Pump(q)
  }

  /** Every chunk the read loop delivers, including those that still arrive after the
      connection has been told to close. */
  function Session(p: Parser, chunks: seq<bytes>): Turn
    requires p.Valid()
    decreases |chunks|
  {
    if chunks == [] then Turn(p, [], Open)
    else
      var t := OnMessageTurn(p, chunks[0]);
      if t.outcome == Broken then t
      else
        var u := Session(t.parser, chunks[1..]);
        u.(events := t.events + u.events)
  }

  /** The metadata names a service and a method. */
  predicate NamesTarget(m: Meta) {
    && Ascii("nexus.service") in m && m[Ascii("nexus.service")] != []
    && Ascii("nexus.method") in m && m[Ascii("nexus.method")] != []
  }

  /** The request in a frame that does: all of it, under the id in the header. */
  function RequestOf(f: Frame): Request
    requires NamesTarget(f.metadata)
  {
    Request(f.metadata[Ascii("nexus.service")], f.metadata[Ascii("nexus.method")], f.metadata, f.body, f.requestId)
  }

  /** The checks onMessage makes on a complete frame before it takes the frame's request. */
  method Inspect(parser: FrameParser) returns (c: Class)
    ensures c == Classify(parser.View().Taken())
    ensures c.NotRequest? <==> parser.header.msgType != 0
    ensures c.Target? <==> parser.header.msgType == 0 && NamesTarget(parser.metadata)
    ensures c.Target?
            ==> c.request == RequestOf(parser.View().Taken()) && c.request.requestId == parser.header.requestId
  {
    if parser.header.msgType != W.REQUEST { return NotRequest; }
    var m := parser.metadata;
    if SERVICE_KEY !in m || METHOD_KEY !in m || m[SERVICE_KEY] == [] || m[METHOD_KEY] == [] { return NoTarget; }
    c := Target(Request(m[SERVICE_KEY], m[METHOD_KEY], m, parser.body, parser.header.requestId));
  }

  /** onMessage as the source runs it; known tells whether the connection is in the server's
      table. One that is not is closed, with its bytes left where they are. */
  method OnMessage(parser: FrameParser, chunk: bytes, known: bool) returns (events: seq<Event>, outcome: Outcome)
    requires parser.View().Valid()
    modifies parser
    ensures Turn(parser.View(), events, outcome)
         == if known then OnMessageTurn(old(parser.View()), chunk) else Turn(old(parser.View()), [], Closed)
  {
    if !known { return [], Closed; }
    events, outcome := TakeRequests(parser, chunk);
  }

  /** onMessage behind the look-up: feed, then take one request after another. */
  method TakeRequests(parser: FrameParser, chunk: bytes) returns (events: seq<Event>, outcome: Outcome)
    requires parser.View().Valid()
    modifies parser
    ensures Turn(parser.View(), events, outcome) == OnMessageTurn(old(parser.View()), chunk)
  {
    hide Classify, FeedResult, NamesTarget, RequestOf, Pump;
    events := [];
    var r := parser.Feed(chunk);
    outcome := AfterFeed(r);
    if outcome != Open { return; }
    ghost var entry := Pump(parser.View());
    while parser.complete
      invariant parser.View().Valid()
      invariant outcome == Open
      invariant var t := Pump(parser.View()); entry == t.(events := events + t.events)
      decreases |parser.buffer| + if parser.complete then 1 else 0
    {
      var c := Inspect(parser);
      PumpUnfolds(parser.View());
      if c == NotRequest { return events, Closed; }
      if c == NoTarget { return events + [RejectTarget(parser.header.requestId)], HalfClosed; }
      ghost var before := events;
      events := events + [Dispatch(c.request)];
      parser.Reset();
      FeedShrinks(parser.View(), []);
      r := parser.Feed([]);
      outcome := AfterFeed(r);
      if outcome != Open { return; }
      ghost var rest := Pump(parser.View()).events;
      assert before + ([Dispatch(c.request)] + rest) == events + rest;
    }
    PumpUnfolds(parser.View());
  }

  lemma {:induction false} PumpUnfolds(p: Parser)
    requires p.Valid()
    ensures !p.complete ==> Pump(p) == Turn(p, [], Open)
    ensures p.complete ==>
              match Classify(p.Taken())
              case NotRequest => Pump(p) == Turn(p, [], Closed)
              case NoTarget => Pump(p) == Turn(p, [RejectTarget(p.header.requestId)], HalfClosed)
              case Target(request) =>
                var (r, q) := FeedResult(ResetResult(p), []);
                if AfterFeed(r) != Open then Pump(p) == Turn(q, [Dispatch(request)], AfterFeed(r))
                else Pump(p) == Pump(q).(events := [Dispatch(request)] + Pump(q).events)
  {
    hide Classify, FeedResult;
  }

  lemma {:induction false} FeedShrinks(p: Parser, data: bytes)
    requires p.Valid() && p.state == NeedHeader
    ensures var q := FeedResult(p, data).1;
            q.Valid() && |q.buffer| + (if q.complete then W.HEADER_SIZE else 0) <= |p.buffer| + |data|
  {
  }

  // ---- the reference reading of a whole stream ----

  datatype Reading = Reading(events: seq<Event>, leftover: bytes, end: Outcome)

  /** What the bytes say, however they are delivered. */
  function Requests(s: bytes): Reading
    decreases |s|
  {
    match ParseFrame(s)
    case Need => Reading([], s, Open)
    case Bad(why) => Reading([], s, AfterFeed(why))
    case Got(f, rest) =>
      match Classify(f)
      case NotRequest => Reading([], s, Closed)
      case NoTarget => Reading([RejectTarget(f.requestId)], s, HalfClosed)
      case Target(request) =>
        var r := Requests(rest);
        r.(events := [Dispatch(request)] + r.events)
  }

  /** The reading of a prefix is a prefix of the reading. */
  lemma {:induction false} RequestsSplit(a: bytes, b: bytes)
    ensures Requests(a).end == Broken ==> Requests(a + b).end == Broken
    ensures Shuts(Requests(a).end)
            ==> Requests(a + b).end == Requests(a).end && Requests(a + b).events == Requests(a).events
    ensures Requests(a).end == Open ==>
              var r := Requests(Requests(a).leftover + b);
              Requests(a + b) == r.(events := Requests(a).events + r.events)
    decreases |a|
  {
    hide ParseFrame, Classify;
    match ParseFrame(a)
    case Need =>
    case Bad(why) =>
      ParseFrameExtends(a, b);
    case Got(f, rest) =>
      ParseFrameExtends(a, b);
      if Classify(f).Target? {
        RequestsSplit(rest, b);
        var d := [Dispatch(Classify(f).request)];
        assert forall x, y :: (d + x) + y == d + (x + y);
      }
  }

  /** The connection will never dispatch anything again. */
  ghost predicate Dead(p: Parser) {
    p.Valid() && (p.complete || exists why :: Stuck(p, why))
  }

  lemma {:induction false} DeadForever(p: Parser, chunk: bytes)
    requires Dead(p)
    ensures var t := OnMessageTurn(p, chunk); t.events == [] && t.outcome == Closed && Dead(t.parser)
  {
    if !p.complete {
      var why :| Stuck(p, why);
      StuckForever(p, why, chunk);
    }
  }

  /** One onMessage call does what the reference reading of leftover + chunk says. */
  ghost predicate Follows(t: Turn, r: Reading) {
    && t.outcome == r.end
    && t.events == r.events
    && t.parser.Valid()
    && (r.end == Open ==> t.parser.Ready() && t.parser.Leftover() == r.leftover)
    && (Shuts(r.end) ==> Dead(t.parser))
  }

  lemma {:induction false} PumpFollows(p: Parser)
    requires p.Valid() && p.complete
    requires Classify(p.Taken()).Target? ==> Requests(p.buffer).end != Broken
    ensures match Classify(p.Taken())
            case NotRequest => Follows(Pump(p), Reading([], [], Closed))
            case NoTarget => Follows(Pump(p), Reading([RejectTarget(p.header.requestId)], [], HalfClosed))
            case Target(request) =>
              Follows(Pump(p), Requests(p.buffer).(events := [Dispatch(request)] + Requests(p.buffer).events))
    decreases |p.buffer|
  {
    hide ParseFrame, Classify, Advance;
    var reset := ResetResult(p);
    if Classify(p.Taken()).Target? {
      FeedMatches(reset, []);
      assert reset.Leftover() + [] == p.buffer;
      var (r, q) := FeedResult(reset, []);
      match ParseFrame(p.buffer)
      case Need =>
        assert Pump(q) == Turn(q, [], Open);
      case Bad(why) =>
        assert Stuck(q, why);
      case Got(f, rest) =>
        PumpFollows(q);
    }
  }

  lemma {:induction false} OnMessageFollows(p: Parser, chunk: bytes)
    requires p.Ready() && Requests(p.Leftover() + chunk).end != Broken
    ensures Follows(OnMessageTurn(p, chunk), Requests(p.Leftover() + chunk).(leftover :=
              if Requests(p.Leftover() + chunk).end == Open then Requests(p.Leftover() + chunk).leftover else []))
  {
    hide ParseFrame, Classify, Advance;
    FeedMatches(p, chunk);
    var (r, q) := FeedResult(p, chunk);
    match ParseFrame(p.Leftover() + chunk)
    case Need =>
      assert Pump(q) == Turn(q, [], Open);
    case Bad(why) =>
      assert Stuck(q, why);
    case Got(f, rest) =>
      PumpFollows(q);
  }

  lemma {:induction false} DeadSession(p: Parser, chunks: seq<bytes>)
    requires Dead(p)
    ensures var t := Session(p, chunks); t.events == [] && t.outcome != Broken && Dead(t.parser)
    decreases |chunks|
  {
    hide OnMessageTurn;
    if chunks != [] {
      DeadForever(p, chunks[0]);
      DeadSession(OnMessageTurn(p, chunks[0]).parser, chunks[1..]);
    }
  }

  lemma {:induction false} LeftoverNeedsMore(s: bytes)
    requires Requests(s).end == Open
    ensures ParseFrame(Requests(s).leftover) == Need
    decreases |s|
  {
    hide ParseFrame, Classify;
    var step := ParseFrame(s);
    if step.Got? { LeftoverNeedsMore(step.rest); }
  }

  lemma {:induction false} SessionTurn(p: Parser, chunks: seq<bytes>)
    requires p.Valid() && chunks != [] && OnMessageTurn(p, chunks[0]).outcome != Broken
    ensures var t := OnMessageTurn(p, chunks[0]);
            var u := Session(t.parser, chunks[1..]);
            Session(p, chunks) == u.(events := t.events + u.events)
  {
    hide OnMessageTurn;
  }

  /** Segmentation independence, for every byte stream and every way of cutting it: the
      events are those of the reference reading. In particular nothing that arrives after
      the first error, foreign frame or targetless request is ever dispatched. */
  lemma {:induction false} SegmentationIndependence(p: Parser, chunks: seq<bytes>)
    requires p.Ready() && ParseFrame(p.Leftover()) == Need
    requires Requests(p.Leftover() + Flatten(chunks)).end != Broken
    ensures Agrees(Session(p, chunks), Requests(p.Leftover() + Flatten(chunks)))
    decreases |chunks|
  {
    if chunks == [] {
      assert p.Leftover() + Flatten(chunks) == p.Leftover();
    } else {
      var a, b := p.Leftover() + chunks[0], Flatten(chunks[1..]);
      assert p.Leftover() + Flatten(chunks) == a + b;
      RequestsSplit(a, b);
      FirstChunk(p, chunks);
      var q := OnMessageTurn(p, chunks[0]).parser;
      hide Session, Flatten, OnMessageTurn, Requests, ParseFrame, Agrees;
      if Requests(a).end == Open {
        SegmentationIndependence(q, chunks[1..]);
        AgreesOn(Session(q, chunks[1..]), Requests(q.Leftover() + b), Requests(a).events);
      } else {
        DeadAgrees(q, chunks[1..], Requests(a).events, Requests(a + b));
      }
    }
  }

  /** A session does what the reading of its bytes says. */
  ghost predicate Agrees(t: Turn, r: Reading) {
    && t.events == r.events
    && t.outcome != Broken
    && (r.end == Open ==> t.parser.Ready() && t.parser.Leftover() == r.leftover)
    && (Shuts(r.end) ==> Dead(t.parser))
  }

  /** The first chunk's turn, and what the session makes of the others behind it. */
  lemma {:induction false} FirstChunk(p: Parser, chunks: seq<bytes>)
    requires p.Ready() && chunks != []
    requires Requests(p.Leftover() + chunks[0]).end != Broken
    ensures var t, a := OnMessageTurn(p, chunks[0]), Requests(p.Leftover() + chunks[0]);
            && t.events == a.events
            && (a.end == Open ==> t.parser.Ready() && t.parser.Leftover() == a.leftover
                                  && ParseFrame(t.parser.Leftover()) == Need)
            && (Shuts(a.end) ==> Dead(t.parser))
            && t.parser.Valid()
            && var u := Session(t.parser, chunks[1..]);
               Session(p, chunks) == u.(events := a.events + u.events)
  {
    OnMessageFollows(p, chunks[0]);
    hide OnMessageTurn, Requests, ParseFrame, Dead;
    SessionTurn(p, chunks);
    hide Session;
    if Requests(p.Leftover() + chunks[0]).end == Open {
      LeftoverNeedsMore(p.Leftover() + chunks[0]);
    }
  }

  lemma {:induction false} AgreesOn(t: Turn, r: Reading, before: seq<Event>)
    requires Agrees(t, r)
    ensures Agrees(t.(events := before + t.events), r.(events := before + r.events))
  {
    hide Dead;
  }

  lemma {:induction false} DeadAgrees(p: Parser, chunks: seq<bytes>, before: seq<Event>, r: Reading)
    requires Dead(p) && Shuts(r.end) && r.events == before
    ensures var u := Session(p, chunks); Agrees(u.(events := before + u.events), r)
  {
    hide Session, Dead;
    DeadSession(p, chunks);
    assert before + [] == before;
  }

  // ---- the streams excluded ----

  /** Where an undefined reading breaks off: whole frames, then exactly one offending frame. */
  lemma {:induction false} BreaksAt(s: bytes) returns (i: nat, j: nat)
    requires Requests(s).end == Broken
    ensures i <= j <= |s| && WholeFrames(s[..i])
    ensures ParseFrame(s[i..j]) == Bad(W.Undefined) && j - i == W.ReadHeader(s[i..j]).totalLength
    decreases |s|
  {
    hide W.ReadHeader, ParseFrame, Classify;
    match ParseFrame(s)
    case Bad(why) =>
      OffendingFrame(s);
      hide Requests;
      i, j := 0, W.ReadHeader(s).totalLength;
      assert s[0..j] == s[..j] && s[..0] == [];
      FreshNeedsMore();
      NothingRead();
    case Got(f, rest) =>
      assert Requests(rest).end == Broken;
      var k := |s| - |rest|;
      RestIsSuffix(s);
      var i', j' := BreaksAt(rest);
      hide Requests;
      FrameAlone(s, rest[..i']);
      i, j := k + i', k + j';
      assert rest[i'..j'] == s[i..j] && s[..k] + rest[..i'] == s[..i];
  }

  /** Bytes that are read as whole requests, with nothing left over. */
  ghost predicate WholeFrames(s: bytes) {
    Requests(s).end == Open && Requests(s).leftover == []
  }

  lemma {:induction false} NothingRead()
    ensures WholeFrames([])
  {
  }

  lemma {:induction false} RestIsSuffix(s: bytes)
    requires ParseFrame(s).Got?
    ensures ParseFrame(s).rest == s[|s| - |ParseFrame(s).rest|..]
  {
    hide W.ReadHeader, W.ValidateHeader, DecodeEntries;
  }

  /** An undefined frame is undefined on its own. */
  lemma {:induction false} OffendingFrame(s: bytes)
    requires ParseFrame(s) == Bad(W.Undefined)
    ensures |s| >= W.HEADER_SIZE
    ensures var n := W.ReadHeader(s).totalLength;
            W.HEADER_SIZE <= n <= |s| && ParseFrame(s[..n]) == Bad(W.Undefined) && W.ReadHeader(s[..n]).totalLength == n
  {
    hide W.ReadHeader, W.ValidateHeader, Overhangs, ParseFrame;
    UndefinedExactly(s);
    var n := W.ReadHeader(s).totalLength;
    assert s[..n] + s[n..] == s;
    ReadHeaderPrefix(s[..n], s[n..]);
    assert s[..n][W.HEADER_SIZE..n] == s[W.HEADER_SIZE..n];
    UndefinedExactly(s[..n]);
  }

  /** A frame that is read leads on to whatever is put behind it. */
  lemma {:induction false} FrameAlone(s: bytes, t: bytes)
    requires ParseFrame(s).Got? && Classify(ParseFrame(s).frame).Target?
    ensures WholeFrames(t) ==> WholeFrames(s[..|s| - |ParseFrame(s).rest|] + t)
  {
    FrameByItself(s);
    hide *;
    if WholeFrames(t) {
      HeadThen(s[..|s| - |ParseFrame(s).rest|], ParseFrame(s).frame, t);
    }
  }

  lemma {:induction false} HeadThen(head: bytes, f: Frame, t: bytes)
    requires ParseFrame(head) == Got(f, []) && Classify(f).Target? && WholeFrames(t)
    ensures WholeFrames(head + t)
  {
    hide ParseFrame, Classify, Requests, WholeFrames;
    ParseFrameExtends(head, t);
    assert [] + t == t;
    OneRequest(head + t);
  }

  lemma {:induction false} OneRequest(s: bytes)
    requires ParseFrame(s).Got? && Classify(ParseFrame(s).frame).Target?
    ensures WholeFrames(s) <==> WholeFrames(ParseFrame(s).rest)
  {
    hide ParseFrame, Classify;
  }

  /** A parser at a frame boundary that is given exactly an undefined frame leaves its bytes. */
  lemma {:induction false} BrokenTurn(p: Parser, f: bytes)
    requires p.Ready() && p.Leftover() == []
    requires ParseFrame(f) == Bad(W.Undefined) && |f| == W.ReadHeader(f).totalLength
    ensures OnMessageTurn(p, f).outcome == Broken
  {
    hide FeedResult, W.ReadHeader, ParseFrame, Pump;
    FeedUndefined(p, f);
  }

  /** The exclusion is exact: a stream's reading is undefined if and only if some way of
      cutting it makes a decode leave the bytes received. */
  lemma {:induction false} UndefinedForSomeCut(s: bytes)
    ensures (forall chunks | Flatten(chunks) == s :: Session(FRESH, chunks).outcome != Broken)
            <==> Requests(s).end != Broken
  {
    hide Session, Requests, ParseFrame;
    if Requests(s).end != Broken {
      forall chunks | Flatten(chunks) == s ensures Session(FRESH, chunks).outcome != Broken {
        FreshNeedsMore();
        assert FRESH.Leftover() + Flatten(chunks) == s;
        SegmentationIndependence(FRESH, chunks);
      }
    } else {
      var chunks := BreakingCut(s);
      assert Flatten(chunks) == s && Session(FRESH, chunks).outcome == Broken;
    }
  }

  lemma {:induction false} BreakingCut(s: bytes) returns (chunks: seq<bytes>)
    requires Requests(s).end == Broken
    ensures Flatten(chunks) == s && Session(FRESH, chunks).outcome == Broken
  {
    var i, j := BreaksAt(s);
    hide *;
    var before, f, after := CutInThree(s, i, j);
    CutAround(before, f, after);
    chunks := [before, f, after];
  }

  lemma {:induction false} CutAround(before: bytes, f: bytes, after: bytes)
    requires WholeFrames(before)
    requires ParseFrame(f) == Bad(W.Undefined) && |f| == W.ReadHeader(f).totalLength
    ensures Session(FRESH, [before, f, after]).outcome == Broken
  {
    hide *;
    WholeThenUndefined(before, f);
    ThirdUnread(before, f, after);
  }

  lemma {:induction false} WholeThenUndefined(before: bytes, f: bytes)
    requires WholeFrames(before)
    requires ParseFrame(f) == Bad(W.Undefined) && |f| == W.ReadHeader(f).totalLength
    ensures OnMessageTurn(FRESH, before).outcome == Open
    ensures OnMessageTurn(OnMessageTurn(FRESH, before).parser, f).outcome == Broken
  {
    hide Requests, ParseFrame, OnMessageTurn, W.ReadHeader;
    FreshNeedsMore();
    assert FRESH.Leftover() + before == before;
    OnMessageFollows(FRESH, before);
    BrokenTurn(OnMessageTurn(FRESH, before).parser, f);
  }

  lemma {:induction false} CutInThree(s: bytes, i: nat, j: nat) returns (before: bytes, f: bytes, after: bytes)
    requires i <= j <= |s|
    ensures before == s[..i] && f == s[i..j] && after == s[j..]
    ensures Flatten([before, f, after]) == s
  {
    before, f, after := s[..i], s[i..j], s[j..];
    assert [before, f, after][1..] == [f, after] && [f, after][1..] == [after] && [after][1..] == [];
    assert Flatten([after]) == after + Flatten([]) && after + [] == after;
    assert Flatten([f, after]) == f + Flatten([after]);
    assert before + (f + after) == s;
  }

  lemma {:induction false} ThirdUnread(a: bytes, b: bytes, c: bytes)
    requires OnMessageTurn(FRESH, a).outcome == Open
    requires OnMessageTurn(OnMessageTurn(FRESH, a).parser, b).outcome == Broken
    ensures Session(FRESH, [a, b, c]).outcome == Broken
  {
    hide OnMessageTurn;
    assert [a, b, c][1..] == [b, c];
    assert Session(OnMessageTurn(FRESH, a).parser, [b, c]).outcome == Broken;
  }

  // ---- well-formed traffic ----

  /** A frame some client sends: encodable, a request, and naming its target. */
  ghost predicate Callable(f: Frame) {
    ValidFrame(f) && f.msgType == 0 && NamesTarget(f.metadata)
  }

  ghost predicate AllCallable(frames: seq<Frame>) {
    forall i :: 0 <= i < |frames| ==> Callable(frames[i])
  }

  ghost function Wire(frames: seq<Frame>): bytes {
    if frames == [] then [] else FrameBytes(frames[0]) + Wire(frames[1..])
  }

  ghost function Dispatches(frames: seq<Frame>): seq<Event>
    requires AllCallable(frames)
  {
    if frames == [] then []
    else
      assert Callable(frames[0]);
      [Dispatch(RequestOf(frames[0]))] + Dispatches(frames[1..])
  }

  /** What one frame at the head of a stream does, by its type and its target. */
  lemma {:induction false} FrameReads(f: Frame, rest: bytes)
    requires ValidFrame(f)
    ensures var s := FrameBytes(f) + rest;
            Requests(s) == if f.msgType != 0 then Reading([], s, Closed)
                           else if !NamesTarget(f.metadata) then Reading([RejectTarget(f.requestId)], s, HalfClosed)
                           else Requests(rest).(events := [Dispatch(RequestOf(f))] + Requests(rest).events)
  {
    FrameRoundTrip(f, rest);
    hide ParseFrame, FrameBytes, ValidFrame;
  }

  // ---- what may follow the calls ----

  /** Part of a frame, none of it missing but the end. */
  ghost predicate Unfinished(tail: bytes) {
    exists f, n :: ValidFrame(f) && 0 <= n < |FrameBytes(f)| && tail == FrameBytes(f)[..n]
  }

  /** A block that no frame within the limits starts with; or metadata that does not parse. */
  ghost predicate Garbage(tail: bytes) {
    (|tail| >= 32 && !W.EmittedBlock(tail[..32])) || ParseFrame(tail) == Bad(W.MetadataParseError)
  }

  /** A frame that is no request, and anything behind it. */
  ghost predicate Foreign(tail: bytes) {
    exists f, later :: ValidFrame(f) && f.msgType != 0 && tail == FrameBytes(f) + later
  }

  /** A request with this id that names no target, and anything behind it. */
  ghost predicate Targetless(tail: bytes, id: u64) {
    exists f, later ::
      ValidFrame(f) && f.msgType == 0 && !NamesTarget(f.metadata) && f.requestId == id && tail == FrameBytes(f) + later
  }

  /** The tail of a stream: more to come, or the end of all dispatching. refused holds the id
      that is answered kInvalidArgument, if any. */
  ghost predicate Ends(tail: bytes, refused: seq<u64>) {
    || (refused == [] && (Unfinished(tail) || Garbage(tail) || Foreign(tail)))
    || (|refused| == 1 && Targetless(tail, refused[0]))
  }

  function Refusals(refused: seq<u64>): seq<Event> {
    if refused == [] then [] else [RejectTarget(refused[0])] + Refusals(refused[1..])
  }

  lemma {:induction false} UnfinishedReads(tail: bytes)
    requires Unfinished(tail)
    ensures Requests(tail) == Reading([], tail, Open)
  {
    var f, n :| ValidFrame(f) && 0 <= n < |FrameBytes(f)| && tail == FrameBytes(f)[..n];
    PrefixNeedsMore(f, n);
    hide ParseFrame, FrameBytes, ValidFrame;
  }

  lemma {:induction false} GarbageReads(tail: bytes)
    requires Garbage(tail)
    ensures Requests(tail) == Reading([], tail, Closed)
  {
    if |tail| >= 32 && !W.EmittedBlock(tail[..32]) {
      W.AcceptsExactlyTheEmitted(tail[..32]);
      ReadHeaderPrefix(tail[..32], tail[32..]);
      hide W.ReadHeader, W.ValidateHeader, W.EmittedBlock, DecodeEntries;
      assert tail[..32] + tail[32..] == tail;
      var why := W.ValidateHeader(W.ReadHeader(tail));
      assert ParseFrame(tail) == Bad(why) && AfterFeed(why) == Closed;
    }
    hide ParseFrame;
  }

  /** In particular a block of another protocol, version, type or encoding. */
  lemma {:induction false} OtherBlocksAreGarbage(tail: bytes)
    requires |tail| >= 32 && !W.OurBlock(tail)
    ensures Garbage(tail)
  {
    W.OtherBlocksRefused(tail);
    W.AcceptsExactlyTheEmitted(tail[..32]);
    ReadHeaderPrefix(tail[..32], tail[32..]);
    hide W.ReadHeader, W.ValidateHeader, W.EmittedBlock, W.OurBlock, ParseFrame;
    assert tail[..32] + tail[32..] == tail;
  }

  lemma {:induction false} ForeignReads(tail: bytes)
    requires Foreign(tail)
    ensures Requests(tail) == Reading([], tail, Closed)
  {
    hide Requests, FrameBytes, ValidFrame;
    var f, later :| ValidFrame(f) && f.msgType != 0 && tail == FrameBytes(f) + later;
    FrameReads(f, later);
  }

  lemma {:induction false} TargetlessReads(tail: bytes, id: u64)
    requires Targetless(tail, id)
    ensures Requests(tail) == Reading([RejectTarget(id)], tail, HalfClosed)
  {
    hide Requests, FrameBytes, ValidFrame, NamesTarget;
    var f, later :| ValidFrame(f) && f.msgType == 0 && !NamesTarget(f.metadata) && f.requestId == id
                    && tail == FrameBytes(f) + later;
    FrameReads(f, later);
  }

  lemma {:induction false} TailReads(tail: bytes, refused: seq<u64>)
    requires Ends(tail, refused)
    ensures Requests(tail)
         == Reading(Refusals(refused), tail,
                    if Unfinished(tail) then Open else if refused == [] then Closed else HalfClosed)
  {
    hide Requests, Unfinished, Garbage, Foreign, Targetless;
    if Unfinished(tail) { UnfinishedReads(tail); }
    if Garbage(tail) { GarbageReads(tail); }
    if Foreign(tail) { ForeignReads(tail); }
    if |refused| == 1 {
      TargetlessReads(tail, refused[0]);
      assert refused[1..] == [] && [RejectTarget(refused[0])] + [] == [RejectTarget(refused[0])];
    }
  }

  /** End to end: whatever calls were encoded and whatever follows them, and however TCP cut the
      bytes, exactly those requests are dispatched, in order, each with the service, method,
      metadata, body and id of its frame. Part of a frame is kept; anything else that is no
      call stops the dispatching for good, a request without target being answered first. */
  lemma {:induction false} ExactlyTheRequestsSent(frames: seq<Frame>, tail: bytes, refused: seq<u64>,
                                                  chunks: seq<bytes>)
    requires AllCallable(frames) && Ends(tail, refused)
    requires Flatten(chunks) == Wire(frames) + tail
    ensures var t := Session(FRESH, chunks);
            && t.events == Dispatches(frames) + Refusals(refused)
            && t.outcome != Broken
            && if Unfinished(tail) then t.parser.Ready() && t.parser.Leftover() == tail else Dead(t.parser)
  {
    hide Session, ParseFrame, Dispatches, Requests, Dead, Ends, Unfinished, Refusals, AllCallable, Wire, Agrees;
    WireReadsThen(frames, tail);
    TailReads(tail, refused);
    FreshSession(chunks);
    AgreesIs(Session(FRESH, chunks), Requests(Flatten(chunks)));
  }

  lemma {:induction false} FreshSession(chunks: seq<bytes>)
    requires Requests(Flatten(chunks)).end != Broken
    ensures Agrees(Session(FRESH, chunks), Requests(Flatten(chunks)))
  {
    FreshNeedsMore();
    hide Session, ParseFrame, Requests, Agrees;
    assert FRESH.Leftover() + Flatten(chunks) == Flatten(chunks);
    SegmentationIndependence(FRESH, chunks);
  }

  lemma {:induction false} AgreesIs(t: Turn, r: Reading)
    requires Agrees(t, r)
    ensures t.events == r.events && t.outcome != Broken
    ensures r.end == Open ==> t.parser.Ready() && t.parser.Leftover() == r.leftover
    ensures Shuts(r.end) ==> Dead(t.parser)
  {
    hide Dead;
  }

  lemma {:induction false} FreshNeedsMore()
    ensures FRESH.Ready() && FRESH.Leftover() == [] && ParseFrame([]) == Need
  {
  }

  /** After the first bad frame, later bytes dispatch nothing, whatever they are and however
      the stream is cut. */
  lemma {:induction false} PoisonedConnection(frames: seq<Frame>, bad: bytes, later: bytes, chunks: seq<bytes>)
    requires AllCallable(frames)
    requires Shuts(Requests(bad).end)
    requires Flatten(chunks) == Wire(frames) + bad + later
    ensures Session(FRESH, chunks).events == Dispatches(frames) + Requests(bad).events
    ensures Dead(Session(FRESH, chunks).parser)
  {
    hide Requests, ParseFrame, Dead, Session, Dispatches, AllCallable, Wire, Agrees;
    WireReadsThen(frames, bad + later);
    RequestsSplit(bad, later);
    assert Wire(frames) + bad + later == Wire(frames) + (bad + later);
    FreshSession(chunks);
    AgreesIs(Session(FRESH, chunks), Requests(Flatten(chunks)));
  }

  lemma {:induction false} WireReadsThen(frames: seq<Frame>, tail: bytes)
    requires AllCallable(frames)
    ensures Requests(Wire(frames) + tail) == Requests(tail).(events := Dispatches(frames) + Requests(tail).events)
    decreases |frames|
  {
    hide ParseFrame, Classify, FrameBytes, ValidFrame, Requests, RequestOf, NamesTarget;
    if frames == [] {
      assert Wire(frames) + tail == tail;
      assert Dispatches(frames) == [];
    } else {
      assert Callable(frames[0]);
      var rest := Wire(frames[1..]) + tail;
      assert Wire(frames) + tail == FrameBytes(frames[0]) + rest;
      FrameReads(frames[0], rest);
      WireReadsThen(frames[1..], tail);
      var d := [Dispatch(RequestOf(frames[0]))];
      assert Dispatches(frames) + Requests(tail).events == d + (Dispatches(frames[1..]) + Requests(tail).events);
    }
  }
}
