/** From the calls of a client to the answers of the server: what RpcClient::call puts on the
    wire (src/rpc/rpc_client.cpp), taken through the server's parser, queue and workers
    (src/rpc/rpc_server.cpp). */
module Calls {
  import opened Basics
  import opened Metadata
  import opened RpcMessage
  import F = Frames
  import S = RequestStream
  import D = Dispatch
  import Client

  /** The arguments of one call, with the id and the deadline text it was given. */
  datatype Call = Call(id: u64, service: bytes, rpcMethod: bytes, options: Meta, body: bytes, deadlineText: bytes)

  ghost function FrameOf(call: Call): F.Frame {
    Client.CallFrame(call.id, call.service, call.rpcMethod, call.options, call.body, call.deadlineText)
  }

  /** What the client checks before it sends: a target, and a frame within the limits. */
  ghost predicate Sendable(call: Call) {
    call.service != [] && call.rpcMethod != [] && F.ValidFrame(FrameOf(call))
  }

  ghost predicate AllSendable(calls: seq<Call>) {
    forall i :: 0 <= i < |calls| ==> Sendable(calls[i])
  }

  ghost function WrittenFor(calls: seq<Call>): bytes {
    if calls == [] then [] else F.FrameBytes(FrameOf(calls[0])) + WrittenFor(calls[1..])
  }

  /** The request the server is to make of a call. */
  predicate Carried(request: Request, call: Call) {
    && request.service == call.service && request.rpcMethod == call.rpcMethod
    && request.body == call.body && request.requestId == call.id
    && Overlaid(request.metadata, call)
  }

  /** The caller's metadata, under the three keys the client sets. */
  predicate Overlaid(m: Meta, call: Call) {
    && m.Keys == call.options.Keys + {Ascii("nexus.service"), Ascii("nexus.method"), Ascii("deadline_unix_ms")}
    && m[Ascii("nexus.service")] == call.service && m[Ascii("nexus.method")] == call.rpcMethod
    && m[Ascii("deadline_unix_ms")] == call.deadlineText
    && forall k <- call.options ::
         k != Ascii("nexus.service") && k != Ascii("nexus.method") && k != Ascii("deadline_unix_ms")
         ==> m[k] == call.options[k]
  }

  /** The events are the calls, one dispatched request each, in order. */
  ghost predicate Arrive(events: seq<S.Event>, calls: seq<Call>) {
    && |events| == |calls|
    && forall i :: 0 <= i < |calls| ==> events[i].Dispatch? && Carried(events[i].request, calls[i])
  }

  lemma {:induction false} CallCarried(call: Call)
    requires Sendable(call)
    ensures S.Callable(FrameOf(call)) && S.NamesTarget(FrameOf(call).metadata)
    ensures Carried(S.RequestOf(FrameOf(call)), call)
  {
    KeysDistinct();
    var f := FrameOf(call);
    hide F.ValidFrame;
    assert S.NamesTarget(f.metadata);
    assert Overlaid(f.metadata, call);
  }

  /** The calls as frames. */
  lemma {:induction false} CallsAreFrames(calls: seq<Call>) returns (frames: seq<F.Frame>)
    requires AllSendable(calls)
    ensures S.AllCallable(frames) && S.Wire(frames) == WrittenFor(calls) && Arrive(S.Dispatches(frames), calls)
  {
    hide F.FrameBytes, S.Callable, S.NamesTarget, Carried, FrameOf, Sendable, S.RequestOf;
    if calls == [] {
      frames := [];
    } else {
      assert Sendable(calls[0]);
      CallCarried(calls[0]);
      var later := CallsAreFrames(calls[1..]);
      frames := [FrameOf(calls[0])] + later;
      assert frames[1..] == later;
      assert forall i :: 0 < i < |frames| ==> frames[i] == later[i - 1];
      var events := S.Dispatches(later);
      assert S.Dispatches(frames) == [S.Dispatch(S.RequestOf(FrameOf(calls[0])))] + events;
      assert forall i :: 0 < i < |calls| ==> calls[i] == calls[1..][i - 1];
    }
  }

  /** From the client's bytes to the server's requests: the calls written on a connection and
      whatever follows them, cut anyhow, are dispatched as exactly those calls, in order, with
      the service, method, metadata, body and id that the client gave them. */
  lemma {:induction false} CallsArrive(calls: seq<Call>, tail: bytes, refused: seq<u64>, chunks: seq<bytes>)
    requires AllSendable(calls) && S.Ends(tail, refused)
    requires Flatten(chunks) == WrittenFor(calls) + tail
    ensures var t := S.Session(F.FRESH, chunks);
            && |t.events| == |calls| + |refused|
            && Arrive(t.events[..|calls|], calls) && t.events[|calls|..] == S.Refusals(refused)
            && t.outcome != S.Broken
            && (S.Unfinished(tail) ==> t.parser.Ready() && t.parser.Leftover() == tail)
            && (!S.Unfinished(tail) ==> S.Dead(t.parser))
  {
    hide S.Session, S.Ends, S.Unfinished, S.Dead, S.Refusals, WrittenFor, S.Wire, S.Dispatches, Carried;
    RefusalsCount(refused);
    var frames := CallsAreFrames(calls);
    S.ExactlyTheRequestsSent(frames, tail, refused, chunks);
    var t := S.Session(F.FRESH, chunks);
    assert t.events[..|calls|] == S.Dispatches(frames);
  }

  lemma {:induction false} RefusalsCount(refused: seq<u64>)
    ensures |S.Refusals(refused)| == |refused|
    ensures EventIds(S.Refusals(refused)) == refused
  {
    if refused != [] {
      RefusalsCount(refused[1..]);
      assert S.Refusals(refused)[1..] == S.Refusals(refused[1..]);
      assert [refused[0]] + refused[1..] == refused;
    }
  }

  // ---- the ids that come back ----

  function CallIds(calls: seq<Call>): seq<u64> {
    if calls == [] then [] else [calls[0].id] + CallIds(calls[1..])
  }

  /** The ids in the events: of the request dispatched, or of the frame refused. */
  function EventIds(events: seq<S.Event>): seq<u64> {
    if events == [] then []
    else [if events[0].Dispatch? then events[0].request.requestId else events[0].requestId] + EventIds(events[1..])
  }

  /** The ids of all responses handed to connection c. */
  function ReplyIds(rs: seq<D.Reply>, c: nat): seq<u64> {
    if rs == [] then [] else (if rs[0].conn == c then [rs[0].requestId] else []) + ReplyIds(rs[1..], c)
  }

  lemma {:induction false} ArriveIds(events: seq<S.Event>, calls: seq<Call>)
    requires Arrive(events, calls)
    ensures EventIds(events) == CallIds(calls)
  {
    if calls != [] {
      assert Carried(events[0].request, calls[0]);
      assert forall i :: 0 <= i < |calls[1..]| ==> events[1..][i] == events[i + 1] && calls[1..][i] == calls[i + 1];
      hide Carried;
      ArriveIds(events[1..], calls[1..]);
    }
  }

  lemma {:induction false} EventIdsAppend(a: seq<S.Event>, b: seq<S.Event>)
    ensures EventIds(a + b) == EventIds(a) + EventIds(b)
  {
    if a == [] {
      assert a + b == b;
    } else {
      assert (a + b)[1..] == a[1..] + b;
      EventIdsAppend(a[1..], b);
    }
  }

  /** The arrivals that a list of replies answers. */
  function Answered(rs: seq<D.Reply>): seq<D.Arrival> {
    if rs == [] then [] else [rs[0].to] + Answered(rs[1..])
  }

  lemma {:induction false} AnsweredCounts(rs: seq<D.Reply>, a: D.Arrival)
    ensures D.AnswersTo(rs, a) == multiset(Answered(rs))[a]
  {
    if rs != [] {
      AnsweredCounts(rs[1..], a);
    }
  }

  lemma {:induction false} OccursCounts(q: seq<D.Arrival>, a: D.Arrival)
    ensures D.Occurs(q, a) == multiset(q)[a]
  {
    if q != [] {
      OccursCounts(q[1..], a);
      assert q == [q[0]] + q[1..];
    }
  }

  lemma {:induction false} OwnIds(rs: seq<D.Reply>, c: nat)
    requires forall i :: 0 <= i < |rs| ==> D.OwnReply(rs[i])
    ensures ReplyIds(rs, c) == EventIds(D.EventsOn(Answered(rs), c))
  {
    if rs != [] {
      assert D.OwnReply(rs[0]);
      assert forall i :: 0 <= i < |rs[1..]| ==> rs[1..][i] == rs[i + 1];
      OwnIds(rs[1..], c);
      var later := Answered(rs[1..]);
      assert Answered(rs)[1..] == later;
      EventIdsAppend(if rs[0].to.conn == c then [rs[0].to.event] else [], D.EventsOn(later, c));
    }
  }

  lemma {:induction false} EventsAppend(a: seq<D.Arrival>, b: seq<D.Arrival>, c: nat)
    ensures D.EventsOn(a + b, c) == D.EventsOn(a, c) + D.EventsOn(b, c)
  {
    if a == [] {
      assert a + b == b;
    } else {
      assert (a + b)[1..] == a[1..] + b;
      EventsAppend(a[1..], b, c);
      D.JoinEvents(if a[0].conn == c then [a[0].event] else [], D.EventsOn(a[1..], c), D.EventsOn(b, c));
    }
  }

  /** The ids on one connection depend only on which arrivals there are, not on their order. */
  lemma {:induction false} SameIds(xs: seq<D.Arrival>, ys: seq<D.Arrival>, c: nat)
    requires multiset(xs) == multiset(ys)
    ensures multiset(EventIds(D.EventsOn(xs, c))) == multiset(EventIds(D.EventsOn(ys, c)))
    decreases |xs|
  {
    if xs == [] {
      NoneThere(ys);
    } else {
      var x := xs[0];
      assert x in multiset(xs);
      var j :| 0 <= j < |ys| && ys[j] == x;
      var before, after := ys[..j], ys[j + 1..];
      assert ys == before + ([x] + after);
      assert xs == [x] + xs[1..];
      WithoutOne(x, xs[1..], before, after);
      SameIds(xs[1..], before + after, c);
      MoveToFront(before, x, after, c);
      IdsFrom(x, xs[1..], c);
    }
  }

  lemma {:induction false} WithoutOne(x: D.Arrival, xs: seq<D.Arrival>, before: seq<D.Arrival>, after: seq<D.Arrival>)
    requires multiset([x] + xs) == multiset(before + ([x] + after))
    ensures multiset(xs) == multiset(before + after)
  {
    assert multiset([x] + xs) == multiset{x} + multiset(xs);
    assert multiset(before + ([x] + after)) == multiset(before) + (multiset{x} + multiset(after));
    assert multiset(before + after) == multiset(before) + multiset(after);
    assert multiset(xs) == multiset([x] + xs) - multiset{x};
  }

  lemma {:induction false} NoneThere(ys: seq<D.Arrival>)
    requires multiset(ys) == multiset{}
    ensures ys == []
  {
    assert |multiset(ys)| == |ys|;
  }

  function IdOn(x: D.Arrival, c: nat): seq<u64> {
    if x.conn == c then EventIds([x.event]) else []
  }

  lemma {:induction false} IdsFrom(x: D.Arrival, xs: seq<D.Arrival>, c: nat)
    ensures EventIds(D.EventsOn([x] + xs, c)) == IdOn(x, c) + EventIds(D.EventsOn(xs, c))
  {
    assert ([x] + xs)[1..] == xs;
    EventIdsAppend(if x.conn == c then [x.event] else [], D.EventsOn(xs, c));
  }

  lemma {:induction false} MoveToFront(before: seq<D.Arrival>, x: D.Arrival, after: seq<D.Arrival>, c: nat)
    ensures multiset(EventIds(D.EventsOn(before + ([x] + after), c)))
         == multiset(IdOn(x, c)) + multiset(EventIds(D.EventsOn(before + after, c)))
  {
    EventsAppend(before, [x] + after, c);
    EventsAppend(before, after, c);
    IdsFrom(x, after, c);
    EventIdsAppend(D.EventsOn(before, c), D.EventsOn([x] + after, c));
    EventIdsAppend(D.EventsOn(before, c), D.EventsOn(after, c));
  }

  /** When nothing is queued or in hand, what has been answered is what has arrived. */
  lemma {:induction false} QuietBalance(s: D.Server)
    requires D.Conserved(s) && D.Quiet(s)
    ensures multiset(Answered(s.replies)) == multiset(s.arrived)
  {
    forall a: D.Arrival ensures multiset(Answered(s.replies))[a] == multiset(s.arrived)[a] {
      AnsweredCounts(s.replies, a);
      OccursCounts(s.arrived, a);
      D.NoneBusy(s.workers, a);
      assert D.Occurs(s.queue, a) == 0 && D.InHand(s.io, a) == 0;
    }
  }

  /** End to end, from calls to answers: however TCP cut what a client wrote on connection c,
      and however the threads interleaved, the requests that arrived are its calls, in order;
      and in every quiet state the ids of the responses handed to c are the ids that the client
      put into its headers, each as often as it was put there, and none else. */
  lemma {:induction false} EveryCallIsAnswered(workerCount: nat, es: seq<D.Event>, c: nat, calls: seq<Call>,
                                               tail: bytes, refused: seq<u64>)
    requires workerCount > 0 && D.Legal(D.Initial(workerCount), es)
    requires AllSendable(calls) && S.Ends(tail, refused)
    requires Flatten(D.ChunksOf(D.Run(D.Initial(workerCount), es), c)) == WrittenFor(calls) + tail
    requires D.Quiet(D.Run(D.Initial(workerCount), es))
    ensures var s := D.Run(D.Initial(workerCount), es);
            var events := D.EventsOn(s.arrived, c);
            && |events| == |calls| + |refused|
            && Arrive(events[..|calls|], calls) && events[|calls|..] == S.Refusals(refused)
            && multiset(ReplyIds(s.replies, c)) == multiset(CallIds(calls)) + multiset(refused)
  {
    var s := D.Run(D.Initial(workerCount), es);
    var events := D.EventsOn(s.arrived, c);
    D.InitialHolds(workerCount);
    D.RunKeeps(D.Initial(workerCount), es);
    InvariantGives(s);
    hide *;
    var frames := CallsAreFrames(calls);
    D.EndToEnd(workerCount, es, c, frames, tail, refused, 0);
    var sent := S.Dispatches(frames);
    RefusalsCount(refused);
    ArriveLength(sent, calls);
    assert events[..|calls|] == sent && events[|calls|..] == S.Refusals(refused);
    ArriveIds(sent, calls);
    EventIdsAppend(sent, S.Refusals(refused));
    QuietBalance(s);
    SameIds(Answered(s.replies), s.arrived, c);
    OwnIds(s.replies, c);
  }

  lemma {:induction false} ArriveLength(events: seq<S.Event>, calls: seq<Call>)
    requires Arrive(events, calls)
    ensures |events| == |calls|
  {
  }

  lemma {:induction false} InvariantGives(s: D.Server)
    requires D.Invariant(s)
    ensures D.Conserved(s)
    ensures forall i :: 0 <= i < |s.replies| ==> D.OwnReply(s.replies[i])
  {
    hide D.Conserved;
  }
}
