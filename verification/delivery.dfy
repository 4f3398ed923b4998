/** From answers to the client's side of the wire: the response frames a server sends on a
    connection, through its output path, read back on the other end (src/rpc/rpc_server.cpp,
    src/net/tcp_connection.cpp, src/rpc/frame_codec.cpp). */
module Delivery {
  import opened Basics
  import opened Frames
  import opened RpcMessage
  import opened ResponseFrame
  import W = Wire
  import C = Connection
  import D = Dispatch

  /** The frames whole in s, in order. */
  function Received(s: bytes): seq<Frame>
    decreases |s|
  {
    match ParseFrame(s)
    case Got(f, rest) => [f] + Received(rest)
    case _ => []
  }

  /** m is what makeResponseFrame emits for one of these requests. */
  ghost predicate IsAnswer(m: bytes, ids: set<u64>) {
    exists id, r :: id in ids && m == FrameBytes(ResponseFrameOf(id, r))
  }

  ghost predicate AllAnswers(ms: seq<bytes>, ids: set<u64>) {
    forall i :: 0 <= i < |ms| ==> IsAnswer(ms[i], ids)
  }

  /** f is the frame in m: a response to one of the requests, with a status that decodes. */
  ghost predicate Delivers(f: Frame, m: bytes, ids: set<u64>) {
    && ValidFrame(f) && FrameBytes(f) == m
    && f.msgType == W.RESPONSE && f.requestId in ids && DecodeStatus(f.metadata).Some?
  }

  lemma {:induction false} AnswerIsFrame(m: bytes, ids: set<u64>) returns (f: Frame)
    requires IsAnswer(m, ids)
    ensures Delivers(f, m, ids)
  {
    var id, r :| id in ids && m == FrameBytes(ResponseFrameOf(id, r));
    f := ResponseFrameOf(id, r);
    ResponseEndToEnd(id, r, []);
  }

  /** The bytes of a run of answers, cut off anywhere, read as the answers wholly before the
      cut, in order; uncut, as all of them. */
  lemma {:induction false} PrefixReads(ms: seq<bytes>, ids: set<u64>, s: bytes)
    requires AllAnswers(ms, ids) && s <= Flatten(ms)
    ensures |Received(s)| <= |ms|
    ensures forall i :: 0 <= i < |Received(s)| ==> Delivers(Received(s)[i], ms[i], ids)
    ensures s == Flatten(ms) ==> |Received(s)| == |ms|
    decreases |ms|
  {
    hide ParseFrame, FrameBytes, DecodeStatus, IsAnswer;
    if ms == [] {
      NothingReceived();
    } else {
      assert IsAnswer(ms[0], ids);
      var f := AnswerIsFrame(ms[0], ids);
      var later := Flatten(ms[1..]);
      assert Flatten(ms) == ms[0] + later;
      FrameLength(f);
      if |s| < |ms[0]| {
        assert s == ms[0][..|s|];
        PrefixNeedsMore(f, |s|);
      } else {
        var rest := s[|ms[0]|..];
        assert s == ms[0] + rest && rest <= later;
        FrameRoundTrip(f, rest);
        assert AllAnswers(ms[1..], ids);
        PrefixReads(ms[1..], ids, rest);
        OneReceived(s, f, rest);
      }
    }
  }

  lemma {:induction false} NothingReceived()
    ensures Received([]) == []
  {
  }

  lemma {:induction false} OneReceived(s: bytes, f: Frame, rest: bytes)
    requires ParseFrame(s) == Got(f, rest)
    ensures Received(s) == [f] + Received(rest)
  {
    hide ParseFrame;
  }

  lemma {:induction false} FrameLength(f: Frame)
    requires ValidFrame(f)
    ensures |FrameBytes(f)| >= W.HEADER_SIZE
  {
  }

  predicate Increasing(picks: seq<nat>) {
    forall i, j :: 0 <= i < j < |picks| ==> picks[i] < picks[j]
  }

  /** ms with the picked ones of sent behind it. */
  ghost predicate Picked(out: seq<bytes>, ms: seq<bytes>, sent: seq<bytes>, picks: seq<nat>) {
    && Increasing(picks) && |out| == |ms| + |picks|
    && (forall i :: 0 <= i < |ms| ==> out[i] == ms[i])
    && (forall i :: 0 <= i < |picks| ==> picks[i] < |sent| && out[|ms| + i] == sent[picks[i]])
  }

  /** What is accepted is picked from what was sent, in the order sent and each message once. */
  lemma {:induction false} AcceptedWereSent(c: C.Conn, es: seq<C.Event>) returns (picks: seq<nat>)
    ensures Picked(C.Run(c, es).accepted, c.accepted, C.Sent(es), picks)
    decreases |es|
  {
    if es == [] {
      picks := [];
    } else {
      var d := C.Step(c, es[0]);
      var head: seq<bytes> := if es[0].DoSend? then [es[0].data] else [];
      var taken := if d.accepted == c.accepted then [] else head;
      AcceptedStep(c, es[0]);
      hide C.Step;
      assert d.accepted == c.accepted + taken;
      var later := AcceptedWereSent(d, es[1..]);
      picks := PickOn(C.Run(d, es[1..]).accepted, c.accepted, head, taken, C.Sent(es[1..]), later);
    }
  }

  /** One more message at the front, taken or not. */
  lemma {:induction false} PickOn(out: seq<bytes>, ms: seq<bytes>, head: seq<bytes>, taken: seq<bytes>,
                                  sent: seq<bytes>, later: seq<nat>)
    returns (picks: seq<nat>)
    requires |head| <= 1 && (taken == [] || taken == head)
    requires Picked(out, ms + taken, sent, later)
    ensures Picked(out, ms, head + sent, picks)
  {
    var shifted := Shifted(later, |head|);
    forall i | 0 <= i < |sent| ensures (head + sent)[i + |head|] == sent[i] {
    }
    if taken == [] {
      picks := shifted;
      assert ms + taken == ms;
    } else {
      picks := [0] + shifted;
      PickedTail(out, ms, head[0], sent, later);
    }
  }

  function Shifted(picks: seq<nat>, n: nat): seq<nat> {
    seq(|picks|, i requires 0 <= i < |picks| => picks[i] + n)
  }

  lemma {:induction false} PickedTail(out: seq<bytes>, ms: seq<bytes>, first: bytes, sent: seq<bytes>, later: seq<nat>)
    requires Picked(out, ms + [first], sent, later)
    ensures Picked(out, ms, [first] + sent, [0] + Shifted(later, 1))
  {
    var picks, all := [0] + Shifted(later, 1), [first] + sent;
    assert out[|ms|] == (ms + [first])[|ms|] == first;
    forall i | 0 < i < |picks| ensures picks[i] == later[i - 1] + 1 && out[|ms| + i] == all[picks[i]] {
      assert out[|ms + [first]| + (i - 1)] == sent[later[i - 1]];
    }
    forall i | 0 <= i < |ms| ensures out[i] == ms[i] {
      assert out[i] == (ms + [first])[i];
    }
  }

  lemma {:induction false} AcceptedStep(c: C.Conn, e: C.Event)
    ensures var d := C.Step(c, e);
            d.accepted == c.accepted || (e.DoSend? && d.accepted == c.accepted + [e.data])
  {
    if e.DoWrite? {
      C.FlushKeeps(c, e.ws);
    }
    hide C.FlushOut;
  }

  /** Whatever the socket does with partial writes, refusals and half-closes, the client reads,
      in order and without loss, the answers the connection accepted: at any moment the first
      so many of them, and all of them once the output buffer is empty. Each is a response
      with the id of a request of this connection and a status it can decode. */
  lemma {:induction false} AnswersReachTheClient(es: seq<C.Event>, ids: set<u64>)
    requires C.Legal(C.INITIAL, es) && AllAnswers(C.Sent(es), ids)
    ensures var c := C.Run(C.INITIAL, es);
            var got := Received(c.wire);
            && |got| <= |c.accepted|
            && (forall i :: 0 <= i < |got| ==> Delivers(got[i], c.accepted[i], ids))
            && (c.out == [] ==> |got| == |c.accepted|)
  {
    hide *;
    var c := C.Run(C.INITIAL, es);
    C.StreamIntegrity(es);
    var picks := AcceptedWereSent(C.INITIAL, es);
    NothingAccepted();
    PickedAnswers(c.accepted, C.Sent(es), picks, ids);
    assert c.wire <= c.wire + c.out;
    assert c.out == [] ==> c.wire + c.out == c.wire;
    PrefixReads(c.accepted, ids, c.wire);
  }

  lemma {:induction false} NothingAccepted()
    ensures C.INITIAL.accepted == []
  {
  }

  lemma {:induction false} PickedAnswers(ms: seq<bytes>, sent: seq<bytes>, picks: seq<nat>, ids: set<u64>)
    requires Picked(ms, [], sent, picks) && AllAnswers(sent, ids)
    ensures AllAnswers(ms, ids)
  {
    hide IsAnswer;
    var none: seq<bytes> := [];
    forall i | 0 <= i < |ms| ensures IsAnswer(ms[i], ids) {
      assert ms[|none| + i] == sent[picks[i]];
    }
  }

  // ---- the server's replies ----

  /** The ids of the requests that have arrived on connection c. */
  function IdsOn(arrived: seq<D.Arrival>, c: nat): set<u64> {
    set i | 0 <= i < |arrived| && arrived[i].conn == c :: D.RequestId(arrived[i].event)
  }

  lemma {:induction false} AnswersCount(rs: seq<D.Reply>, k: nat)
    requires k < |rs|
    ensures D.AnswersTo(rs, rs[k].to) > 0
  {
    if k > 0 { AnswersCount(rs[1..], k - 1); }
  }

  /** Reply k answers a request that has arrived, on its connection and with its id. */
  predicate Awaited(s: D.Server, k: nat) {
    k < |s.replies| && s.replies[k].to in s.arrived && D.OwnReply(s.replies[k])
  }

  /** Every reply on a connection carries the id of a request that arrived on it. */
  lemma {:induction false} RepliesAreAwaited(workerCount: nat, es: seq<D.Event>, k: nat)
    requires workerCount > 0 && D.Legal(D.Initial(workerCount), es)
    requires k < |D.Run(D.Initial(workerCount), es).replies|
    ensures var s := D.Run(D.Initial(workerCount), es);
            Awaited(s, k) && s.replies[k].requestId in IdsOn(s.arrived, s.replies[k].conn)
  {
    D.InitialHolds(workerCount);
    D.RunKeeps(D.Initial(workerCount), es);
    var s := D.Run(D.Initial(workerCount), es);
    AnswersCount(s.replies, k);
    var a := s.replies[k].to;
    assert D.Occurs(s.arrived, a) > 0 && D.OwnReply(s.replies[k]);
    D.OccursIsIn(s.arrived, a);
    hide D.Occurs, D.AnswersTo, D.RequestId;
  }

  const TOO_MANY := Response(Status(ResourceExhausted, Ascii("too many in-flight requests")), map[], [])
  const QUEUE_FULL := Response(Status(ResourceExhausted, Ascii("RPC handler queue is full")), map[], [])
  const NO_TARGET :=
    Response(Status(InvalidArgument, Ascii("request metadata lacks service or method")), map[], [])

  /** What is sent for each kind of reply: a fixed refusal, or for a worker's whatever its
      handler, the deadline or the handler table came to. */
  ghost predicate Fits(kind: D.Kind, r: Response) {
    match kind
    case Handled => true
    case TooMany => r == TOO_MANY
    case QueueFull => r == QUEUE_FULL
    case BadTarget => r == NO_TARGET
  }

  /** m is what sendResponse makes of the reply. */
  ghost predicate IsReply(m: bytes, reply: D.Reply) {
    exists r :: Fits(reply.kind, r) && m == FrameBytes(ResponseFrameOf(reply.requestId, r))
  }

  /** Message i is that of reply order[i], a reply on c, and no reply is drawn twice. */
  ghost predicate Drawn(ms: seq<bytes>, rs: seq<D.Reply>, c: nat, order: seq<nat>) {
    && |order| == |ms|
    && (forall i :: 0 <= i < |ms| ==>
          order[i] < |rs| && rs[order[i]].conn == c && IsReply(ms[i], rs[order[i]]))
    && (forall i, j :: 0 <= i < j < |order| ==> order[i] != order[j])
  }

  /** f is the frame in m: the response to this reply's request, the refusal when it is one. */
  ghost predicate Carries(f: Frame, m: bytes, reply: D.Reply) {
    && FrameBytes(f) == m && f.msgType == W.RESPONSE && f.requestId == reply.requestId
    && DecodeStatus(f.metadata).Some?
    && var status := DecodeStatus(f.metadata).value;
       match reply.kind
       case Handled => exists r :: f == ResponseFrameOf(reply.requestId, r)
       case TooMany => status == TOO_MANY.status && f.body == []
       case QueueFull => status == QUEUE_FULL.status && f.body == []
       case BadTarget => status == NO_TARGET.status && f.body == []
  }

  lemma {:induction false} SameBytesSameFrame(f: Frame, g: Frame)
    requires ValidFrame(f) && ValidFrame(g) && FrameBytes(f) == FrameBytes(g)
    ensures f == g
  {
    FrameRoundTrip(f, []);
    FrameRoundTrip(g, []);
    hide ParseFrame, FrameBytes, ValidFrame;
  }

  lemma {:induction false} ReplyCarried(f: Frame, m: bytes, reply: D.Reply)
    requires ValidFrame(f) && FrameBytes(f) == m && IsReply(m, reply)
    ensures Carries(f, m, reply)
  {
    hide FrameBytes, ParseFrame, ValidFrame, ResponseFrameOf, DecodeStatus, Encodable, WithStatus;
    var r :| Fits(reply.kind, r) && m == FrameBytes(ResponseFrameOf(reply.requestId, r));
    ResponseEndToEnd(reply.requestId, r, []);
    SameBytesSameFrame(f, ResponseFrameOf(reply.requestId, r));
    if !reply.kind.Handled? {
      assert 0 < |r.status.message| < 0x80;
      PlainStatusFits(r.status);
    }
  }

  lemma {:induction false} AnsweredTwice(rs: seq<D.Reply>, i: nat, j: nat)
    requires i < j < |rs| && rs[i].to == rs[j].to
    ensures D.AnswersTo(rs, rs[i].to) >= 2
  {
    if i == 0 {
      assert rs[1..][j - 1] == rs[j];
      AnswersCount(rs[1..], j - 1);
    } else {
      assert rs[1..][i - 1] == rs[i] && rs[1..][j - 1] == rs[j];
      AnsweredTwice(rs[1..], i - 1, j - 1);
    }
  }

  /** Different replies answer different arrivals. */
  lemma {:induction false} RepliesDiffer(workerCount: nat, es: seq<D.Event>, i: nat, j: nat)
    requires workerCount > 0 && D.Legal(D.Initial(workerCount), es)
    requires var rs := D.Run(D.Initial(workerCount), es).replies; i != j && i < |rs| && j < |rs|
    ensures var s := D.Run(D.Initial(workerCount), es); s.replies[i].to != s.replies[j].to
  {
    var s := D.Run(D.Initial(workerCount), es);
    RepliesAreAwaited(workerCount, es, i);
    var a := s.replies[i].to;
    var k :| 0 <= k < |s.arrived| && s.arrived[k] == a;
    D.AnsweredAtMostOnce(workerCount, es, k);
    hide D.Run, D.Legal, D.AnswersTo;
    if s.replies[j].to == a {
      AnsweredTwice(s.replies, if i < j then i else j, if i < j then j else i);
    }
  }

  lemma {:induction false} DrawnAreAnswers(workerCount: nat, es: seq<D.Event>, c: nat, ms: seq<bytes>, order: seq<nat>)
    requires workerCount > 0 && D.Legal(D.Initial(workerCount), es)
    requires Drawn(ms, D.Run(D.Initial(workerCount), es).replies, c, order)
    ensures AllAnswers(ms, IdsOn(D.Run(D.Initial(workerCount), es).arrived, c))
  {
    var s := D.Run(D.Initial(workerCount), es);
    hide D.Run, D.Legal, IdsOn, FrameBytes, ResponseFrameOf;
    forall i | 0 <= i < |ms| ensures IsAnswer(ms[i], IdsOn(s.arrived, c)) {
      RepliesAreAwaited(workerCount, es, order[i]);
      assert IsReply(ms[i], s.replies[order[i]]);
    }
  }

  /** The replies behind the accepted messages. */
  lemma {:induction false} Compose(accepted: seq<bytes>, sent: seq<bytes>, picks: seq<nat>,
                                   rs: seq<D.Reply>, c: nat, order: seq<nat>)
    returns (from: seq<nat>)
    requires Picked(accepted, [], sent, picks) && Drawn(sent, rs, c, order)
    ensures Drawn(accepted, rs, c, from)
  {
    hide IsReply;
    var none: seq<bytes> := [];
    from := seq(|picks|, i requires 0 <= i < |picks| => order[picks[i]]);
    forall i | 0 <= i < |accepted| ensures from[i] == order[picks[i]] && accepted[i] == sent[picks[i]] {
      assert accepted[|none| + i] == sent[picks[i]];
    }
  }

  /** f was read where reply k on c was sent, and answers its request. */
  ghost predicate ReadFrom(f: Frame, m: bytes, s: D.Server, c: nat, k: nat) {
    && Awaited(s, k) && Carries(f, m, s.replies[k])
    && s.replies[k].to.conn == c && D.RequestId(s.replies[k].to.event) == f.requestId
  }

  /** The frames read are the first of these messages, each from a reply of its own, and no two
      of those replies answer the same request. */
  ghost predicate AllReadFrom(got: seq<Frame>, ms: seq<bytes>, s: D.Server, c: nat, from: seq<nat>) {
    && |got| <= |ms| == |from|
    && (forall i :: 0 <= i < |got| ==> ReadFrom(got[i], ms[i], s, c, from[i]))
    && (forall i, j :: 0 <= i < j < |got| ==> s.replies[from[i]].to != s.replies[from[j]].to)
  }

  lemma {:induction false} ReadReply(f: Frame, m: bytes, ids: set<u64>, s: D.Server, c: nat, k: nat)
    requires Delivers(f, m, ids) && Awaited(s, k) && s.replies[k].conn == c && IsReply(m, s.replies[k])
    ensures ReadFrom(f, m, s, c, k)
  {
    hide IsReply, Carries;
    ReplyCarried(f, m, s.replies[k]);
    CarriesItsId(f, m, s.replies[k]);
  }

  lemma {:induction false} CarriesItsId(f: Frame, m: bytes, reply: D.Reply)
    requires Carries(f, m, reply)
    ensures f.requestId == reply.requestId
  {
  }

  lemma {:induction false} DrawnAt(ms: seq<bytes>, rs: seq<D.Reply>, c: nat, order: seq<nat>)
    requires Drawn(ms, rs, c, order)
    ensures |order| == |ms|
    ensures forall i :: 0 <= i < |ms| ==> order[i] < |rs| && rs[order[i]].conn == c && IsReply(ms[i], rs[order[i]])
    ensures forall i, j :: 0 <= i < j < |order| ==> order[i] != order[j]
  {
  }

  /** Server and connection together: whatever the threads do and whatever the socket does, the
      frames a client reads are, in order, those its connection accepted from the server. Each
      belongs to a reply of its own, carries that reply's refusal or a worker's response, and
      answers a request that arrived on that very connection, no two of them the same one. */
  lemma {:induction false} RepliesReachTheClient(workerCount: nat, des: seq<D.Event>, c: nat, ces: seq<C.Event>,
                                                 order: seq<nat>)
    returns (from: seq<nat>)
    requires workerCount > 0 && D.Legal(D.Initial(workerCount), des) && C.Legal(C.INITIAL, ces)
    requires Drawn(C.Sent(ces), D.Run(D.Initial(workerCount), des).replies, c, order)
    ensures var s, conn := D.Run(D.Initial(workerCount), des), C.Run(C.INITIAL, ces);
            var got := Received(conn.wire);
            && AllReadFrom(got, conn.accepted, s, c, from)
            && (conn.out == [] ==> |got| == |conn.accepted|)
            && conn.accepted == C.SentWhileUp(C.INITIAL, ces)
            && (conn.state == C.Connected ==> conn.accepted == C.SinceEstablished(ces))
  {
    AcceptedInFull(ces);
    var s, conn := D.Run(D.Initial(workerCount), des), C.Run(C.INITIAL, ces);
    var got := Received(conn.wire);
    var sent := C.Sent(ces);
    hide *;
    DrawnAreAnswers(workerCount, des, c, sent, order);
    AnswersReachTheClient(ces, IdsOn(s.arrived, c));
    var picks := AcceptedWereSent(C.INITIAL, ces);
    from := Compose(conn.accepted, sent, picks, s.replies, c, order);
    DrawnAt(conn.accepted, s.replies, c, from);
    forall i | 0 <= i < |got| ensures ReadFrom(got[i], conn.accepted[i], s, c, from[i]) {
      RepliesAreAwaited(workerCount, des, from[i]);
      ReadReply(got[i], conn.accepted[i], IdsOn(s.arrived, c), s, c, from[i]);
    }
    ReadFromAll(got, conn.accepted, s, c, from);
    forall i, j | 0 <= i < j < |got| ensures s.replies[from[i]].to != s.replies[from[j]].to {
      RepliesDiffer(workerCount, des, from[i], from[j]);
    }
    AllTogether(got, conn.accepted, s, c, from);
  }

  lemma {:induction false} ReadFromAll(got: seq<Frame>, ms: seq<bytes>, s: D.Server, c: nat, from: seq<nat>)
    requires |got| <= |ms| == |from| && forall i :: 0 <= i < |got| ==> ReadFrom(got[i], ms[i], s, c, from[i])
    ensures forall i :: 0 <= i < |got| ==> from[i] < |s.replies|
  {
    hide Carries;
  }

  lemma {:induction false} AllTogether(got: seq<Frame>, ms: seq<bytes>, s: D.Server, c: nat, from: seq<nat>)
    requires |got| <= |ms| == |from| && forall i :: 0 <= i < |got| ==> ReadFrom(got[i], ms[i], s, c, from[i])
    requires forall i :: 0 <= i < |got| ==> from[i] < |s.replies|
    requires forall i, j :: 0 <= i < j < |got| ==> s.replies[from[i]].to != s.replies[from[j]].to
    ensures AllReadFrom(got, ms, s, c, from)
  {
    hide ReadFrom;
  }

  lemma {:induction false} AcceptedInFull(es: seq<C.Event>)
    requires C.Legal(C.INITIAL, es)
    ensures var c := C.Run(C.INITIAL, es);
            && c.accepted == C.SentWhileUp(C.INITIAL, es)
            && (c.state == C.Connected ==> c.accepted == C.SinceEstablished(es))
  {
    C.AcceptedExactly(C.INITIAL, es);
    var none: seq<bytes> := [];
    assert none + C.SentWhileUp(C.INITIAL, es) == C.SentWhileUp(C.INITIAL, es);
    if C.Run(C.INITIAL, es).state == C.Connected {
      C.AcceptsAllWhileUp(C.INITIAL, es);
    }
  }

  lemma {:induction false} OneMoreWrite(es: seq<C.Event>, ws: seq<C.Written>, result: C.ShutResult)
    requires C.Legal(C.INITIAL, es)
    ensures var more := es + [C.DoWrite(ws, result)];
            && C.Legal(C.INITIAL, more)
            && C.Run(C.INITIAL, more) == C.HandleWrite(C.Run(C.INITIAL, es), ws, result)
            && C.Sent(more) == C.Sent(es) && C.SinceEstablished(more) == C.SinceEstablished(es)
  {
    var e := C.DoWrite(ws, result);
    C.RunSplits(C.INITIAL, es, [e]);
    var c := C.Run(C.INITIAL, es);
    assert [e][1..] == [] && C.Run(c, [e]) == C.Run(C.Step(c, e), []);
    hide C.Step, C.HandleWrite;
    SentMore(es, e);
  }

  lemma {:induction false} SentMore(es: seq<C.Event>, e: C.Event)
    requires e.DoWrite?
    ensures C.Sent(es + [e]) == C.Sent(es) && C.SinceEstablished(es + [e]) == C.SinceEstablished(es)
  {
    if es == [] {
      assert (es + [e])[1..] == [];
    } else {
      assert (es + [e])[1..] == es[1..] + [e];
      SentMore(es[1..], e);
    }
  }

  /** Nothing is lost on the way: on a connection that is up, writes enough bring the client one
      frame for every message sent since it was established, in the order sent, each belonging
      to a reply of its own. */
  lemma {:induction false} EveryReplyIsRead(workerCount: nat, des: seq<D.Event>, c: nat, ces: seq<C.Event>,
                                            order: seq<nat>, ws: seq<C.Written>, result: C.ShutResult)
    returns (from: seq<nat>)
    requires workerCount > 0 && D.Legal(D.Initial(workerCount), des) && C.Legal(C.INITIAL, ces)
    requires Drawn(C.Sent(ces), D.Run(D.Initial(workerCount), des).replies, c, order)
    requires C.Run(C.INITIAL, ces).state == C.Connected
    requires |ws| >= |C.Run(C.INITIAL, ces).out| && forall i :: 0 <= i < |ws| ==> ws[i].count > 0
    ensures var s, sent := D.Run(D.Initial(workerCount), des), C.SinceEstablished(ces);
            var got := Received(C.HandleWrite(C.Run(C.INITIAL, ces), ws, result).wire);
            |got| == |sent| && AllReadFrom(got, sent, s, c, from)
  {
    var conn := C.Run(C.INITIAL, ces);
    C.RunKeeps(C.INITIAL, ces);
    hide *;
    C.DrainsConnected(conn, ws, result);
    OneMoreWrite(ces, ws, result);
    from := RepliesReachTheClient(workerCount, des, c, ces + [C.DoWrite(ws, result)], order);
  }
}
