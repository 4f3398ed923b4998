/** One TCP connection's output path, half-close and teardown (src/net/tcp_connection.cpp),
    over the byte buffer. System call results are inputs. */
module Connection {
  import opened Basics
  import opened Buffers

  datatype State = Connecting | Connected | Disconnecting | Disconnected

  /** What ::write returned, and whether errno then reads EAGAIN. */
  datatype Written = Written(count: int, again: bool)

  /** ::shutdown: done, failed in a way that is ignored, or failed. */
  datatype ShutResult = ShutOk | AlreadyClosed | ShutFailed

  /** The connection as a value. wire holds the bytes the socket took, accepted the messages
      sendInLoop took on, shut whether SHUT_WR was issued, notices the close callbacks. */
  datatype Conn = Conn(state: State, out: bytes, reading: bool, writing: bool,
                       wire: bytes, accepted: seq<bytes>, shut: bool,
                       notices: nat, ups: nat, downs: nat)

  const INITIAL := Conn(Connecting, [], false, false, [], [], false, 0, 0, 0)

  /** The bytes a write of length bytes took: a kernel never takes more. */
  function Taken(w: Written, length: nat): (n: nat)
    ensures n <= length
  {
    if w.count <= 0 then 0 else Min(w.count, length)
  }

  // ---- the operations, on values ----

  function Establish(c: Conn): Conn {
    c.(state := Connected, reading := true, ups := c.ups + 1)
  }

  function HandleClose(c: Conn): Conn {
    if c.state == Disconnected then c
    else c.(state := Disconnected, reading := false, writing := false, notices := c.notices + 1)
  }

  /** What sendInLoop writes at once, which it tries when nothing is queued. */
  function DirectlyTaken(c: Conn, data: bytes, w: Written): (n: nat)
    ensures n <= |data|
  {
    if c.out == [] && !c.writing then Taken(w, |data|) else 0
  }

  function SendInLoop(c: Conn, data: bytes, w: Written): Conn {
    if c.state != Connected then c
    else if c.out == [] && !c.writing && w.count < 0 && !w.again then HandleClose(c)
    else
      var n := DirectlyTaken(c, data, w);
      c.(wire := c.wire + data[..n], accepted := c.accepted + [data],
         out := c.out + data[n..], writing := c.writing || n < |data|)
  }

  function ShutdownInLoop(c: Conn, result: ShutResult): Conn {
    if c.state != Disconnecting || c.out != [] then c
    else if result == ShutFailed then HandleClose(c.(shut := true))
    else c.(shut := true)
  }

  /** shutdown, called on the loop's thread. */
  function Shutdown(c: Conn, result: ShutResult): Conn {
    if c.state != Connected then c else ShutdownInLoop(c.(state := Disconnecting), result)
  }

  datatype Flush = Flush(conn: Conn, broken: bool)

  /** The write loop of handleWrite; it stops when the script of results is used up, as on EAGAIN. */
  function FlushOut(c: Conn, ws: seq<Written>): Flush
    decreases |ws|
  {
    if c.out == [] || ws == [] then Flush(c, false)
    else
      var n := Taken(ws[0], |c.out|);
      if n > 0 then FlushOut(c.(wire := c.wire + c.out[..n], out := c.out[n..]), ws[1..])
      else Flush(c, !ws[0].again)
  }

  function HandleWrite(c: Conn, ws: seq<Written>, result: ShutResult): Conn {
    if c.state == Disconnected then c
    else
      var f := FlushOut(c, ws);
      if f.broken then HandleClose(f.conn)
      else if f.conn.out != [] then f.conn
      else
        var quiet := f.conn.(writing := false);
        if c.state == Disconnecting then ShutdownInLoop(quiet, result) else quiet
  }

  function ForceClose(c: Conn): Conn {
    if c.state != Connected && c.state != Disconnecting then c else HandleClose(c)
  }

  function Destroy(c: Conn): Conn {
    var quiet := if c.state == Disconnected then c else c.(state := Disconnected, reading := false, writing := false);
    quiet.(downs := quiet.downs + 1)
  }

  // ---- runs ----

  /** What the loop thread may do to a connection. Fail is a peer close, a read error or an
      epoll error, all of which end in handleClose. */
  datatype Event =
    | DoEstablish
    | DoSend(data: bytes, w: Written)
    | DoWrite(ws: seq<Written>, result: ShutResult)
    | DoShutdown(result: ShutResult)
    | DoFail
    | DoForceClose
    | DoDestroy

  /** connectEstablished asserts that the connection is still connecting. */
  predicate Enabled(c: Conn, e: Event) {
    e.DoEstablish? ==> c.state == Connecting
  }

  function Step(c: Conn, e: Event): Conn {
    match e
    case DoEstablish => Establish(c)
    case DoSend(data, w) => SendInLoop(c, data, w)
    case DoWrite(ws, result) => HandleWrite(c, ws, result)
    case DoShutdown(result) => Shutdown(c, result)
    case DoFail => HandleClose(c)
    case DoForceClose => ForceClose(c)
    case DoDestroy => Destroy(c)
  }

  predicate Legal(c: Conn, es: seq<Event>)
    decreases |es|
  {
    es == [] || (Enabled(c, es[0]) && Legal(Step(c, es[0]), es[1..]))
  }

  function Run(c: Conn, es: seq<Event>): Conn
    decreases |es|
  {
    if es == [] then c else Run(Step(c, es[0]), es[1..])
  }

  predicate Invariant(c: Conn) {
    && c.wire + c.out == Flatten(c.accepted)
    && (c.state != Disconnected ==> (c.writing <==> c.out != []))
    && (c.state == Disconnected ==> !c.writing)
    && (c.state == Connecting ==> c.accepted == [] && c.ups == 0)
    && (c.shut ==> c.out == [] && (c.state == Disconnecting || c.state == Disconnected))
    && (c.state == Disconnecting ==> c.shut || c.out != [])
    && (c.reading <==> c.state == Connected || c.state == Disconnecting)
    && c.notices <= (if c.state == Disconnected then 1 else 0)
    && c.ups <= 1
  }

  function Rank(s: State): nat {
    match s
    case Connecting => 0
    case Connected => 1
    case Disconnecting => 2
    case Disconnected => 3
  }

  /** What no step undoes: the state's order, the bytes on the wire, the messages taken on,
      and, once SHUT_WR was issued, both for good. */
  predicate Advances(c: Conn, d: Conn) {
    && Rank(c.state) <= Rank(d.state)
    && c.wire <= d.wire && c.accepted <= d.accepted
    && (c.shut ==> d.shut && d.wire == c.wire && d.accepted == c.accepted)
    && (c.state != Connected && c.state != Connecting ==> d.accepted == c.accepted)
    && c.ups <= d.ups && c.downs <= d.downs && c.notices <= d.notices
  }

  lemma {:induction false} FlushKeeps(c: Conn, ws: seq<Written>)
    ensures var d := FlushOut(c, ws).conn;
            && d == c.(wire := d.wire, out := d.out)
            && d.wire + d.out == c.wire + c.out && c.wire <= d.wire
            && (c.out == [] ==> d == c)
    decreases |ws|
  {
    if c.out != [] && ws != [] {
      var n := Taken(ws[0], |c.out|);
      if n > 0 {
        var next := c.(wire := c.wire + c.out[..n], out := c.out[n..]);
        assert c.out == c.out[..n] + c.out[n..];
        Assoc(c.wire, c.out[..n], c.out[n..]);
        FlushKeeps(next, ws[1..]);
      }
    }
  }

  lemma {:induction false} SendKeeps(c: Conn, data: bytes, w: Written)
    requires Invariant(c)
    ensures Invariant(SendInLoop(c, data, w)) && Advances(c, SendInLoop(c, data, w))
  {
    FlattenSnoc(c.accepted, data);
    var n := DirectlyTaken(c, data, w);
    assert data == data[..n] + data[n..];
    assert c.wire + c.out + data == (c.wire + data[..n]) + (c.out + data[n..]);
  }

  lemma {:induction false} WriteKeeps(c: Conn, ws: seq<Written>, result: ShutResult)
    requires Invariant(c)
    ensures Invariant(HandleWrite(c, ws, result)) && Advances(c, HandleWrite(c, ws, result))
  {
    FlushKeeps(c, ws);
    hide FlushOut, Flatten;
  }

  lemma {:induction false} StepKeeps(c: Conn, e: Event)
    requires Invariant(c) && Enabled(c, e)
    ensures Invariant(Step(c, e)) && Advances(c, Step(c, e))
  {
    hide FlushOut, Flatten;
    match e
    case DoSend(data, w) => SendKeeps(c, data, w);
    case DoWrite(ws, result) => WriteKeeps(c, ws, result);
    case _ =>
  }

  /** Every run keeps the invariant and undoes nothing. */
  lemma {:induction false} RunKeeps(c: Conn, es: seq<Event>)
    requires Invariant(c) && Legal(c, es)
    ensures Invariant(Run(c, es)) && Advances(c, Run(c, es))
    decreases |es|
  {
    if es != [] {
      StepKeeps(c, es[0]);
      RunKeeps(Step(c, es[0]), es[1..]);
    }
  }

  /** Output stream integrity: in every reachable state, the bytes the socket took followed by
      the output buffer are the accepted messages end to end; while not disconnected EPOLLOUT
      is armed exactly when bytes wait; SHUT_WR goes out only when every accepted byte has. */
  lemma {:induction false} StreamIntegrity(es: seq<Event>)
    requires Legal(INITIAL, es)
    ensures var c := Run(INITIAL, es);
            && c.wire + c.out == Flatten(c.accepted)
            && (c.state != Disconnected ==> (c.writing <==> c.out != []))
            && (c.shut ==> c.wire == Flatten(c.accepted))
            && (c.state == Disconnecting ==> c.shut || (c.out != [] && c.writing))
            && (c.reading <==> c.state == Connected || c.state == Disconnecting)
            && c.notices <= 1 && c.ups <= 1
  {
    RunKeeps(INITIAL, es);
    var c := Run(INITIAL, es);
    assert c.out == [] ==> c.wire + c.out == c.wire;
  }

  lemma {:induction false} RunSplits(c: Conn, es: seq<Event>, fs: seq<Event>)
    ensures Run(c, es + fs) == Run(Run(c, es), fs)
    ensures Legal(c, es + fs) <==> Legal(c, es) && Legal(Run(c, es), fs)
    decreases |es|
  {
    if es == [] {
      assert es + fs == fs;
    } else {
      assert (es + fs)[1..] == es[1..] + fs;
      RunSplits(Step(c, es[0]), es[1..], fs);
    }
  }

  /** The state never moves backwards, and what one moment has written or accepted every later
      moment still has; after SHUT_WR nothing more is written. */
  lemma {:induction false} NeverBackwards(es: seq<Event>, fs: seq<Event>)
    requires Legal(INITIAL, es + fs)
    ensures Advances(Run(INITIAL, es), Run(INITIAL, es + fs))
  {
    RunSplits(INITIAL, es, fs);
    RunKeeps(INITIAL, es);
    RunKeeps(Run(INITIAL, es), fs);
  }

  /** A half-closing connection whose socket keeps taking bytes writes everything it accepted
      and then issues SHUT_WR, once results enough have come in. */
  lemma {:induction false} DrainsThenShuts(c: Conn, ws: seq<Written>, result: ShutResult)
    requires Invariant(c) && c.state == Disconnecting
    requires |ws| >= |c.out| && forall i :: 0 <= i < |ws| ==> ws[i].count > 0
    ensures var d := HandleWrite(c, ws, result);
            d.shut && d.out == [] && d.wire == Flatten(c.accepted)
  {
    FlushAll(c, ws);
    FlushKeeps(c, ws);
    var f := FlushOut(c, ws);
    assert f.conn.wire + [] == f.conn.wire;
  }

  /** A connected one whose socket takes bytes writes everything it accepted, and stays up. */
  lemma {:induction false} DrainsConnected(c: Conn, ws: seq<Written>, result: ShutResult)
    requires Invariant(c) && c.state == Connected
    requires |ws| >= |c.out| && forall i :: 0 <= i < |ws| ==> ws[i].count > 0
    ensures var d := HandleWrite(c, ws, result);
            && d.state == Connected && d.out == [] && !d.writing
            && d.wire == Flatten(c.accepted) && d.accepted == c.accepted
  {
    FlushAll(c, ws);
    FlushKeeps(c, ws);
    var f := FlushOut(c, ws);
    assert f.conn.wire + [] == f.conn.wire;
  }

  lemma {:induction false} FlushAll(c: Conn, ws: seq<Written>)
    requires |ws| >= |c.out| && forall i :: 0 <= i < |ws| ==> ws[i].count > 0
    ensures FlushOut(c, ws).conn.out == [] && !FlushOut(c, ws).broken
    decreases |ws|
  {
    if c.out != [] {
      var n := Taken(ws[0], |c.out|);
      FlushAll(c.(wire := c.wire + c.out[..n], out := c.out[n..]), ws[1..]);
    }
  }

  // ---- what is accepted ----

  /** The messages handed to sendInLoop in a run. */
  function Sent(es: seq<Event>): seq<bytes> {
    if es == [] then [] else (if es[0].DoSend? then [es[0].data] else []) + Sent(es[1..])
  }

  /** Those sent behind connectEstablished. */
  function SinceEstablished(es: seq<Event>): seq<bytes> {
    if es == [] then [] else if es[0].DoEstablish? then Sent(es[1..]) else SinceEstablished(es[1..])
  }

  /** Nothing waits in front of the message, and its direct write fails for good. */
  predicate FailsAtOnce(c: Conn, w: Written) {
    c.out == [] && w.count < 0 && !w.again
  }

  /** Those sent while the connection was up, but for one whose direct write failed. */
  function SentWhileUp(c: Conn, es: seq<Event>): seq<bytes>
    decreases |es|
  {
    if es == [] then []
    else
      (if es[0].DoSend? && c.state == Connected && !FailsAtOnce(c, es[0].w) then [es[0].data] else [])
      + SentWhileUp(Step(c, es[0]), es[1..])
  }

  lemma {:induction false} AcceptedStep(c: Conn, e: Event)
    requires Invariant(c)
    ensures Step(c, e).accepted
         == c.accepted + if e.DoSend? && c.state == Connected && !FailsAtOnce(c, e.w) then [e.data] else []
  {
    if e.DoWrite? {
      FlushKeeps(c, e.ws);
    }
    hide FlushOut, Flatten;
    assert c.accepted + [] == c.accepted;
  }

  /** Nothing is lost on the way in: the messages accepted are exactly those sent while the
      connection was up, except one whose direct write failed and closed it. */
  lemma {:induction false} AcceptedExactly(c: Conn, es: seq<Event>)
    requires Invariant(c) && Legal(c, es)
    ensures Run(c, es).accepted == c.accepted + SentWhileUp(c, es)
    decreases |es|
  {
    if es == [] {
      assert c.accepted + [] == c.accepted;
    } else {
      hide Step, Invariant, FailsAtOnce;
      AcceptedStep(c, es[0]);
      StepKeeps(c, es[0]);
      var d := Step(c, es[0]);
      AcceptedExactly(d, es[1..]);
      var taken := es[0].DoSend? && c.state == Connected && !FailsAtOnce(c, es[0].w);
      var head: seq<bytes> := if taken then [es[0].data] else [];
      JoinMessages(c.accepted, head, SentWhileUp(d, es[1..]));
    }
  }

  lemma {:induction false} JoinMessages(a: seq<bytes>, b: seq<bytes>, c: seq<bytes>)
    ensures (a + b) + c == a + (b + c)
  {
  }

  lemma {:induction false} UpAllAlong(c: Conn, es: seq<Event>)
    requires Invariant(c) && Legal(c, es) && c.state == Connected && Run(c, es).state == Connected
    ensures SentWhileUp(c, es) == Sent(es)
    decreases |es|
  {
    if es != [] {
      StepKeeps(c, es[0]);
      RunKeeps(Step(c, es[0]), es[1..]);
      StaysUp(c, es[0]);
      hide Invariant, Step;
      UpAllAlong(Step(c, es[0]), es[1..]);
    }
  }

  lemma {:induction false} StaysUp(c: Conn, e: Event)
    requires Invariant(c) && c.state == Connected && Enabled(c, e) && Rank(Step(c, e).state) <= Rank(Connected)
    ensures Step(c, e).state == Connected && !e.DoEstablish?
    ensures e.DoSend? ==> !FailsAtOnce(c, e.w)
  {
    StepKeeps(c, e);
    hide FlushOut, Flatten;
  }

  /** While a connection is up, it has accepted exactly what was sent since it was established. */
  lemma {:induction false} AcceptsAllWhileUp(c: Conn, es: seq<Event>)
    requires Invariant(c) && Legal(c, es) && c.state == Connecting && Run(c, es).state == Connected
    ensures SentWhileUp(c, es) == SinceEstablished(es)
    decreases |es|
  {
    StepKeeps(c, es[0]);
    if es[0].DoEstablish? {
      UpAllAlong(Step(c, es[0]), es[1..]);
    } else {
      RunKeeps(Step(c, es[0]), es[1..]);
      NotYetUp(c, es[0]);
      AcceptsAllWhileUp(Step(c, es[0]), es[1..]);
    }
  }

  lemma {:induction false} NotYetUp(c: Conn, e: Event)
    requires Invariant(c) && c.state == Connecting && !e.DoEstablish? && Rank(Step(c, e).state) <= Rank(Connected)
    ensures Step(c, e).state == Connecting
  {
    if e.DoWrite? {
      FlushKeeps(c, e.ws);
    }
    hide FlushOut, Flatten;
  }

  /** No message is lost or duplicated while a connection is up: what the socket took, followed
      by what waits, is all that was sent since it was established; and writes enough take it
      all out, in order. */
  lemma {:induction false} EverySendIsWritten(es: seq<Event>, ws: seq<Written>, result: ShutResult)
    requires Legal(INITIAL, es) && Run(INITIAL, es).state == Connected
    requires |ws| >= |Run(INITIAL, es).out| && forall i :: 0 <= i < |ws| ==> ws[i].count > 0
    ensures var c := Run(INITIAL, es);
            && c.accepted == SinceEstablished(es) && c.wire + c.out == Flatten(SinceEstablished(es))
            && HandleWrite(c, ws, result).wire == Flatten(SinceEstablished(es))
  {
    var c := Run(INITIAL, es);
    RunKeeps(INITIAL, es);
    AcceptedExactly(INITIAL, es);
    AcceptsAllWhileUp(INITIAL, es);
    assert [] + SinceEstablished(es) == SinceEstablished(es);
    DrainsConnected(c, ws, result);
  }

  /** What disconnects a connection that is up or half-closing, and nothing else does: the peer
      or an error, a forced close, its teardown, a write that fails for good, or a shutdown. */
  lemma {:induction false} ClosesExactly(c: Conn, e: Event)
    requires Invariant(c) && (c.state == Connected || c.state == Disconnecting)
    ensures Step(c, e).state == Disconnected
            <==> || e.DoFail? || e.DoForceClose? || e.DoDestroy?
                 || (e.DoSend? && c.state == Connected && FailsAtOnce(c, e.w))
                 || (e.DoWrite? && WriteFails(c.out, e.ws))
                 || (e.DoWrite? && c.state == Disconnecting && e.result == ShutFailed && Empties(c.out, e.ws))
                 || (e.DoShutdown? && c.state == Connected && c.out == [] && e.result == ShutFailed)
    ensures Step(c, e).notices == c.notices + if Step(c, e).state == Disconnected && !e.DoDestroy? then 1 else 0
  {
    if e.DoWrite? {
      FlushEnds(c, e.ws);
      FlushKeeps(c, e.ws);
    }
    hide FlushOut, Flatten, WriteFails, Empties;
  }

  /** One of the writes fails for good while bytes are left. */
  predicate WriteFails(out: bytes, ws: seq<Written>)
    decreases |ws|
  {
    && out != [] && ws != []
    && if ws[0].count > 0 then |out| > ws[0].count && WriteFails(out[ws[0].count..], ws[1..]) else !ws[0].again
  }

  /** The writes take all of it. */
  predicate Empties(out: bytes, ws: seq<Written>)
    decreases |ws|
  {
    || out == []
    || (ws != [] && ws[0].count > 0 && (ws[0].count >= |out| || Empties(out[ws[0].count..], ws[1..])))
  }

  lemma {:induction false} FlushEnds(c: Conn, ws: seq<Written>)
    ensures FlushOut(c, ws).broken <==> WriteFails(c.out, ws)
    ensures FlushOut(c, ws).conn.out == [] <==> Empties(c.out, ws)
    decreases |ws|
  {
    if c.out != [] && ws != [] && ws[0].count > 0 {
      var n := Taken(ws[0], |c.out|);
      FlushEnds(c.(wire := c.wire + c.out[..n], out := c.out[n..]), ws[1..]);
    }
  }

  // ---- the class ----

  class TcpConnection {
    var state: State
    var output: Buffer
    var reading: bool
    var writing: bool
    ghost var wire: bytes
    ghost var accepted: seq<bytes>
    ghost var shut: bool
    ghost var notices: nat
    ghost var ups: nat
    ghost var downs: nat

    ghost predicate Valid()
      reads this, output
    {
      output.Valid()
    }

    ghost function Model(): Conn
      requires Valid()
      reads this, output, output.storage
    {
      Conn(state, output.Contents(), reading, writing, wire, accepted, shut, notices, ups, downs)
    }

    constructor ()
      ensures Valid() && fresh(output) && fresh(output.storage) && Model() == INITIAL
    {
      state, reading, writing := Connecting, false, false;
      wire, accepted, shut, notices, ups, downs := [], [], false, 0, 0, 0;
      output := new Buffer(4096);
    }

    method ConnectEstablished()
      requires Valid() && state == Connecting
      modifies this
      ensures Valid() && output == old(output) && Model() == Establish(old(Model()))
    {
      state := Connected;
      reading := true;
      ups := ups + 1;
    }

    method ConnectDestroyed()
      requires Valid()
      modifies this
      ensures Valid() && output == old(output) && Model() == Destroy(old(Model()))
    {
      if state != Disconnected {
        state := Disconnected;
        reading, writing := false, false;
      }
      downs := downs + 1;
    }

    method Close()
      requires Valid()
      modifies this
      ensures Valid() && output == old(output) && Model() == HandleClose(old(Model()))
    {
      if state == Disconnected {
        return;
      }
      state := Disconnected;
      reading, writing := false, false;
      notices := notices + 1;
    }

    method ForceCloseInLoop()
      requires Valid()
      modifies this
      ensures Valid() && output == old(output) && Model() == ForceClose(old(Model()))
    {
      if state != Connected && state != Disconnecting {
        return;
      }
      Close();
    }

    /** sendInLoop; LengthError when the buffer throws: what was written directly is on the wire,
        and nothing else has changed. */
    method Send(data: bytes, w: Written) returns (space: Space)
      requires Valid()
      modifies this, output, output.storage
      ensures Valid() && output == old(output) && fresh({output.storage} - {old(output.storage)})
      ensures space.Granted? ==> Model() == SendInLoop(old(Model()), data, w)
      ensures space.LengthError?
              ==> && |data| > SIZE_MAX - old(output.writer)
                  && Model() == old(Model()).(wire := old(wire) + data[..DirectlyTaken(old(Model()), data, w)])
    {
      if state != Connected {
        return Granted;
      }
      var n, broken := WriteAtOnce(data, w);
      if broken {
        return Granted;
      }
      hide DirectlyTaken, HandleClose, SizeBound;
      space := Granted;
      if n < |data| {
        space := KeepRest(data[n..]);
        if space.LengthError? {
          return;
        }
      }
      accepted := accepted + [data];
    }

    /** The direct write, tried when nothing waits in front of the message. */
    method WriteAtOnce(data: bytes, w: Written) returns (n: nat, broken: bool)
      requires Valid() && state == Connected
      modifies this
      ensures Valid() && output == old(output)
      ensures broken <==> old(Model()).out == [] && !old(writing) && w.count < 0 && !w.again
      ensures n == if broken then 0 else DirectlyTaken(old(Model()), data, w)
      ensures Model() == if broken then HandleClose(old(Model())) else old(Model()).(wire := old(wire) + data[..n])
    {
      n, broken := 0, false;
      if output.ReadableBytes() == 0 && !writing {
        if w.count < 0 && !w.again {
          Close();
          return 0, true;
        }
        n := Taken(w, |data|);
      }
      wire := wire + data[..n];
    }

    /** What could not be written at once waits in the buffer, with EPOLLOUT armed. */
    method KeepRest(rest: bytes) returns (space: Space)
      requires Valid()
      modifies this`writing, output, output.storage
      ensures Valid() && fresh({output.storage} - {old(output.storage)})
      ensures space.Granted? ==> Model() == old(Model()).(out := old(Model().out) + rest, writing := true)
      ensures space.LengthError? ==> |rest| > SIZE_MAX - old(output.writer) && Model() == old(Model())
    {
      space := output.Append(rest);
      if space.Granted? && !writing {
        writing := true;
      }
    }

    method ShutdownOnLoop(result: ShutResult)
      requires Valid()
      modifies this
      ensures Valid() && output == old(output) && Model() == ShutdownInLoop(old(Model()), result)
    {
      if state != Disconnecting || output.ReadableBytes() > 0 {
        return;
      }
      shut := true;
      if result == ShutFailed {
        Close();
      }
    }

    method RequestShutdown(result: ShutResult)
      requires Valid()
      modifies this
      ensures Valid() && output == old(output) && Model() == Shutdown(old(Model()), result)
    {
      if state != Connected {
        return;
      }
      state := Disconnecting;
      ShutdownOnLoop(result);
    }

    /** One write from the front of the output buffer. */
    method WriteSome(n: nat)
      requires Valid() && n <= output.ReadableBytes()
      modifies this`wire, output
      ensures Valid() && output.storage == old(output.storage)
      ensures Model() == old(Model()).(wire := old(wire) + old(Model().out)[..n], out := old(Model().out)[n..])
    {
      assert output.Contents()[..n] == output.storage[output.reader..output.reader + n];
      wire := wire + output.storage[output.reader..output.reader + n];
      output.Retrieve(n);
    }

    /** The write loop: until the buffer is empty or the socket will not take more. */
    method WriteLoop(ws: seq<Written>) returns (broken: bool)
      requires Valid()
      modifies this`wire, output
      ensures Valid() && output.storage == old(output.storage)
      ensures Flush(Model(), broken) == FlushOut(old(Model()), ws)
    {
      var i := 0;
      assert ws[0..] == ws;
      while output.ReadableBytes() > 0 && i < |ws|
        invariant i <= |ws| && Valid() && output.storage == old(output.storage)
        invariant FlushOut(old(Model()), ws) == FlushOut(Model(), ws[i..])
      {
        ghost var c := Model();
        assert ws[i..][1..] == ws[i + 1..] && ws[i..][0] == ws[i];
        var n := Taken(ws[i], output.ReadableBytes());
        if n == 0 {
          return !ws[i].again;
        }
        WriteSome(n);
        assert FlushOut(c, ws[i..]) == FlushOut(Model(), ws[i + 1..]);
        i := i + 1;
      }
      return false;
    }

    method OnWritable(ws: seq<Written>, result: ShutResult)
      requires Valid()
      modifies this, output
      ensures Valid() && output == old(output) && output.storage == old(output.storage)
      ensures Model() == HandleWrite(old(Model()), ws, result)
    {
      if state == Disconnected {
        return;
      }
      FlushKeeps(Model(), ws);
      hide FlushOut;
      var broken := WriteLoop(ws);
      if broken {
        Close();
        return;
      }
      if output.ReadableBytes() == 0 {
        writing := false;
        if state == Disconnecting {
          ShutdownOnLoop(result);
        }
      }
    }
  }
}
