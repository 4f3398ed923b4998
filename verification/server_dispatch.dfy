/** Request dispatch in the RPC server (src/rpc/rpc_server.cpp): one IO thread that parses,
    limits and enqueues, N workers that drain the queue, and stop() beside them. Each locked
    section, atomic operation and send is one step; steps of all threads interleave. */
module Dispatch {
  import opened Basics
  import F = Frames
  import S = RequestStream

  const MAX_IN_FLIGHT := 1024
  const MAX_QUEUED := 8192

  /** One thing a connection's bytes asked for; serial tells all of them apart. */
  datatype Arrival = Arrival(serial: nat, conn: nat, event: S.Event)

  function RequestId(e: S.Event): u64 {
    match e
    case Dispatch(request) => request.requestId
    case RejectTarget(id) => id
  }

  datatype Kind = Handled | TooMany | QueueFull | BadTarget

  /** One sendResponse call, and (ghostly) what it answers. */
  datatype Reply = Reply(conn: nat, requestId: u64, kind: Kind, to: Arrival)

  /** The IO thread: todo are the events of the current chunk still to be acted on. */
  datatype Io =
    | Idle
    | Serving(conn: nat, todo: seq<S.Event>)
    | Claimed(job: Arrival, before: int, todo: seq<S.Event>)  // behind fetch_add
    | Refused(job: Arrival, kind: Kind, todo: seq<S.Event>)   // about to fetch_sub
    | Denied(job: Arrival, kind: Kind, todo: seq<S.Event>)    // about to send the refusal
    | Ended

  datatype Worker =
    | Fresh               // about to lock the queue and test
    | Asleep              // in the condition variable's wait
    | Busy(job: Arrival)  // has popped, not yet answered
    | Replied(job: Arrival)
    | Exited

  /** How far stop() has come. */
  datatype Stopper = Up | Flagged | IoJoined | Locked | Notified | WorkersJoined | Swapped

  datatype Server = Server(
    io: Io, workers: seq<Worker>, queue: seq<Arrival>, pending: map<nat, int>, stopping: bool, stopper: Stopper,
    parsers: map<nat, F.Parser>, delivered: map<nat, seq<bytes>>,
    arrived: seq<Arrival>, accepted: seq<Arrival>, popped: seq<Arrival>, replies: seq<Reply>)

  function Initial(workerCount: nat): Server {
    Server(Idle, seq(workerCount, _ => Fresh), [], map[], false, Up, map[], map[], [], [], [], [])
  }

  function Pending(s: Server, c: nat): int {
    if c in s.pending then s.pending[c] else 0
  }

  function ParserOf(s: Server, c: nat): F.Parser {
    if c in s.parsers then s.parsers[c] else F.FRESH
  }

  function ChunksOf(s: Server, c: nat): seq<bytes> {
    if c in s.delivered then s.delivered[c] else []
  }

  datatype Event =
    | Deliver(conn: nat, chunk: bytes)   // onMessage parses a chunk
    | Next                               // the next parsed event: finish, refuse, or fetch_add
    | Decide                             // the comparison with the in-flight limit
    | Enqueue(woken: Option<nat>)        // enqueue's locked section, with its notify_one
    | Subtract                           // fetch_sub of a refused request
    | Deny                               // the refusal is sent
    | EndIo                              // the quit functor has run and the thread ends
    | Lock(w: nat)                       // a worker's locked section
    | Spurious(w: nat)                   // a wait returns by itself
    | Send(w: nat)
    | Release(w: nat)                    // a worker's fetch_sub
    | SetStopping
    | JoinIo
    | LockStopping
    | NotifyAll
    | JoinWorkers
    | SwapQueue

  predicate AnyAsleep(ws: seq<Worker>) {
    exists w :: 0 <= w < |ws| && ws[w].Asleep?
  }

  predicate Accepts(s: Server) {
    !s.stopping && |s.queue| < MAX_QUEUED
  }

  predicate Enabled(s: Server, e: Event) {
    match e
    case Deliver(c, chunk) =>
      s.io.Idle? && ParserOf(s, c).Valid() && S.OnMessageTurn(ParserOf(s, c), chunk).outcome != S.Broken
    case Next => s.io.Serving?
    case Decide => s.io.Claimed? && s.io.before >= MAX_IN_FLIGHT
    case Enqueue(woken) =>
      && s.io.Claimed? && s.io.before < MAX_IN_FLIGHT
      && (woken.Some? ==> woken.value < |s.workers| && s.workers[woken.value].Asleep?)
      && (woken.Some? <==> Accepts(s) && AnyAsleep(s.workers))
    case Subtract => s.io.Refused?
    case Deny => s.io.Denied?
    case EndIo => s.io.Idle? && !s.stopper.Up?
    case Lock(w) => w < |s.workers| && s.workers[w].Fresh?
    case Spurious(w) => w < |s.workers| && s.workers[w].Asleep?
    case Send(w) => w < |s.workers| && s.workers[w].Busy?
    case Release(w) => w < |s.workers| && s.workers[w].Replied?
    case SetStopping => s.stopper.Up?
    case JoinIo => s.stopper.Flagged? && s.io.Ended?
    case LockStopping => s.stopper.IoJoined?
    case NotifyAll => s.stopper.Locked?
    case JoinWorkers => s.stopper.Notified? && forall w <- s.workers :: w.Exited?
    case SwapQueue => s.stopper.WorkersJoined?
  }

  // ---- steps ----

  function DoDeliver(s: Server, c: nat, chunk: bytes): Server
    requires Enabled(s, Deliver(c, chunk))
  {
    var t := S.OnMessageTurn(ParserOf(s, c), chunk);
    s.(io := Serving(c, t.events), parsers := s.parsers[c := t.parser],
       delivered := s.delivered[c := ChunksOf(s, c) + [chunk]])
  }

  function Answer(s: Server, to: Arrival, kind: Kind): Server {
    s.(replies := s.replies + [Reply(to.conn, RequestId(to.event), kind, to)])
  }

  function DoNext(s: Server): Server
    requires Enabled(s, Next)
  {
    var Serving(c, todo) := s.io;
    if todo == [] then s.(io := Idle)
    else
      var a := Arrival(|s.arrived|, c, todo[0]);
      var t := s.(arrived := s.arrived + [a]);
      match todo[0]
      case RejectTarget(_) => Answer(t, a, BadTarget).(io := Serving(c, todo[1..]))
      case Dispatch(_) => t.(pending := s.pending[c := Pending(s, c) + 1], io := Claimed(a, Pending(s, c), todo[1..]))
  }

  function DoEnqueue(s: Server, woken: Option<nat>): Server
    requires Enabled(s, Enqueue(woken))
  {
    var Claimed(job, _, todo) := s.io;
    if !Accepts(s) then s.(io := Refused(job, QueueFull, todo))
    else s.(io := Serving(job.conn, todo), queue := s.queue + [job], accepted := s.accepted + [job],
            workers := if woken.Some? then s.workers[woken.value := Fresh] else s.workers)
  }

  function DoLock(s: Server, w: nat): Server
    requires Enabled(s, Lock(w))
  {
    if s.queue != [] then
      s.(workers := s.workers[w := Busy(s.queue[0])], queue := s.queue[1..], popped := s.popped + [s.queue[0]])
    else s.(workers := s.workers[w := if s.stopping then Exited else Asleep])
  }

  function WakeAll(ws: seq<Worker>): seq<Worker> {
    seq(|ws|, i requires 0 <= i < |ws| => if ws[i].Asleep? then Fresh else ws[i])
  }

  function Step(s: Server, e: Event): Server
    requires Enabled(s, e)
  {
    match e
    case Deliver(c, chunk) => DoDeliver(s, c, chunk)
    case Next => DoNext(s)
    case Decide => s.(io := Refused(s.io.job, TooMany, s.io.todo))
    case Enqueue(woken) => DoEnqueue(s, woken)
    case Subtract =>
      s.(io := Denied(s.io.job, s.io.kind, s.io.todo),
         pending := s.pending[s.io.job.conn := Pending(s, s.io.job.conn) - 1])
    case Deny => Answer(s, s.io.job, s.io.kind).(io := Serving(s.io.job.conn, s.io.todo))
    case EndIo => s.(io := Ended)
    case Lock(w) => DoLock(s, w)
    case Spurious(w) => s.(workers := s.workers[w := Fresh])
    case Send(w) => Answer(s, s.workers[w].job, Handled).(workers := s.workers[w := Replied(s.workers[w].job)])
    case Release(w) =>
      s.(workers := s.workers[w := Fresh],
         pending := s.pending[s.workers[w].job.conn := Pending(s, s.workers[w].job.conn) - 1])
    case SetStopping => s.(stopping := true, stopper := Flagged)
    case JoinIo => s.(stopper := IoJoined)
    case LockStopping => s.(stopping := true, stopper := Locked)
    case NotifyAll => s.(workers := WakeAll(s.workers), stopper := Notified)
    case JoinWorkers => s.(stopper := WorkersJoined)
    case SwapQueue => s.(queue := [], stopper := Swapped)
  }

  predicate Legal(s: Server, es: seq<Event>)
    decreases |es|
  {
    es == [] || (Enabled(s, es[0]) && Legal(Step(s, es[0]), es[1..]))
  }

  function Run(s: Server, es: seq<Event>): Server
    requires Legal(s, es)
    decreases |es|
  {
    if es == [] then s else Run(Step(s, es[0]), es[1..])
  }

  // ---- what each step changes ----

  function NewReplies(s: Server, e: Event): seq<Reply>
    requires Enabled(s, e)
  {
    match e
    case Next =>
      if s.io.todo == [] || s.io.todo[0].Dispatch? then []
      else
        var a := Arrival(|s.arrived|, s.io.conn, s.io.todo[0]);
        [Reply(a.conn, RequestId(a.event), BadTarget, a)]
    case Deny => [Reply(s.io.job.conn, RequestId(s.io.job.event), s.io.kind, s.io.job)]
    case Send(w) => [Reply(s.workers[w].job.conn, RequestId(s.workers[w].job.event), Handled, s.workers[w].job)]
    case _ => []
  }

  lemma {:induction false} RepliesDelta(s: Server, e: Event)
    requires Enabled(s, e)
    ensures Step(s, e).replies == s.replies + NewReplies(s, e)
  {
    hide S.OnMessageTurn, WakeAll, RequestId;
    assert s.replies + [] == s.replies;
  }

  lemma {:induction false} QueueDelta(s: Server, e: Event)
    requires Enabled(s, e)
    ensures Step(s, e).queue
         == if e.Enqueue? && Accepts(s) then s.queue + [s.io.job]
            else if e.Lock? && s.queue != [] then s.queue[1..]
            else if e.SwapQueue? then [] else s.queue
    ensures Step(s, e).popped == if e.Lock? && s.queue != [] then s.popped + [s.queue[0]] else s.popped
  {
    hide S.OnMessageTurn, WakeAll, RequestId, Pending;
    match e
    case Lock(w) =>
    case Enqueue(woken) =>
    case SwapQueue =>
    case _ =>
  }

  function NextWorkers(s: Server, e: Event): (ws: seq<Worker>)
    requires Enabled(s, e)
    ensures |ws| == |s.workers|
  {
    match e
    case Enqueue(woken) => if woken.Some? then s.workers[woken.value := Fresh] else s.workers
    case Lock(w) =>
      s.workers[w := if s.queue != [] then Busy(s.queue[0]) else if s.stopping then Exited else Asleep]
    case Spurious(w) => s.workers[w := Fresh]
    case Send(w) => s.workers[w := Replied(s.workers[w].job)]
    case Release(w) => s.workers[w := Fresh]
    case NotifyAll => WakeAll(s.workers)
    case _ => s.workers
  }

  lemma {:induction false} WorkersDelta(s: Server, e: Event)
    requires Enabled(s, e)
    ensures Step(s, e).workers == NextWorkers(s, e)
  {
    hide S.OnMessageTurn, WakeAll, RequestId;
  }

  /** Workers' steps leave the IO thread, stop() and the connections' streams alone. */
  lemma {:induction false} WorkerAlone(s: Server, e: Event)
    requires Enabled(s, e) && (e.Lock? || e.Spurious? || e.Send? || e.Release?)
    ensures var t := Step(s, e);
            && t.io == s.io && t.stopping == s.stopping && t.stopper == s.stopper
            && t.parsers == s.parsers && t.delivered == s.delivered
            && t.arrived == s.arrived && t.accepted == s.accepted
  {
    hide RequestId;
  }

  /** Only parsing touches the streams; other steps of the IO thread keep what it still has to do. */
  lemma {:induction false} StreamsDelta(s: Server, e: Event)
    requires Enabled(s, e) && !e.Deliver? && !e.Next?
    ensures var t := Step(s, e);
            && t.parsers == s.parsers && t.delivered == s.delivered && t.arrived == s.arrived
            && Rest(t.io) == Rest(s.io)
  {
    if e.Lock? || e.Spurious? || e.Send? || e.Release? {
      WorkerAlone(s, e);
      hide Step, Enabled;
    } else {
      hide S.OnMessageTurn, WakeAll, RequestId;
    }
  }

  /** The connection the IO thread is serving, with the events it has still to act on. */
  function Rest(io: Io): (nat, seq<S.Event>) {
    match io
    case Serving(conn, todo) => (conn, todo)
    case Claimed(job, _, todo) => (job.conn, todo)
    case Refused(job, _, todo) => (job.conn, todo)
    case Denied(job, _, todo) => (job.conn, todo)
    case _ => (0, [])
  }

  // ---- counting ----

  function QueuedOn(q: seq<Arrival>, c: nat): nat {
    if q == [] then 0 else (if q[0].conn == c then 1 else 0) + QueuedOn(q[1..], c)
  }

  lemma {:induction false} QueuedSnoc(q: seq<Arrival>, a: Arrival, c: nat)
    ensures QueuedOn(q + [a], c) == QueuedOn(q, c) + if a.conn == c then 1 else 0
  {
    if q != [] {
      assert (q + [a])[1..] == q[1..] + [a];
      QueuedSnoc(q[1..], a, c);
    }
  }

  function HeldOn(w: Worker, c: nat): nat {
    if (w.Busy? || w.Replied?) && w.job.conn == c then 1 else 0
  }

  function RunningOn(ws: seq<Worker>, c: nat): nat {
    if ws == [] then 0 else HeldOn(ws[0], c) + RunningOn(ws[1..], c)
  }

  function FreshCount(ws: seq<Worker>): nat {
    if ws == [] then 0 else (if ws[0].Fresh? then 1 else 0) + FreshCount(ws[1..])
  }

  // One worker's change, seen in each of the sums.

  lemma {:induction false} RunningChanges(ws: seq<Worker>, w: nat, x: Worker, c: nat)
    requires w < |ws|
    ensures RunningOn(ws[w := x], c) + HeldOn(ws[w], c) == RunningOn(ws, c) + HeldOn(x, c)
  {
    if w > 0 {
      assert ws[w := x][1..] == ws[1..][w - 1 := x];
      RunningChanges(ws[1..], w - 1, x, c);
    } else {
      assert ws[w := x][1..] == ws[1..];
    }
  }

  lemma {:induction false} FreshChanges(ws: seq<Worker>, w: nat, x: Worker)
    requires w < |ws|
    ensures FreshCount(ws[w := x]) + (if ws[w].Fresh? then 1 else 0) == FreshCount(ws) + if x.Fresh? then 1 else 0
  {
    if w > 0 {
      assert ws[w := x][1..] == ws[1..][w - 1 := x];
      FreshChanges(ws[1..], w - 1, x);
    } else {
      assert ws[w := x][1..] == ws[1..];
    }
  }

  lemma {:induction false} WakeAllChanges(ws: seq<Worker>, c: nat)
    ensures RunningOn(WakeAll(ws), c) == RunningOn(ws, c)
  {
    if ws != [] {
      assert WakeAll(ws)[1..] == WakeAll(ws[1..]);
      WakeAllChanges(ws[1..], c);
    }
  }

  function InTransit(io: Io, c: nat): nat {
    if (io.Claimed? || io.Refused?) && io.job.conn == c then 1 else 0
  }

  /** Requests on c that are queued or with a worker. */
  function Load(s: Server, c: nat): nat {
    QueuedOn(s.queue, c) + RunningOn(s.workers, c)
  }

  // ---- conservation and limits ----

  ghost predicate Counted(s: Server) {
    forall c: nat :: Pending(s, c) == Load(s, c) + InTransit(s.io, c)
  }

  ghost predicate Limited(s: Server) {
    && (forall c: nat :: Load(s, c) <= MAX_IN_FLIGHT)
    && |s.queue| <= MAX_QUEUED
    && (s.io.Claimed? ==> Load(s, s.io.job.conn) <= s.io.before)
  }

  /** How one step moves the load of one connection: only an accepted request adds to it. */
  lemma {:induction false} LoadStep(s: Server, e: Event, c: nat)
    requires Enabled(s, e) && (e.SwapQueue? ==> s.queue == [])
    ensures Load(Step(s, e), c)
         == Load(s, c)
          + (if e.Enqueue? && Accepts(s) && s.io.job.conn == c then 1 else 0)
          - (if e.Release? && s.workers[e.w].job.conn == c then 1 else 0)
  {
    if e.Enqueue? {
      LoadEnqueue(s, e.woken, c);
    } else if e.Lock? {
      LoadLock(s, e.w, c);
    } else if e.Spurious? || e.Send? || e.Release? {
      LoadWorker(s, e, c);
    } else {
      LoadOther(s, e, c);
    }
    hide Step, Load;
  }

  lemma {:induction false} LoadEnqueue(s: Server, woken: Option<nat>, c: nat)
    requires Enabled(s, Enqueue(woken))
    ensures Load(DoEnqueue(s, woken), c) == Load(s, c) + if Accepts(s) && s.io.job.conn == c then 1 else 0
  {
    if Accepts(s) {
      QueuedSnoc(s.queue, s.io.job, c);
      if woken.Some? { RunningChanges(s.workers, woken.value, Fresh, c); }
    }
    hide QueuedOn, RunningOn;
  }

  lemma {:induction false} LoadLock(s: Server, w: nat, c: nat)
    requires Enabled(s, Lock(w))
    ensures Load(DoLock(s, w), c) == Load(s, c)
  {
    RunningChanges(s.workers, w, DoLock(s, w).workers[w], c);
    hide RunningOn;
  }

  lemma {:induction false} LoadWorker(s: Server, e: Event, c: nat)
    requires Enabled(s, e) && (e.Spurious? || e.Send? || e.Release?)
    ensures Load(Step(s, e), c) == Load(s, c) - if e.Release? && s.workers[e.w].job.conn == c then 1 else 0
  {
    RunningChanges(s.workers, e.w, Step(s, e).workers[e.w], c);
    hide RunningOn, QueuedOn;
    assert Step(s, e).workers == s.workers[e.w := Step(s, e).workers[e.w]] && Step(s, e).queue == s.queue;
  }

  lemma {:induction false} LoadOther(s: Server, e: Event, c: nat)
    requires Enabled(s, e) && (e.SwapQueue? ==> s.queue == [])
    requires !e.Enqueue? && !e.Lock? && !e.Spurious? && !e.Send? && !e.Release?
    ensures Load(Step(s, e), c) == Load(s, c)
  {
    WakeAllChanges(s.workers, c);
    SameJobs(s, e);
    hide *;
    assert QueuedOn(Step(s, e).queue, c) == QueuedOn(s.queue, c);
    assert RunningOn(Step(s, e).workers, c) == RunningOn(s.workers, c);
    LoadIs(s, c);
    LoadIs(Step(s, e), c);
  }

  lemma {:induction false} LoadIs(s: Server, c: nat)
    ensures Load(s, c) == QueuedOn(s.queue, c) + RunningOn(s.workers, c)
  {
  }

  lemma {:induction false} SameJobs(s: Server, e: Event)
    requires Enabled(s, e) && (e.SwapQueue? ==> s.queue == [])
    requires !e.Enqueue? && !e.Lock? && !e.Spurious? && !e.Send? && !e.Release?
    ensures Step(s, e).queue == s.queue
    ensures Step(s, e).workers == if e.NotifyAll? then WakeAll(s.workers) else s.workers
  {
    QueueDelta(s, e);
    WorkersDelta(s, e);
    hide S.OnMessageTurn, Step, WakeAll;
  }

  /** What one step does to a connection's counter. */
  lemma {:induction false} PendingStep(s: Server, e: Event, c: nat)
    requires Enabled(s, e)
    ensures var t := Step(s, e);
            Pending(t, c) - Pending(s, c)
            == (if e.Next? && t.io.Claimed? && t.io.job.conn == c then 1 else 0)
             - (if e.Subtract? && s.io.job.conn == c then 1 else 0)
             - (if e.Release? && s.workers[e.w].job.conn == c then 1 else 0)
  {
    hide S.OnMessageTurn;
  }

  lemma {:induction false} TransitStep(s: Server, e: Event, c: nat)
    requires Enabled(s, e)
    ensures var t := Step(s, e);
            InTransit(t.io, c) - InTransit(s.io, c)
            == (if e.Next? && t.io.Claimed? && t.io.job.conn == c then 1 else 0)
             - (if e.Subtract? && s.io.job.conn == c then 1 else 0)
             - (if e.Enqueue? && Accepts(s) && s.io.job.conn == c then 1 else 0)
  {
    hide S.OnMessageTurn;
  }

  lemma {:induction false} CountedStep(s: Server, e: Event)
    requires Counted(s) && Enabled(s, e) && (e.SwapQueue? ==> s.queue == [])
    ensures Counted(Step(s, e))
  {
    forall c: nat ensures Pending(Step(s, e), c) == Load(Step(s, e), c) + InTransit(Step(s, e).io, c) {
      LoadStep(s, e, c);
      PendingStep(s, e, c);
      TransitStep(s, e, c);
      hide Step, Load, InTransit, Pending;
    }
  }

  lemma {:induction false} LimitedStep(s: Server, e: Event)
    requires Counted(s) && Limited(s) && Enabled(s, e) && (e.SwapQueue? ==> s.queue == [])
    ensures Limited(Step(s, e))
  {
    var t := Step(s, e);
    forall c: nat ensures Load(t, c) <= MAX_IN_FLIGHT {
      LoadStep(s, e, c);
      hide Step, Load;
    }
    if t.io.Claimed? {
      LoadStep(s, e, t.io.job.conn);
      ClaimStep(s, e);
    }
    QueueStep(s, e);
    hide Step, Load, Pending;
  }

  lemma {:induction false} ClaimStep(s: Server, e: Event)
    requires Enabled(s, e) && Step(s, e).io.Claimed?
    ensures var t := Step(s, e);
            && !e.Enqueue?
            && (if e.Next? then t.io.before == Pending(s, t.io.job.conn) && s.io.Serving? else t.io == s.io)
  {
    hide S.OnMessageTurn;
  }

  lemma {:induction false} QueueStep(s: Server, e: Event)
    requires Enabled(s, e)
    ensures |Step(s, e).queue| <= |s.queue| || (|s.queue| < MAX_QUEUED && |Step(s, e).queue| == |s.queue| + 1)
  {
    QueueDelta(s, e);
    hide S.OnMessageTurn, Step;
  }

  // ---- every arrival is somewhere exactly once ----

  function Occurs(q: seq<Arrival>, a: Arrival): nat {
    if q == [] then 0 else (if q[0] == a then 1 else 0) + Occurs(q[1..], a)
  }

  function AnswersTo(rs: seq<Reply>, a: Arrival): nat {
    if rs == [] then 0 else (if rs[0].to == a then 1 else 0) + AnswersTo(rs[1..], a)
  }

  /** Answers given by workers. */
  function HandledTo(rs: seq<Reply>, a: Arrival): nat {
    if rs == [] then 0 else (if rs[0].to == a && rs[0].kind == Handled then 1 else 0) + HandledTo(rs[1..], a)
  }

  function Holds(w: Worker, a: Arrival): nat { if w == Busy(a) then 1 else 0 }

  /** Workers that have popped a and not yet answered it. */
  function OpenOn(ws: seq<Worker>, a: Arrival): nat {
    if ws == [] then 0 else Holds(ws[0], a) + OpenOn(ws[1..], a)
  }

  predicate HasJob(io: Io) { io.Claimed? || io.Refused? || io.Denied? }

  function InHand(io: Io, a: Arrival): nat {
    if HasJob(io) && io.job == a then 1 else 0
  }

  lemma {:induction false} OccursSnoc(q: seq<Arrival>, x: Arrival, a: Arrival)
    ensures Occurs(q + [x], a) == Occurs(q, a) + if x == a then 1 else 0
  {
    if q != [] {
      assert (q + [x])[1..] == q[1..] + [x];
      OccursSnoc(q[1..], x, a);
    }
  }

  lemma {:induction false} AnswersSnoc(rs: seq<Reply>, r: Reply, a: Arrival)
    ensures AnswersTo(rs + [r], a) == AnswersTo(rs, a) + if r.to == a then 1 else 0
    ensures HandledTo(rs + [r], a) == HandledTo(rs, a) + if r.to == a && r.kind == Handled then 1 else 0
  {
    if rs != [] {
      assert (rs + [r])[1..] == rs[1..] + [r];
      AnswersSnoc(rs[1..], r, a);
    }
  }

  lemma {:induction false} OpenChanges(ws: seq<Worker>, w: nat, x: Worker, a: Arrival)
    requires w < |ws|
    ensures OpenOn(ws[w := x], a) + Holds(ws[w], a) == OpenOn(ws, a) + Holds(x, a)
  {
    if w > 0 {
      assert ws[w := x][1..] == ws[1..][w - 1 := x];
      OpenChanges(ws[1..], w - 1, x, a);
    } else {
      assert ws[w := x][1..] == ws[1..];
    }
  }

  lemma {:induction false} OpenWakeAll(ws: seq<Worker>, a: Arrival)
    ensures OpenOn(WakeAll(ws), a) == OpenOn(ws, a)
  {
    if ws != [] {
      assert WakeAll(ws)[1..] == WakeAll(ws[1..]);
      OpenWakeAll(ws[1..], a);
    }
  }

  /** Each arrival is as often answered, queued, open with a worker or in the IO thread's hand
      as it arrived; and as often popped as answered by, or open with, a worker. */
  ghost predicate Conserved(s: Server) {
    && (forall a: Arrival ::
          Occurs(s.arrived, a) == AnswersTo(s.replies, a) + Occurs(s.queue, a) + OpenOn(s.workers, a) + InHand(s.io, a))
    && (forall a: Arrival :: Occurs(s.popped, a) == HandledTo(s.replies, a) + OpenOn(s.workers, a))
    && ((s.io.Refused? || s.io.Denied?) ==> s.io.kind == TooMany || s.io.kind == QueueFull)
  }

  // What each step moves, for one arrival.

  predicate Parses(s: Server, e: Event, a: Arrival)
    requires Enabled(s, e)
  {
    e.Next? && s.io.todo != [] && a == Arrival(|s.arrived|, s.io.conn, s.io.todo[0])
  }

  predicate Pops(s: Server, e: Event, a: Arrival)
    requires Enabled(s, e)
  {
    e.Lock? && s.queue != [] && s.queue[0] == a
  }

  predicate Sends(s: Server, e: Event, a: Arrival)
    requires Enabled(s, e)
  {
    e.Send? && s.workers[e.w].job == a
  }

  predicate Admits(s: Server, e: Event, a: Arrival)
    requires Enabled(s, e)
  {
    e.Enqueue? && Accepts(s) && s.io.job == a
  }

  predicate Denies(s: Server, e: Event, a: Arrival)
    requires Enabled(s, e)
  {
    e.Deny? && s.io.job == a
  }

  function One(b: bool): int { if b then 1 else 0 }

  lemma {:induction false} ArrivedStep(s: Server, e: Event, a: Arrival)
    requires Enabled(s, e)
    ensures Occurs(Step(s, e).arrived, a) == Occurs(s.arrived, a) + One(Parses(s, e, a))
  {
    hide S.OnMessageTurn, Occurs;
    if e.Next? && s.io.todo != [] {
      OccursSnoc(s.arrived, Arrival(|s.arrived|, s.io.conn, s.io.todo[0]), a);
    }
  }

  lemma {:induction false} RepliesStep(s: Server, e: Event, a: Arrival)
    requires Enabled(s, e)
    ensures AnswersTo(Step(s, e).replies, a)
         == AnswersTo(s.replies, a) + One(Parses(s, e, a) && a.event.RejectTarget?)
          + One(Denies(s, e, a)) + One(Sends(s, e, a))
    ensures s.io.Denied? ==> s.io.kind != Handled ==>
            HandledTo(Step(s, e).replies, a) == HandledTo(s.replies, a) + One(Sends(s, e, a))
    ensures !s.io.Denied? ==> HandledTo(Step(s, e).replies, a) == HandledTo(s.replies, a) + One(Sends(s, e, a))
  {
    RepliesDelta(s, e);
    hide S.OnMessageTurn, Step, AnswersTo, HandledTo, RequestId;
    var more := NewReplies(s, e);
    if more != [] {
      assert more == [more[0]];
      AnswersSnoc(s.replies, more[0], a);
    }
    assert s.replies + [] == s.replies;
  }

  lemma {:induction false} QueueMoves(s: Server, e: Event, a: Arrival)
    requires Enabled(s, e) && (e.SwapQueue? ==> s.queue == [])
    ensures Occurs(Step(s, e).queue, a) == Occurs(s.queue, a) + One(Admits(s, e, a)) - One(Pops(s, e, a))
    ensures Occurs(Step(s, e).popped, a) == Occurs(s.popped, a) + One(Pops(s, e, a))
  {
    QueueDelta(s, e);
    hide S.OnMessageTurn, Step;
    if e.Enqueue? && Accepts(s) {
      OccursSnoc(s.queue, s.io.job, a);
    }
    if e.Lock? && s.queue != [] {
      OccursSnoc(s.popped, s.queue[0], a);
    }
  }

  lemma {:induction false} OpenMoves(s: Server, e: Event, a: Arrival)
    requires Enabled(s, e)
    ensures OpenOn(Step(s, e).workers, a) == OpenOn(s.workers, a) + One(Pops(s, e, a)) - One(Sends(s, e, a))
  {
    WorkersDelta(s, e);
    hide S.OnMessageTurn, Step, OpenOn, WakeAll;
    var ws := NextWorkers(s, e);
    if e.Lock? || e.Spurious? || e.Send? || e.Release? {
      OpenChanges(s.workers, e.w, ws[e.w], a);
      assert ws == s.workers[e.w := ws[e.w]];
    } else if e.Enqueue? && e.woken.Some? {
      OpenChanges(s.workers, e.woken.value, Fresh, a);
    } else if e.NotifyAll? {
      OpenWakeAll(s.workers, a);
    }
  }

  lemma {:induction false} HandMoves(s: Server, e: Event, a: Arrival)
    requires Enabled(s, e)
    ensures InHand(Step(s, e).io, a)
         == InHand(s.io, a) + One(Parses(s, e, a) && a.event.Dispatch?) - One(Admits(s, e, a)) - One(Denies(s, e, a))
    ensures var t := Step(s, e);
            (t.io.Refused? || t.io.Denied?)
            ==> t.io.kind == TooMany || t.io.kind == QueueFull
                || ((s.io.Refused? || s.io.Denied?) && t.io.kind == s.io.kind)
  {
    hide S.OnMessageTurn;
  }

  lemma {:induction false} ConservedStep(s: Server, e: Event)
    requires Conserved(s) && Enabled(s, e) && (e.SwapQueue? ==> s.queue == [])
    ensures Conserved(Step(s, e))
  {
    var t := Step(s, e);
    forall a: Arrival
      ensures Occurs(t.arrived, a)
           == AnswersTo(t.replies, a) + Occurs(t.queue, a) + OpenOn(t.workers, a) + InHand(t.io, a)
      ensures Occurs(t.popped, a) == HandledTo(t.replies, a) + OpenOn(t.workers, a)
    {
      ArrivedStep(s, e, a);
      RepliesStep(s, e, a);
      QueueMoves(s, e, a);
      OpenMoves(s, e, a);
      HandMoves(s, e, a);
      hide Step, Occurs, AnswersTo, HandledTo, OpenOn, InHand, Enabled, Parses, Pops, Sends, Admits, Denies;
    }
    HandMoves(s, e, Arrival(0, 0, S.RejectTarget(0)));
    hide Step, Occurs, AnswersTo, HandledTo, OpenOn, InHand, Enabled;
  }

  // ---- order ----

  ghost predicate Increasing(xs: seq<Arrival>) {
    forall i, j :: 0 <= i < j < |xs| ==> xs[i].serial < xs[j].serial
  }

  ghost predicate Serials(arrived: seq<Arrival>) {
    forall k :: 0 <= k < |arrived| ==> arrived[k].serial == k
  }

  ghost predicate Drawn(xs: seq<Arrival>, arrived: seq<Arrival>, bound: nat) {
    forall i :: 0 <= i < |xs| ==> xs[i].serial < bound && bound <= |arrived| && arrived[xs[i].serial] == xs[i]
  }

  /** The queue is first in, first out, and follows the order of arrival; a request that is
      still with the IO thread is the latest arrival and not yet among the accepted. */
  ghost predicate Ordered(s: Server) {
    && s.accepted == s.popped + s.queue
    && Serials(s.arrived) && Increasing(s.accepted)
    && (HasJob(s.io) ==> s.arrived != [] && s.io.job == s.arrived[|s.arrived| - 1])
    && Drawn(s.accepted, s.arrived, if HasJob(s.io) then |s.arrived| - 1 else |s.arrived|)
  }

  lemma {:induction false} OrderedNext(s: Server)
    requires Ordered(s) && Enabled(s, Next)
    ensures Ordered(DoNext(s))
  {
    var n := |s.arrived|;
    hide Increasing, Serials, Drawn, RequestId, Pending;
    if s.io.todo != [] {
      var more := [Arrival(n, s.io.conn, s.io.todo[0])];
      assert DoNext(s).arrived == s.arrived + more && (s.arrived + more)[n] == more[0];
      DrawnGrows(s.accepted, s.arrived, more, n, n);
      DrawnGrows(s.accepted, s.arrived, more, n, n + 1);
      SerialsSnoc(s.arrived, more[0]);
    }
  }

  lemma {:induction false} SerialsSnoc(arrived: seq<Arrival>, a: Arrival)
    requires Serials(arrived) && a.serial == |arrived|
    ensures Serials(arrived + [a]) && (arrived + [a])[|arrived|] == a
  {
  }

  lemma {:induction false} DrawnGrows(xs: seq<Arrival>, arrived: seq<Arrival>, more: seq<Arrival>, b: nat, c: nat)
    requires Drawn(xs, arrived, b) && b <= c <= |arrived| + |more|
    ensures Drawn(xs, arrived + more, c)
  {
  }

  lemma {:induction false} OrderedEnqueue(s: Server, woken: Option<nat>)
    requires Ordered(s) && Enabled(s, Enqueue(woken))
    ensures Ordered(DoEnqueue(s, woken))
  {
    if Accepts(s) {
      var job := s.io.job;
      assert (s.popped + s.queue) + [job] == s.popped + (s.queue + [job]);
    }
  }

  lemma {:induction false} OrderedLock(s: Server, w: nat)
    requires Ordered(s) && Enabled(s, Lock(w))
    ensures Ordered(DoLock(s, w))
  {
    if s.queue != [] {
      assert s.popped + s.queue == (s.popped + [s.queue[0]]) + s.queue[1..];
    }
    hide Increasing, Serials, Drawn;
  }

  lemma {:induction false} OrderedStep(s: Server, e: Event)
    requires Ordered(s) && Enabled(s, e) && (e.SwapQueue? ==> s.queue == [])
    ensures Ordered(Step(s, e))
  {
    hide S.OnMessageTurn, WakeAll, Increasing, Serials, Drawn;
    match e
    case Next => OrderedNext(s);
    case Enqueue(woken) => OrderedEnqueue(s, woken);
    case Lock(w) => OrderedLock(s, w);
    case Deny =>
      DrawnGrows(s.accepted, s.arrived, [], |s.arrived| - 1, |s.arrived|);
      assert s.arrived + [] == s.arrived;
    case _ =>
  }

  /** Every sendResponse goes to the connection the request came from, with its own id. */
  predicate OwnReply(r: Reply) {
    r.conn == r.to.conn && r.requestId == RequestId(r.to.event)
  }

  ghost predicate OwnReplies(s: Server) {
    forall i :: 0 <= i < |s.replies| ==> OwnReply(s.replies[i])
  }

  lemma {:induction false} OwnRepliesStep(s: Server, e: Event)
    requires OwnReplies(s) && Enabled(s, e)
    ensures OwnReplies(Step(s, e))
  {
    RepliesDelta(s, e);
    hide S.OnMessageTurn, Step, RequestId;
    assert forall i :: 0 <= i < |NewReplies(s, e)| ==> OwnReply(NewReplies(s, e)[i]);
    hide NewReplies, Enabled;
  }

  // ---- stopping ----

  function Progress(k: Stopper): nat {
    match k
    case Up => 0
    case Flagged => 1
    case IoJoined => 2
    case Locked => 3
    case Notified => 4
    case WorkersJoined => 5
    case Swapped => 6
  }

  ghost predicate AllExited(ws: seq<Worker>) {
    forall w :: 0 <= w < |ws| ==> ws[w].Exited?
  }

  ghost predicate SomeExited(ws: seq<Worker>) {
    exists w :: 0 <= w < |ws| && ws[w].Exited?
  }

  /** Workers leave only an empty queue behind, after stopping; and each stage of stop() finds
      what the stage before it waited for. */
  ghost predicate StopOrder(s: Server) {
    && (SomeExited(s.workers) ==> s.stopping && s.queue == [])
    && (Progress(s.stopper) >= 1 ==> s.stopping)
    && (Progress(s.stopper) >= 2 ==> s.io.Ended?)
    && (Progress(s.stopper) >= 4 ==> !AnyAsleep(s.workers))
    && (Progress(s.stopper) >= 5 ==> AllExited(s.workers))
    && (s.io.Ended? ==> s.stopping)
    && s.workers != []
  }

  lemma {:induction false} StopWorker(s: Server, e: Event)
    requires StopOrder(s) && Enabled(s, e) && (e.Lock? || e.Spurious? || e.Send? || e.Release?)
    ensures StopOrder(Step(s, e))
  {
    WorkersDelta(s, e);
    WorkerAlone(s, e);
    QueueDelta(s, e);
    hide Step;
    var ws := NextWorkers(s, e);
    if SomeExited(ws) {
      var w :| 0 <= w < |ws| && ws[w].Exited?;
      assert w != e.w ==> s.workers[w].Exited?;
    }
    if AnyAsleep(ws) {
      var w :| 0 <= w < |ws| && ws[w].Asleep?;
      assert w != e.w ==> s.workers[w].Asleep?;
    }
  }

  lemma {:induction false} StopEnqueue(s: Server, woken: Option<nat>)
    requires StopOrder(s) && Enabled(s, Enqueue(woken))
    ensures StopOrder(DoEnqueue(s, woken))
  {
    var t := DoEnqueue(s, woken);
    if SomeExited(t.workers) {
      var w :| 0 <= w < |t.workers| && t.workers[w].Exited?;
      assert s.workers[w].Exited?;
    }
    if AnyAsleep(t.workers) {
      var w :| 0 <= w < |t.workers| && t.workers[w].Asleep?;
      assert s.workers[w].Asleep?;
    }
  }

  lemma {:induction false} WakeAllWakes(ws: seq<Worker>)
    ensures !AnyAsleep(WakeAll(ws)) && (SomeExited(WakeAll(ws)) <==> SomeExited(ws))
    ensures |WakeAll(ws)| == |ws|
  {
    if SomeExited(ws) {
      var w :| 0 <= w < |ws| && ws[w].Exited?;
      assert WakeAll(ws)[w].Exited?;
    }
  }

  lemma {:induction false} StopStep(s: Server, e: Event)
    requires StopOrder(s) && Enabled(s, e)
    ensures StopOrder(Step(s, e))
    ensures s.stopping ==> Step(s, e).stopping && Step(s, e).accepted == s.accepted
    ensures e.SwapQueue? ==> s.queue == []
  {
    if e.Lock? || e.Spurious? || e.Send? || e.Release? {
      StopWorker(s, e);
    } else if e.Enqueue? {
      StopEnqueue(s, e.woken);
    } else {
      hide S.OnMessageTurn, WakeAll, AnyAsleep, SomeExited, AllExited;
      WakeAllWakes(s.workers);
      StopIo(s, e);
      if e.JoinWorkers? { JoinedMeansExited(s); }
    }
    hide StopOrder;
    if e.SwapQueue? { SwapFindsNothing(s); }
    hide *;
    if s.stopping { AcceptedStep(s, e); }
  }

  lemma {:induction false} StopIo(s: Server, e: Event)
    requires Enabled(s, e) && !(e.Lock? || e.Spurious? || e.Send? || e.Release? || e.Enqueue?)
    ensures var t := Step(s, e);
            && t.queue == (if e.SwapQueue? then [] else s.queue)
            && t.workers == (if e.NotifyAll? then WakeAll(s.workers) else s.workers)
            && t.stopping == (s.stopping || e.SetStopping? || e.LockStopping?)
            && (t.io.Ended? <==> s.io.Ended? || e.EndIo?)
            && (e.EndIo? ==> Progress(s.stopper) >= 1) && (e.JoinIo? ==> s.io.Ended?)
            && Progress(t.stopper) == Progress(s.stopper) + if Stage(e).Some? then 1 else 0
    ensures Stage(e).Some? ==> Progress(s.stopper) == Stage(e).value
  {
    hide S.OnMessageTurn, WakeAll, DoDeliver, DoNext;
    if e.Deliver? || e.Next? { IoAlone(s, e); }
  }

  /** The stage of stop() a step belongs to, by the progress it starts from. */
  function Stage(e: Event): Option<nat> {
    match e
    case SetStopping => Some(0)
    case JoinIo => Some(1)
    case LockStopping => Some(2)
    case NotifyAll => Some(3)
    case JoinWorkers => Some(4)
    case SwapQueue => Some(5)
    case _ => None
  }

  lemma {:induction false} IoAlone(s: Server, e: Event)
    requires Enabled(s, e) && (e.Deliver? || e.Next?)
    ensures var t := Step(s, e);
            && t.queue == s.queue && t.workers == s.workers && t.stopping == s.stopping && t.stopper == s.stopper
            && !s.io.Ended? && !t.io.Ended?
  {
    hide S.OnMessageTurn;
  }

  lemma {:induction false} JoinedMeansExited(s: Server)
    requires Enabled(s, JoinWorkers)
    ensures AllExited(s.workers)
  {
    assert forall w :: 0 <= w < |s.workers| ==> s.workers[w] in s.workers;
  }

  /** Nothing is accepted once stopping is set. */
  lemma {:induction false} AcceptedStep(s: Server, e: Event)
    requires Enabled(s, e) && s.stopping
    ensures Step(s, e).stopping && Step(s, e).accepted == s.accepted
  {
    hide S.OnMessageTurn, WakeAll;
  }

  lemma {:induction false} SwapFindsNothing(s: Server)
    requires StopOrder(s) && Progress(s.stopper) >= 5
    ensures s.queue == []
  {
    assert s.workers[0].Exited?;
  }

  /** The notifications suffice: while a worker sleeps there is an awake one for every queued
      request, each about to take one. */
  ghost predicate Attended(s: Server) {
    AnyAsleep(s.workers) ==> |s.queue| <= FreshCount(s.workers)
  }

  lemma {:induction false} AttendedWorker(s: Server, e: Event)
    requires Attended(s) && Enabled(s, e) && (e.Lock? || e.Spurious? || e.Send? || e.Release?)
    ensures Attended(Step(s, e))
  {
    var t := Step(s, e);
    FreshChanges(s.workers, e.w, t.workers[e.w]);
    hide FreshCount;
    assert t.workers == s.workers[e.w := t.workers[e.w]];
    if AnyAsleep(t.workers) {
      var w :| 0 <= w < |t.workers| && t.workers[w].Asleep?;
      if w == e.w {
        assert t.queue == [];
      } else {
        assert s.workers[w].Asleep?;
      }
    }
  }

  lemma {:induction false} AttendedEnqueue(s: Server, woken: Option<nat>)
    requires Attended(s) && Enabled(s, Enqueue(woken))
    ensures Attended(DoEnqueue(s, woken))
  {
    var t := DoEnqueue(s, woken);
    if woken.Some? {
      FreshChanges(s.workers, woken.value, Fresh);
      assert AnyAsleep(s.workers);
    }
    hide FreshCount;
  }

  lemma {:induction false} AttendedStep(s: Server, e: Event)
    requires Attended(s) && Enabled(s, e)
    ensures Attended(Step(s, e))
  {
    if e.Lock? || e.Spurious? || e.Send? || e.Release? {
      AttendedWorker(s, e);
    } else if e.Enqueue? {
      AttendedEnqueue(s, e.woken);
    } else {
      StopIo(s, e);
      WakeAllWakes(s.workers);
      hide Step, Enabled, AnyAsleep, FreshCount, WakeAll;
    }
  }

  // ---- the streams behind the arrivals ----

  function EventsOn(arrived: seq<Arrival>, c: nat): seq<S.Event> {
    if arrived == [] then [] else (if arrived[0].conn == c then [arrived[0].event] else []) + EventsOn(arrived[1..], c)
  }

  lemma {:induction false} EventsSnoc(arrived: seq<Arrival>, a: Arrival, c: nat)
    ensures EventsOn(arrived + [a], c) == EventsOn(arrived, c) + if a.conn == c then [a.event] else []
  {
    if arrived != [] {
      assert (arrived + [a])[1..] == arrived[1..] + [a];
      EventsSnoc(arrived[1..], a, c);
    }
  }

  function TodoOn(io: Io, c: nat): seq<S.Event> {
    if Rest(io).0 == c then Rest(io).1 else []
  }

  /** For each connection: its parser is where its chunks brought it, and the chunks' events
      are the arrivals so far, then those the IO thread has still to act on. */
  ghost predicate Streams(s: Server) {
    forall c: nat :: StreamOf(s, c)
  }

  ghost predicate StreamOf(s: Server, c: nat) {
    var t := S.Session(F.FRESH, ChunksOf(s, c));
    && t.parser == ParserOf(s, c) && t.outcome != S.Broken
    && t.events == EventsOn(s.arrived, c) + TodoOn(s.io, c)
  }

  lemma {:induction false} SessionSnoc(p: F.Parser, chunks: seq<bytes>, chunk: bytes)
    requires p.Valid() && S.Session(p, chunks).outcome != S.Broken
    ensures var t := S.Session(p, chunks);
            && t.parser.Valid()
            && var u := S.OnMessageTurn(t.parser, chunk);
               u.outcome != S.Broken
               ==> var v := S.Session(p, chunks + [chunk]);
                   v.parser == u.parser && v.outcome != S.Broken && v.events == t.events + u.events
    decreases |chunks|
  {
    hide S.OnMessageTurn;
    if chunks == [] {
      assert (chunks + [chunk])[1..] == [];
      assert S.OnMessageTurn(p, chunk).events + [] == S.OnMessageTurn(p, chunk).events;
    } else {
      assert (chunks + [chunk])[1..] == chunks[1..] + [chunk];
      var first := S.OnMessageTurn(p, chunks[0]);
      SessionSnoc(first.parser, chunks[1..], chunk);
      var t := S.Session(first.parser, chunks[1..]);
      var u := S.OnMessageTurn(t.parser, chunk);
      assert first.events + (t.events + u.events) == (first.events + t.events) + u.events;
    }
  }

  lemma {:induction false} StreamsDeliver(s: Server, c: nat, chunk: bytes, d: nat)
    requires StreamOf(s, d) && Enabled(s, Deliver(c, chunk))
    ensures StreamOf(DoDeliver(s, c, chunk), d)
  {
    hide S.OnMessageTurn, S.Session, EventsOn;
    if c == d {
      SessionSnoc(F.FRESH, ChunksOf(s, c), chunk);
      assert EventsOn(s.arrived, c) + [] == EventsOn(s.arrived, c);
    }
  }

  lemma {:induction false} StreamsNext(s: Server, c: nat)
    requires StreamOf(s, c) && Enabled(s, Next)
    ensures StreamOf(DoNext(s), c)
  {
    NextMovesEvent(s, c);
    NextParsesNothing(s, c);
    hide S.OnMessageTurn, S.Session, EventsOn, DoNext, TodoOn, Enabled, ChunksOf, ParserOf;
  }

  lemma {:induction false} NextParsesNothing(s: Server, c: nat)
    requires Enabled(s, Next)
    ensures ChunksOf(DoNext(s), c) == ChunksOf(s, c) && ParserOf(DoNext(s), c) == ParserOf(s, c)
  {
  }

  /** Parsing's next event moves from the IO thread's list to the arrivals. */
  lemma {:induction false} NextMovesEvent(s: Server, c: nat)
    requires Enabled(s, Next)
    ensures EventsOn(DoNext(s).arrived, c) + TodoOn(DoNext(s).io, c) == EventsOn(s.arrived, c) + TodoOn(s.io, c)
  {
    var todo := s.io.todo;
    hide S.OnMessageTurn, EventsOn;
    if todo != [] {
      var a := Arrival(|s.arrived|, s.io.conn, todo[0]);
      EventsSnoc(s.arrived, a, c);
      assert DoNext(s).arrived == s.arrived + [a];
      assert TodoOn(DoNext(s).io, c) == if s.io.conn == c then todo[1..] else [];
      hide DoNext, TodoOn;
      assert todo == [todo[0]] + todo[1..];
      JoinEvents(EventsOn(s.arrived, c), [todo[0]], todo[1..]);
    }
  }

  lemma {:induction false} JoinEvents(x: seq<S.Event>, y: seq<S.Event>, z: seq<S.Event>)
    ensures (x + y) + z == x + (y + z) && x + [] == x
  {
  }

  lemma {:induction false} StreamsOther(s: Server, e: Event, c: nat)
    requires StreamOf(s, c) && Enabled(s, e) && !e.Deliver? && !e.Next?
    ensures StreamOf(Step(s, e), c)
  {
    StreamsDelta(s, e);
    hide S.OnMessageTurn, S.Session, EventsOn, Step, Enabled;
  }

  lemma {:induction false} StreamsStep(s: Server, e: Event)
    requires Streams(s) && Enabled(s, e)
    ensures Streams(Step(s, e))
  {
    forall c: nat ensures StreamOf(Step(s, e), c) {
      assert StreamOf(s, c);
      hide StreamOf;
      match e
      case Deliver(d, chunk) => StreamsDeliver(s, d, chunk, c);
      case Next => StreamsNext(s, c);
      case _ => StreamsOther(s, e, c);
    }
  }

  // ---- whole runs ----

  ghost predicate Invariant(s: Server) {
    && Counted(s) && Limited(s) && Conserved(s) && Ordered(s) && OwnReplies(s)
    && StopOrder(s) && Attended(s) && Streams(s)
  }

  lemma {:induction false} StepKeeps(s: Server, e: Event)
    requires Invariant(s) && Enabled(s, e)
    ensures Invariant(Step(s, e))
    ensures s.stopping ==> Step(s, e).stopping && Step(s, e).accepted == s.accepted
  {
    StopStep(s, e);
    CountedStep(s, e);
    LimitedStep(s, e);
    ConservedStep(s, e);
    OrderedStep(s, e);
    OwnRepliesStep(s, e);
    AttendedStep(s, e);
    StreamsStep(s, e);
    hide *;
    FromParts(Step(s, e));
  }

  lemma {:induction false} FromParts(s: Server)
    requires Counted(s) && Limited(s) && Conserved(s) && Ordered(s) && OwnReplies(s)
    requires StopOrder(s) && Attended(s) && Streams(s)
    ensures Invariant(s)
  {
  }

  lemma {:induction false} InitialHolds(workerCount: nat)
    requires workerCount > 0
    ensures Invariant(Initial(workerCount))
  {
    forall c: nat ensures RunningOn(Initial(workerCount).workers, c) == 0 { NoneRunning(workerCount, c); }
    forall a: Arrival ensures OpenOn(Initial(workerCount).workers, a) == 0 { NoneOpen(workerCount, a); }
    hide S.OnMessageTurn;
  }

  lemma {:induction false} NoneRunning(n: nat, c: nat)
    ensures RunningOn(seq(n, _ => Fresh), c) == 0
  {
    if n > 0 {
      assert seq(n, _ => Fresh)[1..] == seq(n - 1, _ => Fresh);
      NoneRunning(n - 1, c);
    }
  }

  lemma {:induction false} NoneOpen(n: nat, a: Arrival)
    ensures OpenOn(seq(n, _ => Fresh), a) == 0
  {
    if n > 0 {
      assert seq(n, _ => Fresh)[1..] == seq(n - 1, _ => Fresh);
      NoneOpen(n - 1, a);
    }
  }

  lemma {:induction false} RunKeeps(s: Server, es: seq<Event>)
    requires Invariant(s) && Legal(s, es)
    ensures Invariant(Run(s, es))
    ensures s.stopping ==> Run(s, es).stopping && Run(s, es).accepted == s.accepted
    decreases |es|
  {
    hide Invariant, Step, Enabled;
    if es != [] {
      StepKeeps(s, es[0]);
      RunKeeps(Step(s, es[0]), es[1..]);
    }
  }

  // ---- main results ----

  /** In every interleaving: a connection's counter is its queued and running requests plus at
      most one in transit on the IO thread, so it never underflows; the requests accepted and
      unanswered never exceed the limit, nor the queue its own. */
  lemma {:induction false} CountersConserved(workerCount: nat, es: seq<Event>, c: nat)
    requires workerCount > 0 && Legal(Initial(workerCount), es)
    ensures var s := Run(Initial(workerCount), es);
            && Pending(s, c) == QueuedOn(s.queue, c) + RunningOn(s.workers, c) + InTransit(s.io, c)
            && 0 <= Pending(s, c) <= 1024 + 1
            && QueuedOn(s.queue, c) + RunningOn(s.workers, c) <= 1024
            && |s.queue| <= 8192
  {
    InitialHolds(workerCount);
    RunKeeps(Initial(workerCount), es);
    hide Conserved, Ordered, OwnReplies, StopOrder, Attended, Streams, Run, Legal, QueuedOn, RunningOn;
  }

  /** A request is refused for its connection's load exactly when that is at the limit when the
      counter is taken, and for the queue exactly when stopping or full when it is locked; and
      the kind of the refusal says which. */
  lemma {:induction false} RefusedExactly(workerCount: nat, es: seq<Event>, woken: Option<nat>)
    requires workerCount > 0 && Legal(Initial(workerCount), es)
    ensures var s := Run(Initial(workerCount), es);
            && (Enabled(s, Next) && s.io.todo != [] && s.io.todo[0].Dispatch?
                ==> var t := Step(s, Next);
                    && t.io.Claimed? && (Enabled(t, Decide) <==> Load(s, s.io.conn) == 1024)
                    && (Enabled(t, Decide) ==> Step(t, Decide).io == Refused(t.io.job, TooMany, t.io.todo)))
            && (Enabled(s, Enqueue(woken))
                ==> var t := Step(s, Enqueue(woken));
                    if s.stopping || |s.queue| == 8192 then t.io == Refused(s.io.job, QueueFull, s.io.todo)
                    else t.io == Serving(s.io.job.conn, s.io.todo) && t.queue == s.queue + [s.io.job])
  {
    InitialHolds(workerCount);
    RunKeeps(Initial(workerCount), es);
    var s := Run(Initial(workerCount), es);
    hide Conserved, Ordered, OwnReplies, StopOrder, Attended, Streams, Run, Legal;
    if s.io.Serving? {
      assert Pending(s, s.io.conn) == Load(s, s.io.conn) && Load(s, s.io.conn) <= MAX_IN_FLIGHT;
    }
    assert |s.queue| <= MAX_QUEUED;
    hide Counted, Limited, Invariant, Load;
    RefusalSteps(s, woken);
  }

  lemma {:induction false} RefusalSteps(s: Server, woken: Option<nat>)
    requires s.io.Serving? ==> Pending(s, s.io.conn) == Load(s, s.io.conn) <= MAX_IN_FLIGHT
    requires |s.queue| <= MAX_QUEUED
    ensures Enabled(s, Next) && s.io.todo != [] && s.io.todo[0].Dispatch?
            ==> var t := Step(s, Next);
                && t.io.Claimed? && (Enabled(t, Decide) <==> Load(s, s.io.conn) == 1024)
                && (Enabled(t, Decide) ==> Step(t, Decide).io == Refused(t.io.job, TooMany, t.io.todo))
    ensures Enabled(s, Enqueue(woken))
            ==> var t := Step(s, Enqueue(woken));
                if s.stopping || |s.queue| == 8192 then t.io == Refused(s.io.job, QueueFull, s.io.todo)
                else t.io == Serving(s.io.job.conn, s.io.todo) && t.queue == s.queue + [s.io.job]
  {
    hide S.OnMessageTurn, Load, WakeAll;
  }

  /** A refusal once decided is sent as decided, whatever the other threads do meanwhile: no
      step but its own touches it, and the last one answers the request with its kind. */
  lemma {:induction false} RefusalIsSent(s: Server, e: Event)
    requires Enabled(s, e) && (s.io.Refused? || s.io.Denied?)
    ensures var t, job := Step(s, e), s.io.job;
            if s.io.Refused? then
              t.io == if e.Subtract? then Denied(job, s.io.kind, s.io.todo) else s.io
            else if e.Deny? then
              && t.io == Serving(job.conn, s.io.todo)
              && t.replies == s.replies + [Reply(job.conn, RequestId(job.event), s.io.kind, job)]
            else t.io == s.io
  {
    if e.Lock? || e.Spurious? || e.Send? || e.Release? {
      WorkerAlone(s, e);
      hide Step, Enabled;
    } else {
      hide S.OnMessageTurn, WakeAll, RequestId, Pending;
    }
  }

  // ---- which requests are answered how ----

  predicate ForWorkers(a: Arrival) { a.event.Dispatch? }

  /** Only requests with a target are queued, worked on or refused, and only those without are
      answered for it. */
  ghost predicate Sorted(s: Server) {
    && (forall i :: 0 <= i < |s.queue| ==> ForWorkers(s.queue[i]))
    && (forall w :: 0 <= w < |s.workers| && s.workers[w].Busy? ==> ForWorkers(s.workers[w].job))
    && (HasJob(s.io) ==> ForWorkers(s.io.job))
    && ((s.io.Refused? || s.io.Denied?) ==> s.io.kind == TooMany || s.io.kind == QueueFull)
    && (forall i :: 0 <= i < |s.replies| ==> (s.replies[i].kind == BadTarget <==> !ForWorkers(s.replies[i].to)))
  }

  lemma {:induction false} SortedIo(s: Server, e: Event)
    requires Sorted(s) && Enabled(s, e)
    ensures var io := Step(s, e).io;
            && (HasJob(io) ==> ForWorkers(io.job))
            && ((io.Refused? || io.Denied?) ==> io.kind == TooMany || io.kind == QueueFull)
  {
    if e.Lock? || e.Spurious? || e.Send? || e.Release? {
      WorkerAlone(s, e);
      hide Step, Enabled;
    } else {
      hide S.OnMessageTurn, WakeAll, RequestId, Pending;
    }
  }

  lemma {:induction false} SortedReplies(s: Server, e: Event)
    requires Sorted(s) && Enabled(s, e)
    ensures forall i :: 0 <= i < |NewReplies(s, e)| ==>
              (NewReplies(s, e)[i].kind == BadTarget <==> !ForWorkers(NewReplies(s, e)[i].to))
  {
    hide S.OnMessageTurn, Step, RequestId;
  }

  lemma {:induction false} SortedWorkers(s: Server, e: Event)
    requires Sorted(s) && Enabled(s, e)
    ensures forall w :: 0 <= w < |s.workers| && NextWorkers(s, e)[w].Busy? ==> ForWorkers(NextWorkers(s, e)[w].job)
  {
    hide S.OnMessageTurn, Step, RequestId, ForWorkers;
  }

  lemma {:induction false} SortedStep(s: Server, e: Event)
    requires Sorted(s) && Enabled(s, e)
    ensures Sorted(Step(s, e))
  {
    SortedIo(s, e);
    SortedReplies(s, e);
    SortedWorkers(s, e);
    RepliesDelta(s, e);
    QueueDelta(s, e);
    WorkersDelta(s, e);
    hide S.OnMessageTurn, Step, NewReplies, NextWorkers, ForWorkers;
  }

  lemma {:induction false} SortedRun(s: Server, es: seq<Event>)
    requires Sorted(s) && Legal(s, es)
    ensures Sorted(Run(s, es))
    decreases |es|
  {
    hide Sorted, Step, Enabled;
    if es != [] {
      SortedStep(s, es[0]);
      SortedRun(Step(s, es[0]), es[1..]);
    }
  }

  lemma {:induction false} HandledAreAnswers(rs: seq<Reply>, a: Arrival)
    ensures HandledTo(rs, a) <= AnswersTo(rs, a)
  {
    if rs != [] {
      HandledAreAnswers(rs[1..], a);
    }
  }

  lemma {:induction false} ReplyCounted(rs: seq<Reply>, k: nat)
    requires k < |rs|
    ensures if rs[k].kind == Handled then HandledTo(rs, rs[k].to) > 0
            else AnswersTo(rs, rs[k].to) > HandledTo(rs, rs[k].to)
  {
    if k > 0 {
      ReplyCounted(rs[1..], k - 1);
    } else {
      HandledAreAnswers(rs[1..], rs[0].to);
    }
  }

  lemma {:induction false} OccursIsIn(q: seq<Arrival>, a: Arrival)
    ensures Occurs(q, a) > 0 <==> a in q
  {
    if q != [] {
      OccursIsIn(q[1..], a);
      assert q == [q[0]] + q[1..];
    }
  }

  lemma {:induction false} OccursAppend(q: seq<Arrival>, r: seq<Arrival>, a: Arrival)
    ensures Occurs(q + r, a) == Occurs(q, a) + Occurs(r, a)
  {
    if q == [] {
      assert q + r == r;
    } else {
      assert (q + r)[1..] == q[1..] + r;
      OccursAppend(q[1..], r, a);
    }
  }

  /** The kind of every answer tells how the request fared: a worker's if and only if it was
      accepted, for a missing target if and only if it has none, and else a refusal. */
  lemma {:induction false} ReplyKinds(workerCount: nat, es: seq<Event>, k: nat)
    requires workerCount > 0 && Legal(Initial(workerCount), es)
    requires k < |Run(Initial(workerCount), es).replies|
    ensures var s := Run(Initial(workerCount), es);
            var r := s.replies[k];
            && (r.kind == BadTarget <==> r.to.event.RejectTarget?)
            && (r.kind == Handled <==> r.to in s.accepted)
  {
    InitialHolds(workerCount);
    RunKeeps(Initial(workerCount), es);
    SortedRun(Initial(workerCount), es);
    var s := Run(Initial(workerCount), es);
    hide Run, Legal;
    SortedAt(s, k);
    HandledExactly(s, k);
  }

  lemma {:induction false} SortedAt(s: Server, k: nat)
    requires Sorted(s) && k < |s.replies|
    ensures s.replies[k].kind == BadTarget <==> s.replies[k].to.event.RejectTarget?
  {
    assert s.replies[k].to.event.RejectTarget? <==> !ForWorkers(s.replies[k].to);
  }

  lemma {:induction false} HandledExactly(s: Server, k: nat)
    requires Invariant(s) && k < |s.replies|
    ensures s.replies[k].kind == Handled <==> s.replies[k].to in s.accepted
  {
    var a := s.replies[k].to;
    ReplyCounted(s.replies, k);
    OccursIsIn(s.accepted, a);
    OccursIsIn(s.arrived, a);
    OccursAppend(s.popped, s.queue, a);
    if a in s.arrived {
      var j :| 0 <= j < |s.arrived| && s.arrived[j] == a;
      assert Increasing(s.arrived) by {
        hide Counted, Limited, Conserved, OwnReplies, StopOrder, Attended, Streams;
      }
      OccursOnce(s.arrived, j);
    }
    hide Counted, Limited, OwnReplies, StopOrder, Attended, Streams, AnswersTo, HandledTo, OpenOn, Occurs, InHand,
         Drawn, Increasing, Serials;
  }

  lemma {:induction false} OccursNowhere(q: seq<Arrival>, a: Arrival)
    requires forall i :: 0 <= i < |q| ==> q[i] != a
    ensures Occurs(q, a) == 0
  {
    if q != [] {
      OccursNowhere(q[1..], a);
    }
  }

  /** Different serials, so one occurrence each. */
  lemma {:induction false} OccursOnce(q: seq<Arrival>, k: nat)
    requires k < |q| && Increasing(q)
    ensures Occurs(q, q[k]) == 1
  {
    if k == 0 {
      OccursNowhere(q[1..], q[0]);
    } else {
      assert q[0] != q[k] && q[1..][k - 1] == q[k];
      OccursOnce(q[1..], k - 1);
    }
  }

  /** Every arrival is answered at most once, on its own connection and with its own id. Those
      accepted are popped in order, each by one worker, which alone answers it. */
  lemma {:induction false} AnsweredAtMostOnce(workerCount: nat, es: seq<Event>, k: nat)
    requires workerCount > 0 && Legal(Initial(workerCount), es)
    ensures var s := Run(Initial(workerCount), es);
            && (k < |s.arrived| ==> AnswersTo(s.replies, s.arrived[k]) <= 1)
            && (k < |s.replies| ==> OwnReply(s.replies[k]))
            && s.accepted == s.popped + s.queue && Increasing(s.accepted)
            && (k < |s.popped| ==> Occurs(s.popped, s.popped[k]) == 1
                                   && HandledTo(s.replies, s.popped[k]) + OpenOn(s.workers, s.popped[k]) == 1)
  {
    InitialHolds(workerCount);
    RunKeeps(Initial(workerCount), es);
    var s := Run(Initial(workerCount), es);
    hide Counted, Limited, StopOrder, Attended, Streams, Run, Legal;
    if k < |s.arrived| {
      assert Increasing(s.arrived);
      OccursOnce(s.arrived, k);
    }
    if k < |s.popped| {
      assert Increasing(s.popped) by {
        assert forall i :: 0 <= i < |s.popped| ==> s.accepted[i] == s.popped[i];
      }
      OccursOnce(s.popped, k);
    }
    hide AnswersTo, HandledTo, OpenOn, Occurs, InHand, Drawn;
  }

  lemma {:induction false} ExitedHoldNothing(ws: seq<Worker>, c: nat, a: Arrival)
    requires forall w :: 0 <= w < |ws| ==> ws[w].Exited?
    ensures RunningOn(ws, c) == 0 && OpenOn(ws, a) == 0
  {
    if ws != [] {
      ExitedHoldNothing(ws[1..], c, a);
    }
  }

  /** Once the workers are joined the queue is empty, every counter is zero, everything that was
      accepted has been popped and handled once, and every arrival has been answered once. */
  lemma {:induction false} DrainedByStop(workerCount: nat, es: seq<Event>, c: nat, k: nat)
    requires workerCount > 0 && Legal(Initial(workerCount), es)
    requires var p := Run(Initial(workerCount), es).stopper; p.WorkersJoined? || p.Swapped?
    ensures var s := Run(Initial(workerCount), es);
            && s.queue == [] && Pending(s, c) == 0 && s.popped == s.accepted
            && (k < |s.arrived| ==> AnswersTo(s.replies, s.arrived[k]) == 1)
            && (k < |s.accepted| ==> HandledTo(s.replies, s.accepted[k]) == 1)
  {
    InitialHolds(workerCount);
    RunKeeps(Initial(workerCount), es);
    var s := Run(Initial(workerCount), es);
    hide *;
    JoinedNothingPending(s, c);
    if k < |s.arrived| {
      JoinedAnswered(s, k);
    }
    if k < |s.accepted| {
      JoinedHandled(s, k);
    }
  }

  lemma {:induction false} JoinedNothingPending(s: Server, c: nat)
    requires Invariant(s) && (s.stopper.WorkersJoined? || s.stopper.Swapped?)
    ensures AllExited(s.workers) && s.io.Ended?
    ensures s.queue == [] && Pending(s, c) == 0 && s.popped == s.accepted
  {
    hide Attended, Streams, OwnReplies;
    SwapFindsNothing(s);
    assert s.popped + [] == s.popped;
    ExitedHoldNothing(s.workers, c, Arrival(0, 0, S.RejectTarget(0)));
    hide Conserved, RunningOn;
  }

  lemma {:induction false} JoinedAnswered(s: Server, k: nat)
    requires Invariant(s) && (s.stopper.WorkersJoined? || s.stopper.Swapped?) && k < |s.arrived|
    ensures AnswersTo(s.replies, s.arrived[k]) == 1
  {
    JoinedNothingPending(s, 0);
    ExitedHoldNothing(s.workers, 0, s.arrived[k]);
    hide Conserved, Ordered, AnswersTo, OpenOn;
    ArrivalAnswered(s, k);
  }

  lemma {:induction false} JoinedHandled(s: Server, k: nat)
    requires Invariant(s) && (s.stopper.WorkersJoined? || s.stopper.Swapped?) && k < |s.accepted|
    ensures HandledTo(s.replies, s.accepted[k]) == 1
  {
    JoinedNothingPending(s, 0);
    ExitedHoldNothing(s.workers, 0, s.accepted[k]);
    hide Conserved, Ordered, HandledTo, OpenOn;
    AcceptedHandled(s, k);
  }

  lemma {:induction false} ArrivalAnswered(s: Server, k: nat)
    requires Conserved(s) && Ordered(s) && k < |s.arrived|
    requires s.queue == [] && !HasJob(s.io) && OpenOn(s.workers, s.arrived[k]) == 0
    ensures AnswersTo(s.replies, s.arrived[k]) == 1
  {
    assert Increasing(s.arrived);
    OccursOnce(s.arrived, k);
    hide AnswersTo, HandledTo, OpenOn, Drawn, Increasing, Serials;
  }

  lemma {:induction false} AcceptedHandled(s: Server, k: nat)
    requires Conserved(s) && Ordered(s) && k < |s.accepted| && s.popped == s.accepted
    requires OpenOn(s.workers, s.accepted[k]) == 0
    ensures HandledTo(s.replies, s.accepted[k]) == 1
  {
    OccursOnce(s.accepted, k);
    hide AnswersTo, HandledTo, OpenOn, Drawn, Increasing, Serials, Occurs;
  }

  /** Whatever follows the moment stopping is set accepts nothing more. */
  lemma {:induction false} NothingAcceptedAfterStopping(workerCount: nat, es: seq<Event>, fs: seq<Event>)
    requires workerCount > 0 && Legal(Initial(workerCount), es) && Run(Initial(workerCount), es).stopping
    requires Legal(Run(Initial(workerCount), es), fs)
    ensures Run(Run(Initial(workerCount), es), fs).accepted == Run(Initial(workerCount), es).accepted
  {
    InitialHolds(workerCount);
    RunKeeps(Initial(workerCount), es);
    RunKeeps(Run(Initial(workerCount), es), fs);
  }

  /** No notification is lost: while any worker sleeps, there are at least as many awake and
      about to pop as there are requests queued. */
  lemma {:induction false} SleepersNotNeeded(workerCount: nat, es: seq<Event>)
    requires workerCount > 0 && Legal(Initial(workerCount), es)
    ensures var s := Run(Initial(workerCount), es); AnyAsleep(s.workers) ==> |s.queue| <= FreshCount(s.workers)
  {
    InitialHolds(workerCount);
    RunKeeps(Initial(workerCount), es);
  }

  // ---- stop ends ----

  function Weight(w: Worker): nat {
    match w
    case Exited => 0
    case Fresh => 1
    case Asleep => 1
    case Replied(_) => 2
    case Busy(_) => 3
  }

  function Weights(ws: seq<Worker>): nat {
    if ws == [] then 0 else Weight(ws[0]) + Weights(ws[1..])
  }

  lemma {:induction false} WeightChanges(ws: seq<Worker>, w: nat, x: Worker)
    requires w < |ws|
    ensures Weights(ws[w := x]) + Weight(ws[w]) == Weights(ws) + Weight(x)
  {
    if w > 0 {
      assert ws[w := x][1..] == ws[1..][w - 1 := x];
      WeightChanges(ws[1..], w - 1, x);
    } else {
      assert ws[w := x][1..] == ws[1..];
    }
  }

  /** Steps still possible once every sleeper has been woken for the last time. */
  function StepsLeft(s: Server): int {
    3 * |s.queue| + Weights(s.workers) + 6 - Progress(s.stopper)
  }

  lemma {:induction false} StepsLeftFall(s: Server, e: Event)
    requires Invariant(s) && Progress(s.stopper) >= 4 && Enabled(s, e)
    ensures Progress(Step(s, e).stopper) >= 4 && StepsLeft(Step(s, e)) < StepsLeft(s)
  {
    var t := Step(s, e);
    if e.SwapQueue? { SwapFindsNothing(s); }
    assert s.io.Ended? && !AnyAsleep(s.workers);
    hide Invariant, S.OnMessageTurn, Weights;
    if e.Lock? || e.Send? || e.Release? {
      WeightChanges(s.workers, e.w, t.workers[e.w]);
      assert t.workers == s.workers[e.w := t.workers[e.w]];
    }
  }

  /** From the final notify_all on, stop() needs no more than this many steps of anyone, in
      whatever order they come, and until it is done some step can be taken. */
  lemma {:induction false} StopEnds(s: Server, es: seq<Event>)
    requires Invariant(s) && Progress(s.stopper) >= 4 && Legal(s, es)
    ensures |es| <= StepsLeft(s)
    ensures Progress(s.stopper) < 6 ==> exists e :: Enabled(s, e)
    decreases |es|
  {
    if es != [] {
      StepsLeftFall(s, es[0]);
      StepKeeps(s, es[0]);
      StopEnds(Step(s, es[0]), es[1..]);
    } else {
      assert Progress(s.stopper) <= 6;
    }
    if Progress(s.stopper) < 6 {
      var e := NextStep(s);
    }
  }

  lemma {:induction false} NextStep(s: Server) returns (e: Event)
    requires Invariant(s) && 4 <= Progress(s.stopper) < 6
    ensures Enabled(s, e)
  {
    assert !AnyAsleep(s.workers);
    hide Invariant, S.OnMessageTurn;
    if s.stopper.WorkersJoined? {
      e := SwapQueue;
    } else if w :| 0 <= w < |s.workers| && !s.workers[w].Exited? {
      e := if s.workers[w].Fresh? then Lock(w) else if s.workers[w].Busy? then Send(w) else Release(w);
    } else {
      e := JoinWorkers;
    }
  }

  // ---- end to end ----

  /** Nothing parsed is left to act on, queued or with a worker. */
  ghost predicate Quiet(s: Server) {
    && (s.io.Idle? || s.io.Ended?) && s.queue == []
    && forall w :: 0 <= w < |s.workers| ==> !s.workers[w].Busy?
  }

  lemma {:induction false} NoneBusy(ws: seq<Worker>, a: Arrival)
    requires forall w :: 0 <= w < |ws| ==> !ws[w].Busy?
    ensures OpenOn(ws, a) == 0
  {
    if ws != [] {
      NoneBusy(ws[1..], a);
    }
  }

  /** However TCP cut connection c's bytes and however the threads interleaved: the calls a
      client encoded are exactly what arrived on c, in order; and in every quiet state each
      has been answered exactly once, every answer on its own connection and with its own id. */
  lemma {:induction false} EndToEnd(workerCount: nat, es: seq<Event>, c: nat,
                                    frames: seq<F.Frame>, tail: bytes, refused: seq<u64>, k: nat)
    requires workerCount > 0 && Legal(Initial(workerCount), es)
    requires S.AllCallable(frames) && S.Ends(tail, refused)
    requires Flatten(ChunksOf(Run(Initial(workerCount), es), c)) == S.Wire(frames) + tail
    requires Quiet(Run(Initial(workerCount), es))
    ensures var s := Run(Initial(workerCount), es);
            && EventsOn(s.arrived, c) == S.Dispatches(frames) + S.Refusals(refused)
            && (k < |s.arrived| ==> AnswersTo(s.replies, s.arrived[k]) == 1)
            && (k < |s.replies| ==> s.replies[k].conn == s.replies[k].to.conn
                                    && s.replies[k].requestId == RequestId(s.replies[k].to.event))
  {
    InitialHolds(workerCount);
    RunKeeps(Initial(workerCount), es);
    var s := Run(Initial(workerCount), es);
    hide *;
    QuietArrivals(s, c, frames, tail, refused);
    if k < |s.arrived| {
      QuietAnswered(s, k);
    }
    if k < |s.replies| {
      OwnRepliesAt(s, k);
    }
  }

  lemma {:induction false} QuietArrivals(s: Server, c: nat, frames: seq<F.Frame>, tail: bytes, refused: seq<u64>)
    requires Invariant(s) && Quiet(s)
    requires S.AllCallable(frames) && S.Ends(tail, refused)
    requires Flatten(ChunksOf(s, c)) == S.Wire(frames) + tail
    ensures EventsOn(s.arrived, c) == S.Dispatches(frames) + S.Refusals(refused)
  {
    hide Counted, Limited, StopOrder, Attended, Conserved, Ordered, OwnReplies, S.Session, S.Wire, S.Dispatches,
         S.AllCallable, S.Ends, S.Refusals, S.Unfinished, S.Dead, EventsOn;
    assert StreamOf(s, c);
    S.ExactlyTheRequestsSent(frames, tail, refused, ChunksOf(s, c));
    assert EventsOn(s.arrived, c) + [] == EventsOn(s.arrived, c);
  }

  lemma {:induction false} QuietAnswered(s: Server, k: nat)
    requires Invariant(s) && Quiet(s) && k < |s.arrived|
    ensures AnswersTo(s.replies, s.arrived[k]) == 1
  {
    NoneBusy(s.workers, s.arrived[k]);
    hide Conserved, Ordered, AnswersTo, OpenOn;
    ArrivalAnswered(s, k);
  }

  lemma {:induction false} OwnRepliesAt(s: Server, k: nat)
    requires Invariant(s) && k < |s.replies|
    ensures s.replies[k].conn == s.replies[k].to.conn && s.replies[k].requestId == RequestId(s.replies[k].to.event)
  {
    assert OwnReply(s.replies[k]);
    hide RequestId;
  }
}
