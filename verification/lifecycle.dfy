/** Connections from accept to teardown on one loop (src/net/tcp_server.cpp), and the table
    the RPC server keeps of them (RpcServer's onConnection). */
module Lifecycle {
  import opened Basics
  import C = Connection

  /** A connection's name: the server's own name and the peer's address are one part. */
  datatype Name = Name(peer: nat, id: u32)

  /** Connections are told apart by the order they were accepted in: conns and names list them
      all. removals holds the queued removeConnectionInLoop calls, handlers the connections in
      the RPC server's table, lost those whose registry entry a later accept overwrote. */
  datatype Server = Server(conns: seq<C.Conn>, names: seq<Name>, registry: map<Name, nat>, nextId: u32,
                           removals: seq<nat>, handlers: set<nat>, stopped: bool, lost: set<nat>)

  const INITIAL := Server([], [], map[], 0, [], {}, false, {})

  /** RpcServer's onConnection: it is told of both ends of a life by the same call. */
  function Toggle(handlers: set<nat>, i: nat): set<nat> {
    if i in handlers then handlers - {i} else handlers + {i}
  }

  // ---- the operations, on values ----

  predicate Collides(s: Server, peer: nat) {
    Name(peer, s.nextId) in s.registry
  }

  /** onNewConnection; connectEstablished runs at once, on the loop's thread. */
  function Accept(s: Server, peer: nat): Server {
    var name, i := Name(peer, s.nextId), |s.conns|;
    s.(conns := s.conns + [C.Establish(C.INITIAL)], names := s.names + [name],
       registry := s.registry[name := i], nextId := ToU32(s.nextId + 1),
       handlers := Toggle(s.handlers, i),
       lost := s.lost + if name in s.registry then {s.registry[name]} else {})
  }

  /** Any event on a connection; a close notice queues its removal. */
  function Act(s: Server, i: nat, e: C.Event): Server
    requires i < |s.conns|
  {
    var c := s.conns[i];
    var d := C.Step(c, e);
    s.(conns := s.conns[i := d], removals := s.removals + if d.notices > c.notices then [i] else [])
  }

  predicate Live(s: Server, i: nat) {
    i < |s.names| && s.names[i] in s.registry && s.registry[s.names[i]] == i
  }

  /** removeConnectionInLoop for one connection. */
  function Remove(s: Server, i: nat): Server
    requires i < |s.conns| == |s.names|
  {
    if !Live(s, i) then s
    else s.(registry := s.registry - {s.names[i]}, conns := s.conns[i := C.Destroy(s.conns[i])],
            handlers := Toggle(s.handlers, i))
  }

  /** The next queued removal. */
  function RunRemoval(s: Server): Server
    requires Enabled(s, DoRemove)
  {
    Remove(s.(removals := s.removals[1..]), s.removals[0])
  }

  /** stop, so far as it has destroyed the connections in done. */
  function StopSome(s: Server, done: set<nat>): Server {
    s.(stopped := true,
       conns := seq(|s.conns|, i requires 0 <= i < |s.conns| =>
                      if i in done then C.Destroy(s.conns[i]) else s.conns[i]),
       handlers := (s.handlers - done) + (done - s.handlers))
  }

  function Registered(s: Server): set<nat> {
    set i | 0 <= i < |s.names| && Live(s, i)
  }

  /** stop: no more accepts, and every registered connection destroyed. */
  function Stop(s: Server): Server {
    StopSome(s, Registered(s)).(registry := map[])
  }

  // ---- runs ----

  datatype Event = DoAccept(peer: nat) | DoAct(i: nat, e: C.Event) | DoRemove | DoStop

  predicate Enabled(s: Server, e: Event) {
    match e
    case DoAccept(_) => !s.stopped
    case DoAct(i, e) => i < |s.conns| && !e.DoEstablish? && !e.DoDestroy?
    case DoRemove => s.removals != [] && s.removals[0] < |s.conns| == |s.names|
    case DoStop => true
  }

  function Step(s: Server, e: Event): Server
    requires Enabled(s, e)
  {
    match e
    case DoAccept(peer) => Accept(s, peer)
    case DoAct(i, e) => Act(s, i, e)
    case DoRemove => RunRemoval(s)
    case DoStop => Stop(s)
  }

  predicate Legal(s: Server, es: seq<Event>)
    decreases |es|
  {
    es == [] || (Enabled(s, es[0]) && Legal(Step(s, es[0]), es[1..]))
  }

  function Run(s: Server, es: seq<Event>): Server
    requires Legal(s, es)
    decreases |es|
  {
    if es == [] then s else Run(Step(s, es[0]), es[1..])
  }

  /** Accepts that found their name taken. */
  function Collisions(s: Server, es: seq<Event>): nat
    requires Legal(s, es)
    decreases |es|
  {
    if es == [] then 0
    else (if es[0].DoAccept? && Collides(s, es[0].peer) then 1 else 0) + Collisions(Step(s, es[0]), es[1..])
  }

  // ---- invariant ----

  /** One connection's callbacks: up once; down once, when it left the registry properly. */
  predicate Accounted(s: Server, i: nat)
    requires i < |s.conns|
  {
    var c := s.conns[i];
    && C.Invariant(c) && c.state != C.Connecting && c.ups == 1
    && c.downs == (if Live(s, i) || i in s.lost then 0 else 1)
    && (c.downs == 1 ==> c.state == C.Disconnected)
    && (Live(s, i) && c.state == C.Disconnected ==> i in s.removals)
    && !(Live(s, i) && i in s.lost)
    && (i in s.handlers <==> Live(s, i) || i in s.lost)
  }

  predicate Invariant(s: Server) {
    && |s.names| == |s.conns| && s.nextId == ToU32(|s.conns|)
    && (forall i :: 0 <= i < |s.names| ==> s.names[i].id == ToU32(i))
    && (forall name <- s.registry :: s.registry[name] < |s.conns| && s.names[s.registry[name]] == name)
    && (forall i <- s.removals :: i < |s.conns|)
    && (forall i <- s.lost :: i < |s.conns|)
    && (forall i <- s.handlers :: i < |s.conns|)
    && (s.lost != {} ==> |s.conns| > 0x1_0000_0000)
    && (s.stopped ==> s.registry == map[])
    && (forall i :: 0 <= i < |s.conns| ==> Accounted(s, i))
  }

  lemma {:induction false} SameResidue(i: nat, j: nat)
    requires i < j && ToU32(i) == ToU32(j)
    ensures j >= 0x1_0000_0000
  {
  }

  lemma {:induction false} AcceptKeeps(s: Server, peer: nat)
    requires Invariant(s) && !s.stopped
    ensures Invariant(Accept(s, peer))
  {
    var t, n := Accept(s, peer), |s.conns|;
    forall i | 0 <= i < n ensures Accounted(t, i) {
      AcceptOthers(s, peer, i);
    }
    AcceptNew(s, peer);
    AcceptTables(s, peer);
    AcceptSets(s, peer);
    hide Accounted, C.Establish, Toggle;
    assert |t.conns| == |t.names| == n + 1;
  }

  lemma {:induction false} AcceptTables(s: Server, peer: nat)
    requires Invariant(s) && !s.stopped
    ensures var t, n := Accept(s, peer), |s.conns|;
            && |t.names| == n + 1 && t.nextId == ToU32(n + 1)
            && (forall i :: 0 <= i <= n ==> t.names[i].id == ToU32(i))
            && (forall name <- t.registry :: t.registry[name] <= n && t.names[t.registry[name]] == name)
  {
    var names, name, n := s.names, Name(peer, s.nextId), |s.conns|;
    assert |names| == n && name.id == ToU32(n);
    assert forall i :: 0 <= i < n ==> names[i].id == ToU32(i);
    assert forall m <- s.registry :: s.registry[m] < n && names[s.registry[m]] == m;
    NextResidue(n);
    hide Invariant, C.Establish, Toggle, ToU32;
    assert (names + [name])[n] == name;
    assert forall i :: 0 <= i < n ==> (names + [name])[i] == names[i];
  }

  lemma {:induction false} NextResidue(n: nat)
    ensures ToU32(ToU32(n) + 1) == ToU32(n + 1)
  {
  }

  lemma {:induction false} AcceptSets(s: Server, peer: nat)
    requires Invariant(s) && !s.stopped
    ensures var t, n := Accept(s, peer), |s.conns|;
            && (forall i <- t.handlers :: i <= n) && (forall i <- t.lost :: i <= n)
            && (t.lost != {} ==> n >= 0x1_0000_0000)
  {
    hide Accounted, C.Establish;
    var name := Name(peer, s.nextId);
    if name in s.registry {
      SameResidue(s.registry[name], |s.conns|);
    }
  }

  lemma {:induction false} AcceptOthers(s: Server, peer: nat, i: nat)
    requires Invariant(s) && i < |s.conns|
    ensures Accounted(Accept(s, peer), i)
  {
    var t := Accept(s, peer);
    assert Accounted(s, i) && t.conns[i] == s.conns[i] && t.names[i] == s.names[i];
    hide C.Invariant, C.Establish;
  }

  lemma {:induction false} AcceptNew(s: Server, peer: nat)
    requires Invariant(s)
    ensures Accounted(Accept(s, peer), |s.conns|)
  {
    C.StepKeeps(C.INITIAL, C.DoEstablish);
    var c := C.Establish(C.INITIAL);
    assert c.ups == 1 && c.downs == 0 && c.state == C.Connected;
    hide C.Invariant, C.Establish;
    assert Accept(s, peer).conns[|s.conns|] == c;
  }

  lemma {:induction false} ActKeeps(s: Server, i: nat, e: C.Event)
    requires Invariant(s) && i < |s.conns| && !e.DoEstablish? && !e.DoDestroy?
    ensures Invariant(Act(s, i, e))
  {
    var c, t := s.conns[i], Act(s, i, e);
    assert Accounted(s, i);
    C.StepKeeps(c, e);
    CloseNotice(c, e);
    hide C.Invariant, C.Step;
    forall j | 0 <= j < |s.conns| ensures Accounted(t, j) {
      assert Accounted(s, j) && (Live(t, j) <==> Live(s, j));
    }
  }

  /** Events other than establish and destroy leave the callbacks alone, and a connection
      becomes disconnected exactly when a close notice goes out. */
  lemma {:induction false} CloseNotice(c: C.Conn, e: C.Event)
    requires C.Invariant(c) && c.state != C.Connecting && !e.DoEstablish? && !e.DoDestroy?
    ensures var d := C.Step(c, e);
            && d.ups == c.ups && d.downs == c.downs && d.state != C.Connecting
            && (d.notices > c.notices <==> d.state == C.Disconnected && c.state != C.Disconnected)
            && (c.state == C.Disconnected ==> d.state == C.Disconnected)
  {
    if e.DoWrite? {
      C.FlushKeeps(c, e.ws);
    }
    hide C.FlushOut, Flatten;
  }

  lemma {:induction false} RemovalKeeps(s: Server)
    requires Invariant(s) && Enabled(s, DoRemove)
    ensures Invariant(RunRemoval(s)) && !Live(RunRemoval(s), s.removals[0])
  {
    var i, t := s.removals[0], RunRemoval(s);
    assert s.removals == [i] + s.removals[1..];
    assert Accounted(s, i);
    forall j | 0 <= j < |s.conns| ensures Accounted(t, j) {
      RemovalAccounts(s, j);
    }
    hide Accounted, C.Destroy;
    assert forall k <- t.removals :: k in s.removals;
    assert forall k <- t.handlers :: k in s.handlers || k == i;
  }

  lemma {:induction false} ToggleOther(handlers: set<nat>, i: nat, j: nat)
    ensures j in Toggle(handlers, i) <==> (j in handlers <==> j != i)
  {
  }

  lemma {:induction false} RemovalAccounts(s: Server, j: nat)
    requires Invariant(s) && Enabled(s, DoRemove) && j < |s.conns|
    ensures Accounted(RunRemoval(s), j)
  {
    var i, t := s.removals[0], RunRemoval(s);
    assert s.removals == [i] + s.removals[1..];
    assert Accounted(s, i) && Accounted(s, j);
    if i == j {
      C.StepKeeps(s.conns[i], C.DoDestroy);
      DestroyCounts(s.conns[i]);
    }
    hide C.Invariant, C.Destroy, Toggle;
    ToggleOther(s.handlers, i, j);
    assert j in s.removals && j != i ==> j in t.removals;
    assert j != i ==> (Live(t, j) <==> Live(s, j));
  }

  lemma {:induction false} DestroyCounts(c: C.Conn)
    ensures C.Destroy(c).downs == c.downs + 1 && C.Destroy(c).ups == c.ups && C.Destroy(c).state == C.Disconnected
  {
  }

  lemma {:induction false} StopKeeps(s: Server)
    requires Invariant(s)
    ensures Invariant(Stop(s))
  {
    var t := Stop(s);
    forall i | 0 <= i < |s.conns| ensures Accounted(t, i) {
      assert Accounted(s, i) && !Live(t, i) && (i in Registered(s) <==> Live(s, i));
      C.StepKeeps(s.conns[i], C.DoDestroy);
      DestroyCounts(s.conns[i]);
    }
  }

  lemma {:induction false} StepKeeps(s: Server, e: Event)
    requires Invariant(s) && Enabled(s, e)
    ensures Invariant(Step(s, e))
    ensures Step(s, e).lost == {} <==> s.lost == {} && !(e.DoAccept? && Collides(s, e.peer))
  {
    match e
    case DoAccept(peer) =>
      AcceptKeeps(s, peer);
      hide Invariant;
    case DoAct(i, e) =>
      ActKeeps(s, i, e);
      hide Invariant;
    case DoRemove =>
      RemovalKeeps(s);
      hide Invariant;
    case DoStop =>
      StopKeeps(s);
      hide Invariant;
  }

  lemma {:induction false} RunKeeps(s: Server, es: seq<Event>)
    requires Invariant(s) && Legal(s, es)
    ensures Invariant(Run(s, es))
    ensures Run(s, es).lost == {} <==> s.lost == {} && Collisions(s, es) == 0
    decreases |es|
  {
    if es != [] {
      StepKeeps(s, es[0]);
      hide Invariant, Step;
      RunKeeps(Step(s, es[0]), es[1..]);
    }
  }

  // ---- main results ----

  /** Over every run, each connection's callback has fired once for up and at most once for
      down; it has fired for down exactly when the connection is out of the registry and was
      not overwritten there. A closed connection still registered has its removal queued. */
  lemma {:induction false} CallbacksOnce(es: seq<Event>, i: nat)
    requires Legal(INITIAL, es) && i < |Run(INITIAL, es).conns|
    ensures var s := Run(INITIAL, es);
            && s.conns[i].ups == 1 && s.conns[i].downs <= 1
            && (s.conns[i].downs == 1 <==> !Live(s, i) && i !in s.lost)
            && (Live(s, i) && s.conns[i].state == C.Disconnected ==> i in s.removals)
  {
    RunKeeps(INITIAL, es);
    assert Accounted(Run(INITIAL, es), i);
  }

  /** By the end of stop every connection has had its down callback exactly once, and the RPC
      server's table is empty, if and only if no accept found its name in use. */
  lemma {:induction false} StopEndsEveryLife(es: seq<Event>)
    requires Legal(INITIAL, es) && Run(INITIAL, es).stopped
    ensures var s := Run(INITIAL, es);
            && (Collisions(INITIAL, es) == 0 <==> forall i :: 0 <= i < |s.conns| ==> s.conns[i].downs == 1)
            && (Collisions(INITIAL, es) == 0 <==> s.handlers == {})
  {
    RunKeeps(INITIAL, es);
    var s := Run(INITIAL, es);
    forall i | 0 <= i < |s.conns|
      ensures s.conns[i].downs == (if i in s.lost then 0 else 1) && (i in s.handlers <==> i in s.lost)
    {
      assert Accounted(s, i) && !Live(s, i);
    }
    if s.lost != {} {
      var i :| i in s.lost;
      assert s.conns[i].downs == 0 && i in s.handlers;
    }
  }

  /** The toggled table holds exactly the registered connections, in every reachable state of
      a run without collisions. */
  lemma {:induction false} TableHoldsTheLiving(es: seq<Event>, i: nat)
    requires Legal(INITIAL, es) && Collisions(INITIAL, es) == 0
    ensures i in Run(INITIAL, es).handlers <==> Live(Run(INITIAL, es), i)
  {
    RunKeeps(INITIAL, es);
    if i < |Run(INITIAL, es).conns| {
      assert Accounted(Run(INITIAL, es), i);
    }
  }

  /** The identifiers are 32 bits wide: no run of up to 2^32 accepts collides. */
  lemma {:induction false} NoCollisionWithin32Bits(es: seq<Event>)
    requires Legal(INITIAL, es) && |Run(INITIAL, es).conns| <= 0x1_0000_0000
    ensures Collisions(INITIAL, es) == 0
  {
    RunKeeps(INITIAL, es);
  }

  // ---- a run that does collide ----

  /** At no point of the run are more than two connections registered. */
  predicate AtMostTwo(s: Server, es: seq<Event>)
    requires Legal(s, es)
    decreases |es|
  {
    |s.registry| <= 2 && (es == [] || AtMostTwo(Step(s, es[0]), es[1..]))
  }

  lemma {:induction false} RunSplits(s: Server, es: seq<Event>, fs: seq<Event>)
    requires Legal(s, es) && Legal(Run(s, es), fs)
    ensures Legal(s, es + fs) && Run(s, es + fs) == Run(Run(s, es), fs)
    ensures AtMostTwo(s, es) && AtMostTwo(Run(s, es), fs) ==> AtMostTwo(s, es + fs)
    decreases |es|
  {
    hide Step, Enabled;
    if es == [] {
      assert es + fs == fs;
    } else {
      assert (es + fs)[1..] == es[1..] + fs;
      RunSplits(Step(s, es[0]), es[1..], fs);
    }
  }

  /** A connection that comes and goes: accepted, closed by its peer, removed. */
  function Visit(peer: nat, i: nat): seq<Event> {
    [DoAccept(peer)] + ([DoAct(i, C.DoFail)] + [DoRemove])
  }

  function Visits(peer: nat, i: nat, n: nat): seq<Event>
    decreases n
  {
    if n == 0 then [] else Visit(peer, i) + Visits(peer, i + 1, n - 1)
  }

  /** Between two visits only the first connection is registered. */
  ghost predicate OneStays(s: Server, peer: nat) {
    && Invariant(s) && !s.stopped && s.removals == []
    && s.registry == map[Name(peer, 0) := 0] && |s.conns| > 0
  }

  lemma {:induction false} Cons(s: Server, e: Event, es: seq<Event>)
    requires Enabled(s, e) && Legal(Step(s, e), es)
    ensures Legal(s, [e] + es) && Run(s, [e] + es) == Run(Step(s, e), es)
    ensures |s.registry| <= 2 && AtMostTwo(Step(s, e), es) ==> AtMostTwo(s, [e] + es)
  {
    assert ([e] + es)[1..] == es;
  }

  /** The guest is registered beside the one that stays. */
  lemma {:induction false} GuestArrives(s: Server, peer: nat, guest: nat)
    requires OneStays(s, peer) && guest != peer
    ensures var a, n := Accept(s, guest), |s.conns|;
            && Invariant(a) && |a.conns| == n + 1 && a.conns[n] == C.Establish(C.INITIAL)
            && a.names[n] == Name(guest, s.nextId) && a.registry == s.registry[Name(guest, s.nextId) := n]
            && !a.stopped && a.removals == []
  {
    AcceptKeeps(s, guest);
    hide Accounted, C.Establish;
  }

  /** Its peer closes: its removal is queued and nothing else. */
  lemma {:induction false} GuestCloses(a: Server, n: nat)
    requires Invariant(a) && n < |a.conns| && a.conns[n] == C.Establish(C.INITIAL) && a.removals == []
    ensures Enabled(a, DoAct(n, C.DoFail))
    ensures var b := Act(a, n, C.DoFail);
            && Invariant(b) && b.removals == [n] && |b.conns| == |a.conns|
            && b.registry == a.registry && b.names == a.names && b.stopped == a.stopped
  {
    ActKeeps(a, n, C.DoFail);
    hide Invariant;
  }

  lemma {:induction false} GuestLeaves(b: Server, n: nat)
    requires Invariant(b) && n < |b.conns| && b.removals == [n] && b.names[n] in b.registry
    ensures Enabled(b, DoRemove)
    ensures var c := RunRemoval(b);
            && Invariant(c) && c.removals == [] && |c.conns| == |b.conns| && c.stopped == b.stopped
            && (b.registry[b.names[n]] == n ==> c.registry == b.registry - {b.names[n]})
  {
    assert Enabled(b, DoRemove);
    RemovalKeeps(b);
    hide Invariant, C.Destroy, Toggle;
  }

  lemma {:induction false} GuestBeside(registry: map<Name, nat>, name: Name, other: Name, n: nat)
    requires registry == map[name := 0]
    ensures |registry| <= 2 && |registry[other := n]| <= 2
  {
    assert registry[other := n].Keys == {name, other};
    assert |{name, other}| <= 2 && |{name}| <= 2;
    assert registry.Keys == {name};
  }

  lemma {:induction false} VisitLeavesNothing(s: Server, peer: nat, guest: nat)
    requires OneStays(s, peer) && guest != peer
    ensures Legal(s, Visit(guest, |s.conns|)) && AtMostTwo(s, Visit(guest, |s.conns|))
    ensures var t := Run(s, Visit(guest, |s.conns|)); OneStays(t, peer) && |t.conns| == |s.conns| + 1
  {
    var n, name := |s.conns|, Name(guest, s.nextId);
    hide Accounted, Accept, Act, RunRemoval;
    GuestArrives(s, peer, guest);
    var a := Accept(s, guest);
    GuestCloses(a, n);
    var b := Act(a, n, C.DoFail);
    GuestLeaves(b, n);
    var c := RunRemoval(b);
    assert s.registry[name := n] - {name} == s.registry;
    GuestBeside(s.registry, Name(peer, 0), name, n);
    assert AtMostTwo(c, []);
    hide Invariant, AtMostTwo;
    assert [DoRemove] + [] == [DoRemove];
    Cons(b, DoRemove, []);
    Cons(a, DoAct(n, C.DoFail), [DoRemove]);
    Cons(s, DoAccept(guest), [DoAct(n, C.DoFail)] + [DoRemove]);
  }

  lemma {:induction false} OneIsRegistered(s: Server, peer: nat)
    requires OneStays(s, peer)
    ensures AtMostTwo(s, [])
  {
    GuestBeside(s.registry, Name(peer, 0), Name(peer, 0), 0);
    hide Invariant;
  }

  lemma {:induction false} VisitsRun(s: Server, peer: nat, guest: nat, n: nat)
    requires OneStays(s, peer) && guest != peer
    ensures Legal(s, Visits(guest, |s.conns|, n)) && AtMostTwo(s, Visits(guest, |s.conns|, n))
    ensures var t := Run(s, Visits(guest, |s.conns|, n)); OneStays(t, peer) && |t.conns| == |s.conns| + n
    decreases n
  {
    hide OneStays, Visit, Step, Enabled;
    OneIsRegistered(s, peer);
    if n > 0 {
      var i := |s.conns|;
      VisitLeavesNothing(s, peer, guest);
      var t := Run(s, Visit(guest, i));
      VisitsRun(t, peer, guest, n - 1);
      RunSplits(s, Visit(guest, i), Visits(guest, i + 1, n - 1));
    }
  }

  /** One connection that stays, and 2^32 - 1 others that come and go one after another: the
      first one's name is then the next accept's. */
  lemma {:induction false} NextAcceptCollides(peer: nat, guest: nat) returns (es: seq<Event>)
    requires guest != peer
    ensures es == [DoAccept(peer)] + Visits(guest, 1, 0xFFFF_FFFF) && Legal(INITIAL, es) && AtMostTwo(INITIAL, es)
    ensures var t := Run(INITIAL, es);
            && Invariant(t) && !t.stopped && t.registry == map[Name(peer, 0) := 0]
            && Collides(t, peer) && t.registry[Name(peer, t.nextId)] == 0
  {
    hide Accounted, Invariant, OneStays, Visits, Accept, Legal, Run, Collides, AtMostTwo;
    var later := Visits(guest, 1, 0xFFFF_FFFF);
    es := [DoAccept(peer)] + later;
    var first := Accept(INITIAL, peer);
    FirstStays(peer);
    VisitsRun(first, peer, guest, 0xFFFF_FFFF);
    Cons(INITIAL, DoAccept(peer), later);
    TakesTheName(Run(INITIAL, es), peer);
  }

  lemma {:induction false} FirstStays(peer: nat)
    ensures var first := Accept(INITIAL, peer); OneStays(first, peer) && |first.conns| == 1
  {
    AcceptKeeps(INITIAL, peer);
    hide Accounted, C.Establish;
  }

  lemma {:induction false} TakesTheName(t: Server, peer: nat)
    requires OneStays(t, peer) && |t.conns| == 0x1_0000_0000
    ensures Invariant(t) && !t.stopped && t.registry == map[Name(peer, 0) := 0]
    ensures Collides(t, peer) && t.registry[Name(peer, t.nextId)] == 0
  {
    hide Accounted;
    assert t.nextId == 0;
  }

  /** The failing family is not empty, with never more than two connections registered at once:
      the accept that takes the first connection's name leaves it never told that it is down,
      and in the server's table for good. */
  lemma {:induction false} CollisionExample(peer: nat, guest: nat) returns (es: seq<Event>)
    requires guest != peer
    ensures es == [DoAccept(peer)] + Visits(guest, 1, 0xFFFF_FFFF) + ([DoAccept(peer)] + [DoStop])
    ensures Legal(INITIAL, es) && AtMostTwo(INITIAL, es) && Collisions(INITIAL, es) > 0
    ensures var s := Run(INITIAL, es); s.stopped && |s.conns| > 0 && s.conns[0].downs == 0 && 0 in s.handlers
  {
    hide *;
    var before := NextAcceptCollides(peer, guest);
    var t := Run(INITIAL, before);
    var last := [DoAccept(peer)] + [DoStop];
    FirstIsLost(t, peer);
    RunSplits(INITIAL, before, last);
    es := before + last;
    InitialHolds();
    RunKeeps(INITIAL, es);
    LostStays(Run(INITIAL, es), 0);
  }

  lemma {:induction false} InitialHolds()
    ensures Invariant(INITIAL) && INITIAL.lost == {}
  {
  }

  lemma {:induction false} LostStays(s: Server, i: nat)
    requires Invariant(s) && i in s.lost
    ensures i < |s.conns| && s.conns[i].downs == 0 && i in s.handlers
  {
    assert Accounted(s, i);
  }

  /** An accept that takes the first connection's name, and stop. */
  lemma {:induction false} FirstIsLost(t: Server, peer: nat)
    requires !t.stopped && t.registry == map[Name(peer, 0) := 0] && Collides(t, peer)
    requires t.registry[Name(peer, t.nextId)] == 0
    ensures var last := [DoAccept(peer)] + [DoStop];
            && Legal(t, last) && AtMostTwo(t, last)
            && Run(t, last).stopped && 0 in Run(t, last).lost
  {
    var u := Accept(t, peer);
    GuestBeside(t.registry, Name(peer, 0), Name(peer, t.nextId), |t.conns|);
    assert Stop(u).registry == map[] && AtMostTwo(Stop(u), []);
    assert [DoStop] + [] == [DoStop];
    Cons(u, DoStop, []);
    Cons(t, DoAccept(peer), [DoStop]);
  }

  // ---- the class ----

  class TcpServer {
    var conns: seq<C.Conn>
    var names: seq<Name>
    var registry: map<Name, nat>
    var nextId: u32
    var removals: seq<nat>
    var handlers: set<nat>
    var stopped: bool
    ghost var lost: set<nat>

    ghost function Model(): Server
      reads this
    {
      Server(conns, names, registry, nextId, removals, handlers, stopped, lost)
    }

    constructor ()
      ensures Model() == INITIAL
    {
      conns, names, registry, nextId := [], [], map[], 0;
      removals, handlers, stopped, lost := [], {}, false, {};
    }

    /** The connection callback, as the RPC server sets it. */
    method OnConnection(i: nat)
      modifies this`handlers
      ensures handlers == Toggle(old(handlers), i)
    {
      if i !in handlers {
        handlers := handlers + {i};
      } else {
        handlers := handlers - {i};
      }
    }

    method OnNewConnection(peer: nat)
      requires !stopped
      modifies this
      ensures Model() == Accept(old(Model()), peer)
    {
      var id := nextId;
      nextId := (nextId + 1) % 0x1_0000_0000;
      var name, i := Name(peer, id), |conns|;
      lost := lost + if name in registry then {registry[name]} else {};
      names := names + [name];
      registry := registry[name := i];
      conns := conns + [C.Establish(C.INITIAL)];
      OnConnection(i);
    }

    method ConnectDestroyed(i: nat)
      requires i < |conns|
      modifies this`conns, this`handlers
      ensures conns == old(conns)[i := C.Destroy(old(conns)[i])] && handlers == Toggle(old(handlers), i)
    {
      conns := conns[i := C.Destroy(conns[i])];
      OnConnection(i);
    }

    method RemoveConnectionInLoop()
      requires Invariant(Model()) && Enabled(Model(), DoRemove)
      modifies this
      ensures Model() == RunRemoval(old(Model())) && Invariant(Model())
    {
      RemovalKeeps(Model());
      var i := removals[0];
      removals := removals[1..];
      if names[i] !in registry || registry[names[i]] != i {
        return;
      }
      registry := registry - {names[i]};
      ConnectDestroyed(i);
    }

    /** stop walks the registry in whatever order the hash map gives. */
    method StopServer()
      requires Invariant(Model())
      modifies this
      ensures Model() == Stop(old(Model())) && Invariant(Model())
    {
      ghost var start := Model();
      StopKeeps(start);
      stopped := true;
      var left := registry.Keys;
      ghost var done: set<nat> := {};
      assert Model() == StopSome(start, {});
      hide *;
      while left != {}
        invariant Model() == StopSome(start, done)
        invariant Left(start, left, done)
      {
        left, done := StopNext(start, left, done);
      }
      AllDone(start, done);
      ClearRegistry(start, done);
    }

    method ClearRegistry(ghost start: Server, ghost done: set<nat>)
      requires Model() == StopSome(start, done) && done == Registered(start)
      modifies this`registry
      ensures Model() == Stop(start)
    {
      registry := map[];
    }

    /** One turn of the walk. */
    method StopNext(ghost start: Server, left: set<Name>, ghost done: set<nat>)
      returns (left': set<Name>, ghost done': set<nat>)
      requires Invariant(start) && left != {} && Model() == StopSome(start, done) && Left(start, left, done)
      modifies this`conns, this`handlers
      ensures Model() == StopSome(start, done') && Left(start, left', done') && left' < left
    {
      var name :| name in left;
      var i := registry[name];
      RegisteredUnder(start, name);
      StopOne(start, done, i);
      hide Invariant, C.Destroy, Toggle;
      ConnectDestroyed(i);
      left', done' := left - {name}, done + {i};
      assert Model().conns == StopSome(start, done').conns;
    }
  }

  /** The names still to be walked are those of the connections not yet destroyed. */
  ghost predicate Left(s: Server, left: set<Name>, done: set<nat>) {
    && left <= s.registry.Keys && done <= Registered(s)
    && forall i <- Registered(s) :: s.names[i] in left <==> i !in done
  }

  lemma {:induction false} AllDone(s: Server, done: set<nat>)
    requires Left(s, {}, done)
    ensures done == Registered(s)
  {
    forall i <- Registered(s) ensures i in done {
      assert s.names[i] !in {};
    }
  }

  lemma {:induction false} RegisteredUnder(s: Server, name: Name)
    requires Invariant(s) && name in s.registry
    ensures var i := s.registry[name];
            && i < |s.conns| && i in Registered(s) && s.names[i] == name
            && forall j <- Registered(s) :: s.names[j] == name ==> j == i
  {
  }

  lemma {:induction false} StopOne(s: Server, done: set<nat>, i: nat)
    requires i < |s.conns| && i !in done
    ensures var t := StopSome(s, done);
            StopSome(s, done + {i})
            == t.(conns := t.conns[i := C.Destroy(t.conns[i])], handlers := Toggle(t.handlers, i))
  {
    var t, u := StopSome(s, done), StopSome(s, done + {i});
    hide C.Destroy;
    assert u.conns == t.conns[i := C.Destroy(t.conns[i])];
    assert u.handlers == Toggle(t.handlers, i);
  }
}
