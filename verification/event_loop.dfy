/** The event loop's wakeup protocol (src/net/event_loop.cpp) as interleaved atomic steps of
    the loop thread and of any number of other threads. */
module EventLoops {
  /** Where queueInLoop was called from. */
  datatype Origin =
    | Remote(thread: nat)  // another thread
    | BeforeLoop           // the loop's thread, not looping
    | InHandler            // the loop's thread, in an event handler
    | InFunctor            // the loop's thread, in a functor run by doPendingFunctors

  datatype Task = Task(name: nat, origin: Origin)

  datatype Phase =
    | Stopped
    | Checking                   // about to test quit_
    | Waiting                    // in epoll_wait
    | Handling                   // the loop over the events returned
    | Running(batch: seq<Task>)  // doPendingFunctors, behind the swap

  /** owing holds the callers that have pushed a functor and not yet written to the eventfd,
      quitting the threads that have set quit_ and not yet written. */
  datatype Loop = Loop(phase: Phase, quit: bool, counter: nat, pending: seq<Task>,
                       ran: seq<Task>, owing: set<Origin>, quitting: set<nat>)

  const INITIAL := Loop(Stopped, false, 0, [], [], {}, {})

  /** An eventfd holds at most this; a write that would pass it fails, and wakeup ignores that. */
  const EVENTFD_MAX := 0xFFFF_FFFF_FFFF_FFFE

  datatype Event =
    | Push(task: Task)       // queueInLoop's locked section, by the task's origin
    | Wakeup(caller: Origin) // the write that follows, when it has one
    | SetQuit(thread: nat)   // quit() from another thread, before its write
    | QuitWakeup(thread: nat)
    | QuitInLoop             // quit() on the loop's thread
    | Start                  // loop()
    | CheckQuit              // the loop's test of quit_
    | Return                 // epoll_wait comes back with events
    | ReadWakeup             // one successful read of the eventfd
    | Swap                   // doPendingFunctors' locked section
    | RunOne                 // one functor
    | EndBatch

  /** Who writes to the eventfd after a push: other threads, and the loop's own when not looping. */
  predicate Writes(o: Origin) { o.Remote? || o.BeforeLoop? }

  predicate MayPush(s: Loop, o: Origin) {
    match o
    case Remote(t) => o !in s.owing && t !in s.quitting
    case BeforeLoop => s.phase.Stopped? && o !in s.owing
    case InHandler => s.phase.Handling?
    case InFunctor => s.phase.Running?
  }

  predicate Enabled(s: Loop, e: Event) {
    match e
    case Push(task) => MayPush(s, task.origin)
    case Wakeup(caller) => caller in s.owing
    case SetQuit(t) => Remote(t) !in s.owing && t !in s.quitting
    case QuitWakeup(t) => t in s.quitting
    case QuitInLoop => (s.phase.Stopped? || s.phase.Handling? || s.phase.Running?) && BeforeLoop !in s.owing
    case Start => s.phase.Stopped? && BeforeLoop !in s.owing
    case CheckQuit => s.phase.Checking?
    case Return => s.phase.Waiting?
    case ReadWakeup => s.phase.Handling? && s.counter > 0
    case Swap => s.phase.Handling?
    case RunOne => s.phase.Running? && s.phase.batch != []
    case EndBatch => s.phase.Running? && s.phase.batch == []
  }

  function Write(counter: nat): nat {
    if counter >= EVENTFD_MAX then counter else counter + 1
  }

  function Step(s: Loop, e: Event): Loop
    requires Enabled(s, e)
  {
    match e
    case Push(task) =>
      s.(pending := s.pending + [task], owing := s.owing + if Writes(task.origin) then {task.origin} else {})
    case Wakeup(caller) => s.(counter := Write(s.counter), owing := s.owing - {caller})
    case SetQuit(t) => s.(quit := true, quitting := s.quitting + {t})
    case QuitWakeup(t) => s.(counter := Write(s.counter), quitting := s.quitting - {t})
    case QuitInLoop => s.(quit := true)
    case Start => s.(phase := Checking, quit := false)
    case CheckQuit => s.(phase := if s.quit then Stopped else Waiting)
    case Return => s.(phase := Handling)
    case ReadWakeup => s.(counter := 0)
    case Swap => s.(phase := Running(s.pending), pending := [])
    case RunOne => s.(phase := Running(s.phase.batch[1..]), ran := s.ran + [s.phase.batch[0]])
    case EndBatch => s.(phase := Checking)
  }

  predicate Legal(s: Loop, es: seq<Event>)
    decreases |es|
  {
    es == [] || (Enabled(s, es[0]) && Legal(Step(s, es[0]), es[1..]))
  }

  function Run(s: Loop, es: seq<Event>): Loop
    requires Legal(s, es)
    decreases |es|
  {
    if es == [] then s else Run(Step(s, es[0]), es[1..])
  }

  /** All functors queued in a run, in the order of the locked sections. */
  function Pushed(es: seq<Event>): seq<Task> {
    if es == [] then [] else (if es[0].Push? then [es[0].task] else []) + Pushed(es[1..])
  }

  // ---- invariants ----

  /** A functor that the loop is bound to come to: the eventfd is readable, or will be. */
  predicate Covered(s: Loop, task: Task) {
    s.counter > 0 || task.origin in s.owing
  }

  /** Outside event handling everything pending is covered, unless a functor queued it. In
      event handling nothing need be: the swap comes next. */
  predicate Invariant(s: Loop) {
    && (!s.phase.Handling?
        ==> forall i :: 0 <= i < |s.pending| && !s.pending[i].origin.InFunctor? ==> Covered(s, s.pending[i]))
    && (s.phase.Waiting? && s.quit ==> s.counter > 0 || s.quitting != {})
    && (forall o <- s.owing :: Writes(o))
    && (!s.phase.Stopped? ==> BeforeLoop !in s.owing)
  }

  lemma {:induction false} StepKeeps(s: Loop, e: Event)
    requires Invariant(s) && Enabled(s, e)
    ensures Invariant(Step(s, e))
  {
    var t := Step(s, e);
    if !t.phase.Handling? {
      forall i | 0 <= i < |t.pending| && !t.pending[i].origin.InFunctor? ensures Covered(t, t.pending[i]) {
        if i < |s.pending| && !s.phase.Handling? {
          assert t.pending[i] == s.pending[i] && Covered(s, s.pending[i]);
        }
      }
    }
  }

  lemma {:induction false} RunKeeps(s: Loop, es: seq<Event>)
    requires Invariant(s) && Legal(s, es)
    ensures Invariant(Run(s, es))
    decreases |es|
  {
    if es != [] {
      StepKeeps(s, es[0]);
      RunKeeps(Step(s, es[0]), es[1..]);
    }
  }

  /** No lost wakeup: in every interleaving, when the loop is in epoll_wait, each functor queued
      by another thread, before the loop or in an event handler is out of the queue, or the
      eventfd is readable, or its enqueuer has yet to write; and so for quit. */
  lemma {:induction false} NoLostWakeup(es: seq<Event>, i: nat)
    requires Legal(INITIAL, es)
    ensures var s := Run(INITIAL, es);
            && (s.phase.Waiting? && i < |s.pending| && !s.pending[i].origin.InFunctor?
                ==> s.counter > 0 || s.pending[i].origin in s.owing)
            && (s.phase.Waiting? && s.quit ==> s.counter > 0 || s.quitting != {})
  {
    RunKeeps(INITIAL, es);
  }

  function Batch(s: Loop): seq<Task> {
    if s.phase.Running? then s.phase.batch else []
  }

  lemma {:induction false} StepOrder(s: Loop, e: Event)
    requires Enabled(s, e)
    ensures var t := Step(s, e);
            t.ran + Batch(t) + t.pending == s.ran + Batch(s) + s.pending + if e.Push? then [e.task] else []
  {
    if e.RunOne? {
      assert Batch(s) == [Batch(s)[0]] + Batch(s)[1..];
    }
  }

  lemma {:induction false} RunOrder(s: Loop, es: seq<Event>)
    requires Legal(s, es)
    ensures var t := Run(s, es); t.ran + Batch(t) + t.pending == s.ran + Batch(s) + s.pending + Pushed(es)
    decreases |es|
  {
    if es != [] {
      StepOrder(s, es[0]);
      RunOrder(Step(s, es[0]), es[1..]);
    }
  }

  /** Every functor runs at most once, in the order queued: those run, those in the current
      batch and those pending are, in this order, all that was ever queued. */
  lemma {:induction false} EachOnceInOrder(es: seq<Event>)
    requires Legal(INITIAL, es)
    ensures var s := Run(INITIAL, es); s.ran + Batch(s) + s.pending == Pushed(es)
  {
    RunOrder(INITIAL, es);
  }

  lemma {:induction false} LegalSplits(s: Loop, es: seq<Event>, fs: seq<Event>)
    requires Legal(s, es) && Legal(Run(s, es), fs)
    ensures Legal(s, es + fs) && Run(s, es + fs) == Run(Run(s, es), fs)
    decreases |es|
  {
    if es == [] {
      assert es + fs == fs;
    } else {
      assert (es + fs)[1..] == es[1..] + fs;
      LegalSplits(Step(s, es[0]), es[1..], fs);
    }
  }

  lemma {:induction false} Cons(s: Loop, e: Event, es: seq<Event>)
    requires Enabled(s, e) && Legal(Step(s, e), es)
    ensures Legal(s, [e] + es) && Run(s, [e] + es) == Run(Step(s, e), es)
  {
    assert ([e] + es)[1..] == es;
  }

  // ---- what the wakeup leads to ----

  /** The loop thread's own path from a readable eventfd through one batch of n functors. */
  function Round(n: nat): seq<Event> {
    [Return, ReadWakeup, Swap] + seq(n, _ => RunOne) + [EndBatch]
  }

  lemma {:induction false} RunBatch(s: Loop, n: nat)
    requires s.phase.Running? && |s.phase.batch| == n
    ensures Legal(s, seq(n, _ => RunOne))
    ensures Run(s, seq(n, _ => RunOne)) == s.(phase := Running([]), ran := s.ran + s.phase.batch)
    decreases n
  {
    var es := seq(n, _ => RunOne);
    if n > 0 {
      var t := Step(s, RunOne);
      assert es[1..] == seq(n - 1, _ => RunOne);
      RunBatch(t, n - 1);
      assert s.ran + [s.phase.batch[0]] + s.phase.batch[1..] == s.ran + s.phase.batch;
    }
  }

  /** A readable eventfd is enough: the loop's next round runs everything pending, in order. */
  lemma {:induction false} WakeupServesAll(s: Loop)
    requires s.phase.Waiting? && s.counter > 0
    ensures Legal(s, Round(|s.pending|))
    ensures Run(s, Round(|s.pending|)) == s.(phase := Checking, counter := 0, pending := [], ran := s.ran + s.pending)
  {
    var n := |s.pending|;
    var tail := seq(n, _ => RunOne) + [EndBatch];
    var mid := s.(phase := Running(s.pending), counter := 0, pending := []);
    RunBatch(mid, n);
    var done := Run(mid, seq(n, _ => RunOne));
    assert [EndBatch] + [] == [EndBatch];
    Cons(done, EndBatch, []);
    LegalSplits(mid, seq(n, _ => RunOne), [EndBatch]);
    hide Legal, Run;
    assert Step(Step(Step(s, Return), ReadWakeup), Swap) == mid;
    Cons(Step(Step(s, Return), ReadWakeup), Swap, tail);
    Cons(Step(s, Return), ReadWakeup, [Swap] + tail);
    Cons(s, Return, [ReadWakeup] + ([Swap] + tail));
    assert Round(n) == [Return] + ([ReadWakeup] + ([Swap] + tail));
  }

  // ---- quitting ----

  function CountOf(es: seq<Event>, e: Event): nat {
    if es == [] then 0 else (if es[0] == e then 1 else 0) + CountOf(es[1..], e)
  }

  /** quit(), from either side, is seen by the loop's next test, whatever comes between: once it
      has been called, and until loop() is called again, the loop does not go back to epoll_wait,
      and its first test of quit_ ends it for good. */
  lemma {:induction false} QuitIsFinal(s: Loop, es: seq<Event>)
    requires Legal(s, es) && s.quit && CountOf(es, Start) == 0
    ensures var t := Run(s, es);
            && t.quit
            && (!s.phase.Waiting? ==> !t.phase.Waiting?)
            && (CountOf(es, CheckQuit) > 0 || s.phase.Stopped? ==> t.phase.Stopped?)
            && CountOf(es, CheckQuit) <= 1
    decreases |es|
  {
    if es != [] {
      QuitStep(s, es[0]);
      hide Step, Enabled;
      QuitIsFinal(Step(s, es[0]), es[1..]);
      if es[0] == CheckQuit || s.phase.Stopped? {
        StoppedStays(Step(s, es[0]), es[1..]);
      }
    }
  }

  lemma {:induction false} QuitStep(s: Loop, e: Event)
    requires Enabled(s, e) && s.quit && e != Start
    ensures var t := Step(s, e);
            && t.quit && (e == CheckQuit ==> t.phase.Stopped?)
            && (s.phase.Stopped? ==> t.phase.Stopped? && e != CheckQuit)
            && (!s.phase.Waiting? ==> !t.phase.Waiting?)
  {
  }

  lemma {:induction false} StoppedStays(s: Loop, es: seq<Event>)
    requires Legal(s, es) && s.phase.Stopped? && CountOf(es, Start) == 0
    ensures Run(s, es).phase.Stopped? && CountOf(es, CheckQuit) == 0
    decreases |es|
  {
    if es != [] {
      StoppedStays(Step(s, es[0]), es[1..]);
    }
  }

  /** Both forms of quit() set the flag; the one from another thread owes a write, which makes the
      eventfd readable. */
  lemma {:induction false} QuitIsSet(s: Loop, thread: nat)
    requires Remote(thread) !in s.owing && thread !in s.quitting
    ensures Enabled(s, SetQuit(thread)) && Step(s, SetQuit(thread)).quit
    ensures var t := Step(s, SetQuit(thread));
            Enabled(t, QuitWakeup(thread)) && Step(t, QuitWakeup(thread)).counter > 0
            && Step(t, QuitWakeup(thread)).quitting == s.quitting
    ensures Enabled(s, QuitInLoop) ==> Step(s, QuitInLoop).quit
  {
    assert s.quitting + {thread} - {thread} == s.quitting;
  }

  /** And it gets there: with quit() called and the eventfd readable, the loop's own next round
      runs everything pending and then ends. */
  lemma {:induction false} QuitEndsLoop(s: Loop)
    requires s.phase.Waiting? && s.quit && s.counter > 0
    ensures Legal(s, Round(|s.pending|) + [CheckQuit])
    ensures Run(s, Round(|s.pending|) + [CheckQuit])
         == s.(phase := Stopped, counter := 0, pending := [], ran := s.ran + s.pending)
  {
    WakeupServesAll(s);
    var t := Run(s, Round(|s.pending|));
    assert Step(t, CheckQuit) == s.(phase := Stopped, counter := 0, pending := [], ran := s.ran + s.pending);
    assert [CheckQuit] == [CheckQuit] + [];
    Cons(t, CheckQuit, []);
    LegalSplits(s, Round(|s.pending|), [CheckQuit]);
    hide Round;
  }

  // ---- functors queued by functors ----

  /** In epoll_wait, with no wakeup there and none on the way. */
  predicate Silent(s: Loop) {
    s.phase.Waiting? && s.counter == 0 && s.owing == {} && s.quitting == {}
  }

  /** Silent with work pending. */
  predicate Stranded(s: Loop) {
    Silent(s) && s.pending != []
  }

  function QueuedByFunctors(es: seq<Event>): nat {
    if es == [] then 0 else (if es[0].Push? && es[0].task.origin.InFunctor? then 1 else 0) + QueuedByFunctors(es[1..])
  }

  /** The functors queued in a run behind its last swap. */
  function BehindSwap(es: seq<Event>, acc: seq<Task>): seq<Task>
    decreases |es|
  {
    if es == [] then acc
    else BehindSwap(es[1..], if es[0].Push? then acc + [es[0].task] else if es[0].Swap? then [] else acc)
  }

  lemma {:induction false} PendingIsBehindSwap(s: Loop, es: seq<Event>)
    requires Legal(s, es)
    ensures Run(s, es).pending == BehindSwap(es, s.pending)
    decreases |es|
  {
    if es != [] {
      PendingIsBehindSwap(Step(s, es[0]), es[1..]);
    }
  }

  /** queueInLoop skips the wakeup on the loop's thread, which is right in an event handler and
      wrong inside doPendingFunctors: with no wakeup there or owed, work is left waiting in
      epoll_wait exactly when a functor queued a functor behind the last swap. */
  lemma {:induction false} StrandedExactly(es: seq<Event>)
    requires Legal(INITIAL, es)
    ensures var s := Run(INITIAL, es);
            Stranded(s) <==> Silent(s) && exists task <- BehindSwap(es, []) :: task.origin.InFunctor?
  {
    RunKeeps(INITIAL, es);
    PendingIsBehindSwap(INITIAL, es);
    var s := Run(INITIAL, es);
    if Stranded(s) {
      assert !s.pending[0].origin.InFunctor? ==> Covered(s, s.pending[0]);
      assert s.pending[0] in BehindSwap(es, []) && s.pending[0].origin.InFunctor?;
    }
  }

  /** A run in which no functor queues a functor never strands work. */
  lemma {:induction false} NeverStrandedWithoutNesting(es: seq<Event>)
    requires Legal(INITIAL, es) && QueuedByFunctors(es) == 0
    ensures !Stranded(Run(INITIAL, es))
  {
    StrandedExactly(es);
    BehindSwapOrigins(es, []);
  }

  lemma {:induction false} BehindSwapOrigins(es: seq<Event>, acc: seq<Task>)
    requires QueuedByFunctors(es) == 0 && forall task <- acc :: !task.origin.InFunctor?
    ensures forall task <- BehindSwap(es, acc) :: !task.origin.InFunctor?
    decreases |es|
  {
    if es != [] {
      BehindSwapOrigins(es[1..], if es[0].Push? then acc + [es[0].task] else if es[0].Swap? then [] else acc);
    }
  }

  /** From any state in which the loop sleeps with one functor pending and the eventfd readable,
      a functor that queues another and then silence strands the other. In the RPC server the
      first is a worker's send whose write fails, and the second the removal that its close
      callback queues: the connection's down callback then waits for the next wakeup. */
  lemma {:induction false} NestedFunctorStrands(s: Loop, first: Task, second: Task)
    requires s.phase.Waiting? && !s.quit && s.counter > 0 && s.owing == {} && s.quitting == {} && s.pending == [first]
    requires second.origin == InFunctor
    ensures var es := [Return, ReadWakeup, Swap, RunOne, Push(second), EndBatch, CheckQuit];
            Legal(s, es) && Stranded(Run(s, es)) && Run(s, es).pending == [second]
  {
    var ran := s.(phase := Running([]), counter := 0, pending := [], ran := s.ran + [first]);
    var last := [Push(second)] + ([EndBatch] + [CheckQuit]);
    hide Legal, Run, Step;
    NestedLeft(ran, second);
    RunsTheOne(s, first, last);
    assert [Return, ReadWakeup, Swap, RunOne, Push(second), EndBatch, CheckQuit]
        == [Return] + ([ReadWakeup] + ([Swap] + ([RunOne] + last)));
  }

  /** A wakeup serves the one functor pending. */
  lemma {:induction false} RunsTheOne(s: Loop, first: Task, rest: seq<Event>)
    requires s.phase.Waiting? && s.counter > 0 && s.pending == [first]
    requires Legal(s.(phase := Running([]), counter := 0, pending := [], ran := s.ran + [first]), rest)
    ensures var es := [Return] + ([ReadWakeup] + ([Swap] + ([RunOne] + rest)));
            var ran := s.(phase := Running([]), counter := 0, pending := [], ran := s.ran + [first]);
            Legal(s, es) && Run(s, es) == Run(ran, rest)
  {
    var handling := s.(phase := Handling);
    var read := handling.(counter := 0);
    var running := s.(phase := Running([first]), counter := 0, pending := []);
    assert [first][1..] == [];
    assert Step(s, Return) == handling && Step(handling, ReadWakeup) == read && Step(read, Swap) == running;
    assert Step(running, RunOne) == running.(phase := Running([]), ran := s.ran + [first]);
    hide Legal, Run, Step;
    Cons(running, RunOne, rest);
    Cons(read, Swap, [RunOne] + rest);
    Cons(handling, ReadWakeup, [Swap] + ([RunOne] + rest));
    Cons(s, Return, [ReadWakeup] + ([Swap] + ([RunOne] + rest)));
  }

  /** A functor queued by the batch's last one is still there when the loop sleeps again. */
  lemma {:induction false} NestedLeft(s: Loop, second: Task)
    requires s.phase == Running([]) && !s.quit && s.pending == [] && second.origin == InFunctor
    ensures var es := [Push(second)] + ([EndBatch] + [CheckQuit]);
            Legal(s, es) && Run(s, es) == s.(phase := Waiting, pending := [second])
  {
    var nested := s.(pending := [second]);
    assert [] + [second] == [second];
    assert Step(s, Push(second)) == nested;
    assert Step(Step(nested, EndBatch), CheckQuit) == nested.(phase := Waiting);
    hide Legal, Run, Step;
    LegalPair(nested, EndBatch, CheckQuit);
    Cons(s, Push(second), [EndBatch] + [CheckQuit]);
  }

  lemma {:induction false} LegalPair(s: Loop, e: Event, f: Event)
    requires Enabled(s, e) && Enabled(Step(s, e), f)
    ensures Legal(s, [e] + [f]) && Run(s, [e] + [f]) == Step(Step(s, e), f)
  {
    Cons(Step(s, e), f, []);
    Cons(s, e, [f]);
    assert [f] + [] == [f];
  }

  /** The failing family is not empty: one functor queuing another, and then silence. */
  lemma {:induction false} StrandedExample()
    ensures var first, second := Task(0, Remote(1)), Task(1, InFunctor);
            var es := [Start, CheckQuit, Push(first), Wakeup(Remote(1)), Return, ReadWakeup, Swap,
                       RunOne, Push(second), EndBatch, CheckQuit];
            Legal(INITIAL, es) && Stranded(Run(INITIAL, es)) && Run(INITIAL, es).pending == [second]
  {
    var first, second := Task(0, Remote(1)), Task(1, InFunctor);
    var w := Loop(Waiting, false, 0, [], [], {}, {});
    var woken := Loop(Waiting, false, 1, [first], [], {}, {});
    var last := [Return, ReadWakeup, Swap, RunOne, Push(second), EndBatch, CheckQuit];
    assert Step(Step(INITIAL, Start), CheckQuit) == w;
    assert Step(w, Push(first)) == w.(pending := [first], owing := {Remote(1)});
    assert Step(Step(w, Push(first)), Wakeup(Remote(1))) == woken;
    NestedFunctorStrands(woken, first, second);
    LegalPair(w, Push(first), Wakeup(Remote(1)));
    LegalPair(INITIAL, Start, CheckQuit);
    hide Legal, Run;
    LegalSplits(w, [Push(first)] + [Wakeup(Remote(1))], last);
    LegalSplits(INITIAL, [Start] + [CheckQuit], [Push(first)] + [Wakeup(Remote(1))] + last);
    assert [Start] + [CheckQuit] + ([Push(first)] + [Wakeup(Remote(1))] + last)
        == [Start, CheckQuit, Push(first), Wakeup(Remote(1)), Return, ReadWakeup, Swap,
            RunOne, Push(second), EndBatch, CheckQuit];
  }
}
