/** The unary client: one connection, one call at a time (src/rpc/rpc_client.cpp). */
module Client {
  import opened Basics
  import W = Wire
  import opened Metadata
  import opened Frames
  import opened RpcMessage
  import opened ResponseFrame

  // ---- request ids ----

  const IDS := 0xFFFF_FFFF_FFFF_FFFF

  /** The value next_request_id_ takes after an id has been handed out. */
  function Bump(id: u64): u64 {
    var next := (id + 1) % 0x1_0000_0000_0000_0000;
    if next == 0 then 1 else next
  }

  /** The id handed out k calls after `first`. */
  function IdAfter(first: u64, k: nat): u64 {
    if k == 0 then first else Bump(IdAfter(first, k - 1))
  }

  lemma {:induction false} IdClosedForm(first: u64, k: nat)
    requires first != 0
    ensures IdAfter(first, k) == (first - 1 + k) % IDS + 1
  {
    if k == 0 {
    } else {
      var n := first - 1 + (k - 1);
      IdClosedForm(first, k - 1);
      NextResidue(n);
      BumpResidue(n % IDS);
      hide Bump;
    }
  }

  lemma {:induction false} BumpResidue(r: nat)
    requires r < IDS
    ensures Bump(r + 1) == (if r == IDS - 1 then 0 else r + 1) + 1
  {
  }

  lemma {:induction false} NextResidue(n: nat)
    ensures (n + 1) % IDS == if n % IDS == IDS - 1 then 0 else n % IDS + 1
  {
  }

  /** Ids are never zero, and no two among 2^64 - 1 consecutive ones are equal. */
  lemma {:induction false} IdsDistinct(first: u64, i: nat, j: nat)
    requires first != 0 && i < j < i + IDS
    ensures IdAfter(first, i) != 0
    ensures IdAfter(first, i) != IdAfter(first, j)
  {
    IdClosedForm(first, i);
    IdClosedForm(first, j);
    ResiduesDiffer(first - 1 + i, first - 1 + j);
  }

  lemma {:induction false} ResiduesDiffer(a: nat, b: nat)
    requires a < b < a + IDS
    ensures a % IDS != b % IDS
  {
    assert a == IDS * (a / IDS) + a % IDS && b == IDS * (b / IDS) + b % IDS;
  }

  // ---- the environment of one call ----

  /** One send or recv attempt on the non-blocking socket. */
  datatype Io =
    | Moved(n: nat)     // bytes the kernel took or gave, at most what was offered
    | Interrupted       // EINTR
    | Again(wait: Wait) // EAGAIN, then waitForEvent
    | Failed            // any other error, or an orderly close

  /** waitForEvent: the socket is ready, the deadline has passed, or the connection is lost. */
  datatype Wait = Ready | TimedOut | Lost

  function WaitCode(w: Wait): Option<StatusCode> {
    match w
    case Ready => None
    case TimedOut => Some(DeadlineExceeded)
    case Lost => Some(Unavailable)
  }

  /** How far a transfer of length bytes comes, of which available can move, and the code it
      fails with. A script that runs out is a wait that timed out. */
  function Transfer(script: seq<Io>, length: nat, available: nat): (r: (nat, Option<StatusCode>))
    ensures r.0 <= length && r.0 <= available
    ensures r.1 == None ==> r.0 == length
    ensures r.1 != Some(Ok)
    decreases |script|
  {
    if length == 0 then (0, None)
    else if script == [] then (0, Some(DeadlineExceeded))
    else
      var (k, ends) := Outcome(script[0], length, available);
      if ends != None then (0, ends)
      else
        var (m, failure) := Transfer(script[1..], length - k, available - k);
        (k + m, failure)
  }

  /** One attempt of a transfer: what it moves, or the code it ends the transfer with. */
  function Outcome(io: Io, length: nat, available: nat): (r: (nat, Option<StatusCode>))
    ensures r.0 <= length && r.0 <= available && r.1 != Some(Ok)
  {
    match io
    case Moved(n) => if n == 0 then (0, Some(Unavailable)) else (Least3(n, length, available), None)
    case Interrupted => (0, None)
    case Again(wait) => (0, WaitCode(wait))
    case Failed => (0, Some(Unavailable))
  }

  /** i attempts have moved that much, and the rest of the script decides the rest. */
  ghost predicate Underway(script: seq<Io>, i: nat, moved: nat, length: nat, available: nat) {
    && i <= |script| && moved <= length && moved <= available
    && var rest := Transfer(script[i..], length - moved, available - moved);
       Transfer(script, length, available) == (moved + rest.0, rest.1)
  }

  lemma {:induction false} TransferStarts(script: seq<Io>, length: nat, available: nat)
    ensures Underway(script, 0, 0, length, available)
  {
    assert script[0..] == script;
  }

  lemma {:induction false} TransferStep(script: seq<Io>, i: nat, moved: nat, length: nat, available: nat)
    requires Underway(script, i, moved, length, available) && moved < length && i < |script|
    ensures var (k, ends) := Outcome(script[i], length - moved, available - moved);
            if ends == None then Underway(script, i + 1, moved + k, length, available)
            else Transfer(script, length, available) == (moved, ends)
  {
    hide Outcome;
    assert script[i..][1..] == script[i + 1..] && script[i..][0] == script[i];
  }

  lemma {:induction false} TransferEnds(script: seq<Io>, i: nat, moved: nat, length: nat, available: nat)
    requires Underway(script, i, moved, length, available) && (moved == length || i == |script|)
    ensures Transfer(script, length, available) == (moved, if moved == length then None else Some(DeadlineExceeded))
  {
  }

  /** The bytes a run of attempts has to offer. */
  function Offered(script: seq<Io>): nat {
    if script == [] then 0 else (if script[0].Moved? then script[0].n else 0) + Offered(script[1..])
  }

  /** An attempt after which the loop goes on. */
  predicate GoesOn(io: Io) {
    match io
    case Moved(n) => n > 0
    case Interrupted => true
    case Again(wait) => wait == Ready
    case Failed => false
  }

  predicate Suffices(script: seq<Io>, length: int) {
    Offered(script) >= length && forall i :: 0 <= i < |script| ==> GoesOn(script[i])
  }

  /** Some first attempts, none of which ends the loop, offer enough bytes. */
  ghost predicate Enough(script: seq<Io>, length: int) {
    exists k :: 0 <= k <= |script| && Suffices(script[..k], length)
  }

  /** A transfer completes exactly when all of it is there to move and some first attempts, none
      of which ends the loop, offer enough bytes. */
  lemma {:induction false} TransferCompletes(script: seq<Io>, length: nat, available: nat)
    ensures Transfer(script, length, available).1 == None
            <==> length == 0 || (length <= available && Enough(script, length))
    decreases |script|
  {
    if script == [] {
      assert script[..0] == [];
    } else if length > 0 {
      var (moved, ends) := Outcome(script[0], length, available);
      OutcomeGoesOn(script[0], length, available);
      TransferCompletes(script[1..], length - moved, available - moved);
      if length <= available {
        EnoughCons(script, length, available);
      }
      hide Outcome, Enough, GoesOn;
    }
  }

  lemma {:induction false} OutcomeGoesOn(io: Io, length: nat, available: nat)
    ensures Outcome(io, length, available).1 == None <==> GoesOn(io)
  {
  }

  lemma {:induction false} EnoughCons(script: seq<Io>, length: nat, available: nat)
    requires script != [] && 0 < length <= available
    ensures var moved := Outcome(script[0], length, available).0;
            Enough(script, length) <==> GoesOn(script[0]) && (moved == length || Enough(script[1..], length - moved))
  {
    var moved, rest := Outcome(script[0], length, available).0, script[1..];
    var offered := if script[0].Moved? then script[0].n else 0;
    assert moved == if offered < length then offered else length;
    hide Outcome, Suffices, GoesOn;
    if Enough(script, length) {
      var k :| 0 <= k <= |script| && Suffices(script[..k], length);
      NothingOffered(script, length);
      SufficesCons(script, k - 1, length);
    }
    if GoesOn(script[0]) && moved == length {
      SufficesCons(script, 0, length);
      NothingOffered(rest, length - offered);
      assert Suffices(script[..0 + 1], length);
    } else if GoesOn(script[0]) && Enough(rest, length - moved) {
      var k :| 0 <= k <= |rest| && Suffices(rest[..k], length - moved);
      SufficesCons(script, k, length);
      assert Suffices(script[..k + 1], length);
    }
  }

  lemma {:induction false} NothingOffered(script: seq<Io>, length: int)
    ensures Suffices(script[..0], length) <==> length <= 0
  {
    assert script[..0] == [];
  }

  lemma {:induction false} SufficesCons(script: seq<Io>, k: nat, length: int)
    requires k < |script|
    ensures Suffices(script[..k + 1], length)
            <==> GoesOn(script[0])
                 && Suffices(script[1..][..k], length - if script[0].Moved? then script[0].n else 0)
  {
    var some, rest := script[..k + 1], script[1..][..k];
    assert some[1..] == rest && some[0] == script[0];
    assert forall i :: 0 <= i < |rest| ==> rest[i] == some[i + 1];
    assert forall i :: 0 < i < |some| ==> some[i] == rest[i - 1];
  }

  // ---- how a transfer fails ----

  /** Attempt i ends the loop: those before it went on, and had not moved everything. */
  predicate EndsAt(script: seq<Io>, i: nat, length: nat, available: nat) {
    && i < |script| && !GoesOn(script[i])
    && (forall j :: 0 <= j < i ==> GoesOn(script[j]))
    && (Offered(script[..i]) < length || available < length)
  }

  /** Every attempt went on, and they had not moved everything. */
  predicate RunsOut(script: seq<Io>, length: nat, available: nat) {
    && (forall j :: 0 <= j < |script| ==> GoesOn(script[j]))
    && (Offered(script) < length || available < length)
  }

  /** The deadline passed in a wait that ended the loop, or in one behind the last attempt. */
  ghost predicate DeadlinePasses(script: seq<Io>, length: nat, available: nat) {
    RunsOut(script, length, available)
    || exists i: nat :: EndsAt(script, i, length, available) && script[i] == Again(TimedOut)
  }

  /** The loop ended in a lost connection, an error, or an orderly close. */
  ghost predicate PeerLost(script: seq<Io>, length: nat, available: nat) {
    exists i: nat :: EndsAt(script, i, length, available)
                     && (script[i] == Again(Lost) || script[i] == Failed || script[i] == Moved(0))
  }

  /** A transfer fails with kDeadlineExceeded exactly when the deadline passes before everything
      has been moved, with kUnavailable exactly when the peer is lost before that, and with
      nothing else. */
  lemma {:induction false} TransferFails(script: seq<Io>, length: nat, available: nat)
    ensures var failure := Transfer(script, length, available).1;
            && (failure == Some(DeadlineExceeded) <==> DeadlinePasses(script, length, available))
            && (failure == Some(Unavailable) <==> PeerLost(script, length, available))
            && (failure == None || failure == Some(DeadlineExceeded) || failure == Some(Unavailable))
    decreases |script|
  {
    hide *;
    if length == 0 || script == [] {
      NothingToFail(script, length, available);
    } else {
      var (moved, ends) := Outcome(script[0], length, available);
      FirstAttempt(script[0], length, available);
      FailuresCons(script, length, available);
      TransferCons(script, length, available);
      if ends == None {
        TransferFails(script[1..], length - moved, available - moved);
      }
    }
  }

  lemma {:induction false} TransferCons(script: seq<Io>, length: nat, available: nat)
    requires script != [] && length > 0
    ensures var (moved, ends) := Outcome(script[0], length, available);
            Transfer(script, length, available).1
            == if ends != None then ends else Transfer(script[1..], length - moved, available - moved).1
  {
    hide Outcome;
  }

  lemma {:induction false} NothingToFail(script: seq<Io>, length: nat, available: nat)
    requires length == 0 || script == []
    ensures DeadlinePasses(script, length, available) <==> length > 0
    ensures !PeerLost(script, length, available)
    ensures Transfer(script, length, available).1 == if length > 0 then Some(DeadlineExceeded) else None
  {
  }

  lemma {:induction false} FirstAttempt(io: Io, length: nat, available: nat)
    ensures var (moved, ends) := Outcome(io, length, available);
            && (ends == None <==> GoesOn(io))
            && (ends == Some(DeadlineExceeded) <==> io == Again(TimedOut))
            && (ends == Some(Unavailable) <==> io == Again(Lost) || io == Failed || io == Moved(0))
            && (ends == None || ends == Some(DeadlineExceeded) || ends == Some(Unavailable))
  {
  }

  lemma {:induction false} OfferedCons(script: seq<Io>, i: nat)
    requires i < |script|
    ensures Offered(script[..i + 1]) == (if script[0].Moved? then script[0].n else 0) + Offered(script[1..][..i])
  {
    var some := script[..i + 1];
    assert some[0] == script[0] && some[1..] == script[1..][..i];
  }

  /** The first attempt's share of how the loop ends. */
  lemma {:induction false} EndsCons(script: seq<Io>, i: nat, length: nat, available: nat)
    requires script != [] && GoesOn(script[0]) && length > 0
    ensures var moved := Outcome(script[0], length, available).0;
            EndsAt(script, i + 1, length, available) <==> EndsAt(script[1..], i, length - moved, available - moved)
  {
    var rest := script[1..];
    if i < |rest| {
      OfferedCons(script, i);
      assert forall j :: 0 < j <= i + 1 ==> script[j] == rest[j - 1];
      assert forall j :: 0 <= j <= i ==> rest[j] == script[j + 1];
    }
    hide GoesOn;
  }

  lemma {:induction false} RunsOutCons(script: seq<Io>, length: nat, available: nat)
    requires script != [] && GoesOn(script[0]) && length > 0
    ensures var moved := Outcome(script[0], length, available).0;
            RunsOut(script, length, available) <==> RunsOut(script[1..], length - moved, available - moved)
  {
    var rest := script[1..];
    assert forall j :: 0 < j < |script| ==> script[j] == rest[j - 1];
    assert forall j :: 0 <= j < |rest| ==> rest[j] == script[j + 1];
    hide GoesOn;
  }

  lemma {:induction false} EndsFirst(script: seq<Io>, i: nat, length: nat, available: nat)
    requires script != [] && !GoesOn(script[0]) && length > 0
    ensures EndsAt(script, i, length, available) <==> i == 0
    ensures !RunsOut(script, length, available)
  {
    assert script[..0] == [];
    hide GoesOn;
  }

  lemma {:induction false} FailuresCons(script: seq<Io>, length: nat, available: nat)
    requires script != [] && length > 0
    ensures var moved, rest := Outcome(script[0], length, available).0, script[1..];
            if GoesOn(script[0]) then
              && (DeadlinePasses(script, length, available)
                  <==> DeadlinePasses(rest, length - moved, available - moved))
              && (PeerLost(script, length, available) <==> PeerLost(rest, length - moved, available - moved))
            else
              && (DeadlinePasses(script, length, available) <==> script[0] == Again(TimedOut))
              && (PeerLost(script, length, available)
                  <==> script[0] == Again(Lost) || script[0] == Failed || script[0] == Moved(0))
  {
    var moved, rest := Outcome(script[0], length, available).0, script[1..];
    hide Outcome, GoesOn;
    if GoesOn(script[0]) {
      RunsOutCons(script, length, available);
      NotTheFirst(script, length, available);
      forall i: nat | i > 0
        ensures EndsAt(script, i, length, available) <==> EndsAt(rest, i - 1, length - moved, available - moved)
      {
        EndsCons(script, i - 1, length, available);
      }
      Shifted(script, length, available, moved);
    } else {
      forall i: nat ensures EndsAt(script, i, length, available) <==> i == 0 {
        EndsFirst(script, i, length, available);
      }
      EndsFirst(script, 0, length, available);
      hide EndsAt, RunsOut;
      assert EndsAt(script, 0, length, available);
    }
  }

  lemma {:induction false} NotTheFirst(script: seq<Io>, length: nat, available: nat)
    requires script != [] && GoesOn(script[0])
    ensures !EndsAt(script, 0, length, available)
  {
  }

  lemma {:induction false} Shifted(script: seq<Io>, length: nat, available: nat, moved: nat)
    requires script != [] && moved <= length && moved <= available
    requires !EndsAt(script, 0, length, available)
    requires forall i: nat | i > 0 ::
               EndsAt(script, i, length, available) <==> EndsAt(script[1..], i - 1, length - moved, available - moved)
    requires RunsOut(script, length, available) <==> RunsOut(script[1..], length - moved, available - moved)
    ensures DeadlinePasses(script, length, available)
            <==> DeadlinePasses(script[1..], length - moved, available - moved)
    ensures PeerLost(script, length, available) <==> PeerLost(script[1..], length - moved, available - moved)
  {
    var rest, l, a := script[1..], length - moved, available - moved;
    forall i: nat | EndsAt(script, i, length, available)
      ensures i > 0 && EndsAt(rest, i - 1, l, a) && rest[i - 1] == script[i]
    {
    }
    forall i: nat | EndsAt(rest, i, l, a)
      ensures EndsAt(script, i + 1, length, available) && script[i + 1] == rest[i]
    {
      var next := i + 1;
      assert EndsAt(script, next, length, available) <==> EndsAt(rest, next - 1, l, a);
    }
    hide RunsOut;
  }

  lemma {:induction false} TakeMore(s: bytes, i: nat, k: nat)
    requires i + k <= |s|
    ensures s[..i + k] == s[..i] + s[i..i + k] && s == s[..k] + s[k..]
  {
  }

  function Least3(a: nat, b: nat, c: nat): (k: nat)
    ensures k <= a && k <= b && k <= c
  {
    if a <= b && a <= c then a else if b <= c then b else c
  }

  /** One address of the endpoint: no socket for it, connected at once, still connecting (with
      what poll and then SO_ERROR say), or refused. */
  datatype Attempt = NoSocket | AtOnce | InProgress(wait: Wait, sound: bool) | Refused

  /** The endpoint: host or port missing, not resolvable, or its addresses in order. */
  datatype Resolved = Incomplete | Unresolvable | Addresses(attempts: seq<Attempt>)

  predicate Connects(a: Attempt) { a.AtOnce? || a == InProgress(Ready, true) }

  predicate TimesOut(a: Attempt) { a.InProgress? && a.wait == TimedOut }

  /** The loop over the addresses; code is the failure so far. */
  function TryAll(attempts: seq<Attempt>, code: StatusCode): Option<StatusCode> {
    if attempts == [] then Some(code)
    else if Connects(attempts[0]) then None
    else if TimesOut(attempts[0]) then Some(DeadlineExceeded)
    else TryAll(attempts[1..], if attempts[0].NoSocket? then code else Unavailable)
  }

  /** What ensureConnected fails with on a new connection; None when it connects. */
  function ConnectCode(r: Resolved): Option<StatusCode> {
    match r
    case Incomplete => Some(InvalidArgument)
    case Unresolvable => Some(Unavailable)
    case Addresses(attempts) => TryAll(attempts, Unavailable)
  }

  /** Some address connects at once, or in time and without an error, and none before it takes
      up the deadline. */
  predicate SomeConnects(attempts: seq<Attempt>) {
    exists i :: && 0 <= i < |attempts| && (attempts[i] == AtOnce || attempts[i] == InProgress(Ready, true))
                && forall j :: 0 <= j < i ==> !(attempts[j].InProgress? && attempts[j].wait == TimedOut)
  }

  /** Some address takes up the deadline, and none before it connects. */
  predicate SomeTimesOut(attempts: seq<Attempt>) {
    exists i :: && 0 <= i < |attempts| && attempts[i].InProgress? && attempts[i].wait == TimedOut
                && forall j :: 0 <= j < i ==> attempts[j] != AtOnce && attempts[j] != InProgress(Ready, true)
  }

  /** A connection comes about exactly when some address connects and none before it used up
      the deadline; otherwise the code tells whether one did. */
  lemma {:induction false} ConnectsExactly(attempts: seq<Attempt>, code: StatusCode)
    requires code == Unavailable
    ensures var failure := TryAll(attempts, code);
            && (failure == None <==> SomeConnects(attempts))
            && (failure == Some(DeadlineExceeded) <==> SomeTimesOut(attempts))
            && (failure == None || failure == Some(DeadlineExceeded) || failure == Some(Unavailable))
  {
    if attempts != [] {
      ConnectsExactly(attempts[1..], code);
      FirstConnects(attempts);
      FirstTimesOut(attempts);
      hide SomeConnects, SomeTimesOut;
    }
  }

  lemma {:induction false} FirstConnects(attempts: seq<Attempt>)
    requires attempts != []
    ensures SomeConnects(attempts)
            <==> Connects(attempts[0]) || (!TimesOut(attempts[0]) && SomeConnects(attempts[1..]))
  {
    var rest := attempts[1..];
    assert forall i :: 0 < i < |attempts| ==> attempts[i] == rest[i - 1];
    assert forall i :: 0 <= i < |rest| ==> rest[i] == attempts[i + 1];
  }

  lemma {:induction false} FirstTimesOut(attempts: seq<Attempt>)
    requires attempts != [] && !(Connects(attempts[0]) && TimesOut(attempts[0]))
    ensures SomeTimesOut(attempts)
            <==> TimesOut(attempts[0]) || (!Connects(attempts[0]) && SomeTimesOut(attempts[1..]))
  {
    var rest := attempts[1..];
    assert forall i :: 0 < i < |attempts| ==> attempts[i] == rest[i - 1];
    assert forall i :: 0 <= i < |rest| ==> rest[i] == attempts[i + 1];
  }

  datatype Env = Env(
    endpoint: Resolved,            // what a new connection finds
    deadlineText: bytes,           // std::to_string of the absolute deadline
    sends: seq<Io>, headerRecvs: seq<Io>, payloadRecvs: seq<Io>)

  /** What both ends have exchanged on one connection: a request and the bytes answering it. */
  datatype Exchange = Exchange(request: Frame, reply: bytes)

  /** A server that answers with one frame: a header, and when that header is valid exactly
      the payload it announces. Nothing is assumed about the contents. */
  predicate OneFrame(reply: bytes) {
    && |reply| >= W.HEADER_SIZE
    && (W.ValidateHeader(W.ReadHeader(reply)) == W.Ok ==> |reply| == W.ReadHeader(reply).totalLength)
  }

  /** What a fully delivered reply means to the call that sent request `id`, and whether the
      connection is kept. None where the source has no outcome: it reads behind the payload. */
  function Interpret(reply: bytes, id: u64): Option<(CallResult, bool)> {
    match ParseFrame(reply)
    case Got(f, _) =>
      if f.msgType != W.RESPONSE || f.requestId != id then Some((Failure(Status(Unavailable, [])), false))
      else Some(Settle(f.metadata, f.body))
    case Bad(why) =>
      if why == W.Undefined && Awaited(reply, id) then None
      else Some((Failure(Status(Unavailable, [])), false))
    case Need => Some((Failure(Status(Unavailable, [])), false))
  }

  /** The outcome of a response that was decoded, and whether the connection is kept. */
  function Settle(metadata: Meta, body: bytes): (CallResult, bool) {
    match DecodeStatus(metadata)
    case None => (Failure(Status(Internal, [])), false)
    case Some(s) =>
      if s.code != Ok then (Failure(s), true)
      else (Success(Response(Status(Ok, []), metadata, body)), true)
  }

  /** The header is that of a response to this call, so its metadata is decoded. */
  predicate Awaited(reply: bytes, id: u64) {
    |reply| >= W.HEADER_SIZE && W.ReadHeader(reply).msgType == W.RESPONSE && W.ReadHeader(reply).requestId == id
  }

  /** A reply has no outcome exactly when it has a valid header, that of a response to this call,
      and a length in its metadata overhangs its payload. */
  lemma {:induction false} UndeterminedExactly(reply: bytes, id: u64)
    requires OneFrame(reply)
    ensures Interpret(reply, id) == None
            <==> && W.ValidateHeader(W.ReadHeader(reply)) == W.Ok && Awaited(reply, id)
                 && Overhangs(reply[W.HEADER_SIZE..], W.ReadHeader(reply).metaLength)
  {
    UndefinedExactly(reply);
    hide ParseFrame, W.ReadHeader, W.ValidateHeader, Overhangs, DecodeStatus;
    assert reply[W.HEADER_SIZE..|reply|] == reply[W.HEADER_SIZE..];
  }

  /** The smallest such reply: two bytes of metadata that announce an entry of one byte. */
  lemma {:induction false} UndeterminedExample(id: u64)
    ensures var h := W.Header(W.MAGIC, W.VERSION_1, W.RESPONSE, 0, 0, W.HEADER_SIZE + 2, id, 2, 0, 0);
            var reply := W.HeaderBytes(h) + [TAG_ENTRY, 1];
            OneFrame(reply) && Interpret(reply, id) == None
  {
    var h := W.Header(W.MAGIC, W.VERSION_1, W.RESPONSE, 0, 0, W.HEADER_SIZE + 2, id, 2, 0, 0);
    var reply := W.HeaderBytes(h) + [TAG_ENTRY, 1];
    W.HeaderRoundTrip(h, [TAG_ENTRY, 1]);
    assert reply[W.HEADER_SIZE..] == [TAG_ENTRY, 1];
    ShortestOverhang(map[]);
    LeavesBufferExactly([TAG_ENTRY, 1], 2, map[]);
    assert W.ValidateHeader(h) == W.Ok;
    hide W.HeaderBytes, W.ReadHeader, Overhangs, ParseFrame, DecodeStatus;
    UndeterminedExactly(reply, id);
  }

  ghost function RequestBytes(xs: seq<Exchange>): bytes {
    if xs == [] then [] else RequestBytes(xs[..|xs| - 1]) + FrameBytes(xs[|xs| - 1].request)
  }

  datatype CallResult = Success(response: Response) | Failure(status: Status)

  /** The request frame of a call: caller metadata overlaid with the reserved keys. */
  function CallMeta(service: bytes, rpcMethod: bytes, options: Meta, deadlineText: bytes): Meta {
    options[SERVICE_KEY := service][METHOD_KEY := rpcMethod][DEADLINE_KEY := deadlineText]
  }

  ghost function CallFrame(id: u64, service: bytes, rpcMethod: bytes, options: Meta, body: bytes,
                           deadlineText: bytes): Frame
  {
    Frame(W.REQUEST, id, CallMeta(service, rpcMethod, options, deadlineText), body)
  }

  // ---- where a call ends before its reply has been read ----

  /** A call, and whether it found a connection open. */
  datatype Args = Args(open: bool, service: bytes, rpcMethod: bytes, options: Meta, body: bytes, deadlinePositive: bool)

  /** The request is within encodeFrame's limits. */
  ghost predicate Fits(a: Args, env: Env) {
    Encodable(CallMeta(a.service, a.rpcMethod, a.options, env.deadlineText), a.body)
  }

  /** The code of the receiving half when it does not read the reply to its end. */
  function Unread(env: Env, reply: bytes, id: u64): Option<StatusCode>
    requires OneFrame(reply)
  {
    var failure := Transfer(env.headerRecvs, W.HEADER_SIZE, |reply|).1;
    if failure != None || W.ValidateHeader(W.ReadHeader(reply)) != W.Ok || !Awaited(reply, id) then failure
    else Transfer(env.payloadRecvs, |reply| - W.HEADER_SIZE, |reply| - W.HEADER_SIZE).1
  }

  /** The code of the first stage that ends the call; None when its reply is read. */
  ghost function Undelivered(a: Args, env: Env, reply: bytes, id: u64): Option<StatusCode>
    requires OneFrame(reply)
  {
    if a.service == [] || a.rpcMethod == [] || !a.deadlinePositive then Some(InvalidArgument)
    else if !a.open && ConnectCode(env.endpoint) != None then ConnectCode(env.endpoint)
    else if !Fits(a, env) then Some(ResourceExhausted)
    else
      var n := |FrameBytes(CallFrame(id, a.service, a.rpcMethod, a.options, a.body, env.deadlineText))|;
      if Transfer(env.sends, n, n).1 != None then Transfer(env.sends, n, n).1 else Unread(env, reply, id)
  }

  /** The arguments are in order, and there is or comes to be a connection. */
  ghost predicate Reaches(a: Args, env: Env) {
    && a.service != [] && a.rpcMethod != [] && a.deadlinePositive
    && (a.open || (env.endpoint.Addresses? && SomeConnects(env.endpoint.attempts)))
  }

  ghost predicate Sends(a: Args, env: Env, n: nat) {
    && Reaches(a, env) && Fits(a, env)
    && !DeadlinePasses(env.sends, n, n) && !PeerLost(env.sends, n, n)
  }

  ghost predicate ReadsHeader(env: Env, reply: bytes) {
    !DeadlinePasses(env.headerRecvs, 32, |reply|) && !PeerLost(env.headerRecvs, 32, |reply|)
  }

  /** The header read is that of a response to this call, so the payload is read too. */
  predicate Continues(reply: bytes, id: u64) {
    && |reply| >= 32 && W.ValidateHeader(W.ReadHeader(reply)) == W.Ok && Awaited(reply, id)
  }

  /** In some transfer, or while connecting, the deadline passed. */
  ghost predicate TooLate(a: Args, env: Env, reply: bytes, id: u64, n: nat) {
    || (a.service != [] && a.rpcMethod != [] && a.deadlinePositive && !a.open
        && env.endpoint.Addresses? && SomeTimesOut(env.endpoint.attempts))
    || (Reaches(a, env) && Fits(a, env)
        && DeadlinePasses(env.sends, n, n))
    || (Sends(a, env, n) && DeadlinePasses(env.headerRecvs, 32, |reply|))
    || (Sends(a, env, n) && ReadsHeader(env, reply) && Continues(reply, id)
        && DeadlinePasses(env.payloadRecvs, |reply| - 32, |reply| - 32))
  }

  /** What the codes of a call that is not answered mean: which stage ended it, and how. */
  lemma {:induction false} FailureStages(a: Args, env: Env, reply: bytes, id: u64, n: nat)
    requires OneFrame(reply)
    requires n == |FrameBytes(CallFrame(id, a.service, a.rpcMethod, a.options, a.body, env.deadlineText))|
    ensures var r := Undelivered(a, env, reply, id);
            var argued := a.service != [] && a.rpcMethod != [] && a.deadlinePositive;
            && (r == Some(InvalidArgument) <==> !argued || (!a.open && env.endpoint.Incomplete?))
            && (r == Some(ResourceExhausted) <==> Reaches(a, env) && !Fits(a, env))
            && (r == Some(DeadlineExceeded) <==> TooLate(a, env, reply, id, n))
            && (r == None
                <==> && Sends(a, env, n) && ReadsHeader(env, reply)
                     && (Continues(reply, id) ==> !DeadlinePasses(env.payloadRecvs, |reply| - 32, |reply| - 32)
                                                  && !PeerLost(env.payloadRecvs, |reply| - 32, |reply| - 32)))
            && (r == None || r == Some(InvalidArgument) || r == Some(ResourceExhausted) || r == Some(DeadlineExceeded)
                || r == Some(Unavailable))
  {
    ConnectMeans(env.endpoint);
    hide ConnectCode, SomeConnects, SomeTimesOut, Transfer, DeadlinePasses, PeerLost, Fits, CallFrame,
         FrameBytes, W.ValidateHeader, W.ReadHeader, Unread, Continues;
    TransferFails(env.sends, n, n);
    UnreadMeans(env, reply, id);
    BothNot(env.sends, n, n);
  }

  lemma {:induction false} BothNot(script: seq<Io>, length: nat, available: nat)
    ensures !(DeadlinePasses(script, length, available) && PeerLost(script, length, available))
  {
    hide *;
    TransferFails(script, length, available);
  }

  lemma {:induction false} ConnectMeans(r: Resolved)
    ensures var code := ConnectCode(r);
            && (code == None <==> r.Addresses? && SomeConnects(r.attempts))
            && (code == Some(InvalidArgument) <==> r.Incomplete?)
            && (code == Some(DeadlineExceeded) <==> r.Addresses? && SomeTimesOut(r.attempts))
            && (code == None || code == Some(InvalidArgument) || code == Some(DeadlineExceeded)
                || code == Some(Unavailable))
  {
    hide SomeConnects, SomeTimesOut, TryAll;
    if r.Addresses? {
      ConnectsExactly(r.attempts, Unavailable);
    }
  }

  lemma {:induction false} UnreadMeans(env: Env, reply: bytes, id: u64)
    requires OneFrame(reply)
    ensures var r, more := Unread(env, reply, id), |reply| - 32;
            && (r == Some(DeadlineExceeded)
                <==> DeadlinePasses(env.headerRecvs, 32, |reply|)
                     || (ReadsHeader(env, reply) && Continues(reply, id)
                         && DeadlinePasses(env.payloadRecvs, more, more)))
            && (r == Some(Unavailable)
                <==> PeerLost(env.headerRecvs, 32, |reply|)
                     || (ReadsHeader(env, reply) && Continues(reply, id) && PeerLost(env.payloadRecvs, more, more)))
            && (r == None || r == Some(DeadlineExceeded) || r == Some(Unavailable))
  {
    hide Transfer, DeadlinePasses, PeerLost, W.ValidateHeader, W.ReadHeader, Awaited;
    TransferFails(env.headerRecvs, 32, |reply|);
    BothNot(env.headerRecvs, 32, |reply|);
    TransferFails(env.payloadRecvs, |reply| - 32, |reply| - 32);
  }

  class RpcClient {
    var connected: bool          // fd_ >= 0
    var nextRequestId: u64
    // The connection: everything written to it, and the server's bytes not yet read from it.
    var outbound: bytes
    var inbound: bytes
    ghost var exchanges: seq<Exchange>

    /** Whenever the call mutex is free: no connection, or a stream on which every request
        written has been answered and every answer has been read to its last byte. */
    ghost predicate Aligned()
      reads this
    {
      && nextRequestId != 0
      && (connected ==> inbound == [] && outbound == RequestBytes(exchanges))
    }

    constructor (initial: u64)
      requires initial != 0
      ensures Aligned() && !connected && nextRequestId == initial
    {
      connected, nextRequestId, outbound, inbound, exchanges := false, initial, [], [], [];
    }

    method CloseUnlocked()
      modifies this`connected
      ensures !connected
    {
      connected := false;
    }

    method EnsureConnected(endpoint: Resolved) returns (failure: Option<StatusCode>)
      requires Aligned()
      modifies this
      ensures Aligned() && nextRequestId == old(nextRequestId)
      ensures failure == if old(connected) then None else ConnectCode(endpoint)
      ensures failure == None ==> connected && exchanges == old(if connected then exchanges else [])
      ensures failure != None ==> !connected && failure != Some(Ok)
    {
      if connected { return None; }
      if endpoint.Incomplete? { return Some(InvalidArgument); }
      if endpoint.Unresolvable? { return Some(Unavailable); }
      var attempts, code, i := endpoint.attempts, Unavailable, 0;
      assert attempts[0..] == attempts;
      while i < |attempts|
        invariant i <= |attempts| && !connected && code != Ok && nextRequestId == old(nextRequestId)
        invariant TryAll(attempts, Unavailable) == TryAll(attempts[i..], code)
      {
        assert attempts[i..][1..] == attempts[i + 1..] && attempts[i..][0] == attempts[i];
        if Connects(attempts[i]) {
          connected, outbound, inbound, exchanges := true, [], [], [];
          return None;
        }
        if TimesOut(attempts[i]) { return Some(DeadlineExceeded); }
        if !attempts[i].NoSocket? { code := Unavailable; }
        i := i + 1;
      }
      failure := Some(code);
    }

    method NextRequestId() returns (id: u64)
      modifies this`nextRequestId
      ensures id == old(nextRequestId) && nextRequestId == Bump(id)
    {
      id := nextRequestId;
      nextRequestId := (nextRequestId + 1) % 0x1_0000_0000_0000_0000;
      if nextRequestId == 0 {
        nextRequestId := nextRequestId + 1;
      }
    }

    /** writeAll: the part of the data the transfer moved is on the stream. */
    method WriteAll(data: bytes, script: seq<Io>) returns (failure: Option<StatusCode>)
      modifies this`outbound
      ensures failure == Transfer(script, |data|, |data|).1
      ensures outbound == old(outbound) + data[..Transfer(script, |data|, |data|).0]
    {
      var offset: nat, i: nat := 0, 0;
      TransferStarts(script, |data|, |data|);
      assert data[..0] == [] && outbound + [] == outbound;
      hide *;
      while offset < |data|
        invariant Underway(script, i, offset, |data|, |data|) && offset <= |data| && i <= |script|
        invariant outbound == old(outbound) + data[..offset]
        decreases |script| - i
      {
        if i == |script| {
          TransferEnds(script, i, offset, |data|, |data|);
          return Some(DeadlineExceeded);
        }
        TransferStep(script, i, offset, |data|, |data|);
        var k, ends := Attempt(script[i], |data| - offset, |data| - offset);
        if ends != None { return ends; }
        TakeMore(data, offset, k);
        Assoc(old(outbound), data[..offset], data[offset..offset + k]);
        outbound := outbound + data[offset..offset + k];
        offset := offset + k;
        i := i + 1;
      }
      TransferEnds(script, i, offset, |data|, |data|);
      failure := None;
    }

    /** What writeAll and readAll do with the result of one send or recv. */
    method Attempt(io: Io, length: nat, available: nat) returns (k: nat, ends: Option<StatusCode>)
      ensures (k, ends) == Outcome(io, length, available)
    {
      match io
      case Moved(n) =>
        if n == 0 { return 0, Some(Unavailable); }
        return Least3(n, length, available), None;
      case Interrupted => return 0, None;
      case Again(wait) => return 0, WaitCode(wait);
      case Failed => return 0, Some(Unavailable);
    }

    /** readAll: the bytes the transfer moved have left the front of the stream. */
    method ReadAll(length: nat, script: seq<Io>) returns (failure: Option<StatusCode>, data: bytes)
      modifies this`inbound
      ensures data + inbound == old(inbound)
      ensures (|data|, failure) == Transfer(script, length, |old(inbound)|)
    {
      data := [];
      var i := 0;
      ghost var stream := inbound;
      TransferStarts(script, length, |stream|);
      assert [] + inbound == inbound;
      hide *;
      while |data| < length
        invariant Underway(script, i, |data|, length, |stream|) && |data| <= length && i <= |script|
        invariant data + inbound == stream
        decreases |script| - i
      {
        if i == |script| {
          TransferEnds(script, i, |data|, length, |stream|);
          return Some(DeadlineExceeded), data;
        }
        TransferStep(script, i, |data|, length, |stream|);
        var k, ends := Attempt(script[i], length - |data|, |inbound|);
        if ends != None { return ends, data; }
        TakeMore(inbound, 0, k);
        Assoc(data, inbound[..k], inbound[k..]);
        data, inbound := data + inbound[..k], inbound[k..];
        i := i + 1;
      }
      TransferEnds(script, i, |data|, length, |stream|);
      failure := None;
    }

    method BuildMeta(service: bytes, rpcMethod: bytes, options: seq<Pair>, deadlineText: bytes)
      returns (meta: seq<Pair>)
      requires Ascending(options)
      ensures Ascending(meta) && MapOf(meta) == CallMeta(service, rpcMethod, MapOf(options), deadlineText)
    {
      meta := SetKey(options, SERVICE_KEY, service);
      meta := SetKey(meta, METHOD_KEY, rpcMethod);
      meta := SetKey(meta, DEADLINE_KEY, deadlineText);
    }

    /** The server's half of the exchange: one response frame per request frame. */
    method ServerReplies(ghost request: Frame, reply: bytes)
      modifies this`exchanges, this`inbound
      ensures exchanges == old(exchanges) + [Exchange(request, reply)]
      ensures inbound == old(inbound) + reply
    {
      exchanges := exchanges + [Exchange(request, reply)];
      inbound := inbound + reply;
    }

    /** call, from taking the mutex to releasing it. `reply` is the server's answer, should
        the request reach it; `delivered` tells whether all the socket work succeeded. */
    method Call(service: bytes, rpcMethod: bytes, body: bytes, options: seq<Pair>, deadlinePositive: bool,
                env: Env, reply: bytes) returns (result: CallResult, ghost delivered: bool)
      requires Aligned() && Ascending(options) && OneFrame(reply)
      modifies this
      ensures !delivered || Interpret(reply, old(nextRequestId)) != None ==> Aligned()
      ensures delivered && Interpret(reply, old(nextRequestId)) != None ==>
                && exchanges == old(if connected then exchanges else [])
                   + [Exchange(CallFrame(old(nextRequestId), service, rpcMethod, MapOf(options), body,
                                         env.deadlineText),
                               reply)]
                && (result, connected) == Interpret(reply, old(nextRequestId)).value
                && nextRequestId == Bump(old(nextRequestId))
      ensures !delivered ==>
                && (connected ==> exchanges == old(if connected then exchanges else []))
                && (nextRequestId == old(nextRequestId) || (nextRequestId == Bump(old(nextRequestId)) && !connected))
      ensures var code := Undelivered(Args(old(connected), service, rpcMethod, MapOf(options), body, deadlinePositive),
                                      env, reply, old(nextRequestId));
              (delivered <==> code == None) && (!delivered ==> result == Failure(Status(code.value, [])))
      ensures service == [] || rpcMethod == [] || !deadlinePositive ==> connected == old(connected)
    {
      hide EncodeMeta, FrameBytes, Interpret, CallMeta, OneFrame, Transfer, ConnectCode, Unread, Encodable;
      delivered := false;
      if service == [] || rpcMethod == [] || !deadlinePositive {
        return Failure(Status(InvalidArgument, [])), false;
      }
      var failure := EnsureConnected(env.endpoint);
      if failure != None {
        CloseUnlocked();
        return Failure(Status(failure.value, [])), false;
      }
      var meta := BuildMeta(service, rpcMethod, options, env.deadlineText);
      var fits := IsFrameEncodable(meta, body);
      if !fits {
        return Failure(Status(ResourceExhausted, [])), false;
      }
      var id := NextRequestId();
      var frame := EncodeFrame(id, W.REQUEST, meta, body);
      failure := WriteAll(frame, env.sends);
      if failure != None {
        CloseUnlocked();
        return Failure(Status(failure.value, [])), false;
      }
      assert frame[..|frame|] == frame;
      ghost var before := exchanges;
      ServerReplies(CallFrame(id, service, rpcMethod, MapOf(options), body, env.deadlineText), reply);
      assert exchanges[..|exchanges| - 1] == before;
      result, delivered := Receive(id, env, reply);
    }

    /** The receiving half of call. */
    method Receive(id: u64, env: Env, reply: bytes) returns (result: CallResult, ghost delivered: bool)
      requires connected && OneFrame(reply) && inbound == reply
      modifies this`connected, this`inbound
      ensures !delivered || Interpret(reply, id) != None ==> connected ==> inbound == []
      ensures delivered && Interpret(reply, id) != None ==> (result, connected) == Interpret(reply, id).value
      ensures delivered <==> Unread(env, reply, id) == None
      ensures !delivered ==> result == Failure(Status(Unread(env, reply, id).value, [])) && !connected
    {
      hide Interpret, Transfer, W.ReadHeader, W.ValidateHeader, W.HeaderBytes, ParseFrame;
      delivered := false;
      var failure, headerBytes := ReadAll(W.HEADER_SIZE, env.headerRecvs);
      if failure != None {
        CloseUnlocked();
        return Failure(Status(failure.value, [])), false;
      }
      ReadHeaderPrefix(headerBytes, inbound);
      var r, header := W.DecodeHeader(headerBytes);
      if r != W.Ok || header.msgType != W.RESPONSE || header.requestId != id {
        NotAwaited(reply, id);
        CloseUnlocked();
        delivered := true;
        result := Failure(Status(Unavailable, []));
        return;
      }
      var payload: bytes := [];
      NothingToMove(env.payloadRecvs);
      if header.totalLength > W.HEADER_SIZE {
        failure, payload := ReadAll(header.totalLength - W.HEADER_SIZE, env.payloadRecvs);
        if failure != None {
          CloseUnlocked();
          return Failure(Status(failure.value, [])), false;
        }
      }
      delivered := true;
      result := Conclude(id, header, headerBytes, payload, reply);
    }

    /** What is made of a reply read to its end. */
    method Conclude(id: u64, header: W.Header, headerBytes: bytes, payload: bytes, ghost reply: bytes)
      returns (result: CallResult)
      requires connected && OneFrame(reply) && reply == headerBytes + payload && |headerBytes| == W.HEADER_SIZE
      requires header == W.ReadHeader(headerBytes) == W.ReadHeader(reply) && W.ValidateHeader(header) == W.Ok
      requires header.msgType == W.RESPONSE && header.requestId == id
      modifies this`connected
      ensures Interpret(reply, id) != None ==> (result, connected) == Interpret(reply, id).value
    {
      AwaitedReply(id, header, headerBytes, payload, reply);
      hide Interpret, W.ReadHeader, W.ValidateHeader, DecodeEntries, DecodeStatus, OneFrame;
      var m, meta := W.Ok, map[];
      if header.metaLength != 0 {
        m, meta := DecodeMetadata(payload, header.metaLength, map[]);
      }
      if m != W.Ok {
        CloseUnlocked();
        return Failure(Status(Unavailable, []));
      }
      var status := DecodeStatus(meta);
      if status == None {
        CloseUnlocked();
        result := Failure(Status(Internal, []));
      } else if status.value.code != Ok {
        result := Failure(status.value);
      } else {
        result := Success(Response(Status(Ok, []), meta,
                                   if header.bodyLength != 0 then payload[header.metaLength..] else []));
      }
    }
  }

  lemma {:induction false} NothingToMove(script: seq<Io>)
    ensures Transfer(script, 0, 0).1 == None
  {
  }

  lemma {:induction false} NotAwaited(reply: bytes, id: u64)
    requires OneFrame(reply) && (W.ValidateHeader(W.ReadHeader(reply)) != W.Ok || !Awaited(reply, id))
    ensures Interpret(reply, id) == Some((Failure(Status(Unavailable, [])), false))
  {
    hide W.ReadHeader, W.ValidateHeader, DecodeEntries, Settle;
  }

  /** The outcome of an awaited reply, from its payload. */
  lemma {:induction false} AwaitedReply(id: u64, header: W.Header, headerBytes: bytes, payload: bytes, reply: bytes)
    requires OneFrame(reply) && reply == headerBytes + payload && |headerBytes| == W.HEADER_SIZE
    requires header == W.ReadHeader(headerBytes) == W.ReadHeader(reply) && W.ValidateHeader(header) == W.Ok
    requires header.msgType == W.RESPONSE && header.requestId == id
    ensures header.metaLength + header.bodyLength == |payload|
    ensures header.metaLength == 0 ==> DecodeEntries(payload, 0, map[]) == MetaOk(map[])
    ensures match DecodeEntries(payload, header.metaLength, map[])
            case MetaOk(meta) => Interpret(reply, id) == Some(Settle(meta, payload[header.metaLength..]))
            case MetaBad(_) => Interpret(reply, id) == Some((Failure(Status(Unavailable, [])), false))
            case MetaBeyond(_) => Interpret(reply, id) == None
  {
    ReplyParses(reply, headerBytes, payload);
    hide ParseFrame, W.ReadHeader, DecodeEntries, Settle;
  }

  /** A header and its payload, read separately, are the frame the reference reading sees. */
  lemma {:induction false} ReplyParses(reply: bytes, headerBytes: bytes, payload: bytes)
    requires OneFrame(reply) && reply == headerBytes + payload && |headerBytes| == W.HEADER_SIZE
    requires W.ValidateHeader(W.ReadHeader(headerBytes)) == W.Ok
    ensures var h, m := W.ReadHeader(headerBytes), DecodeEntries(payload, W.ReadHeader(headerBytes).metaLength, map[]);
            && (h.metaLength == 0 ==> m == MetaOk(map[]))
            && ParseFrame(reply)
               == if m.MetaOk? then Got(Frame(h.msgType, h.requestId, m.meta, payload[h.metaLength..]), [])
                  else Bad(Verdict(m))
  {
    ReadHeaderPrefix(headerBytes, payload);
    EmptyBlock(payload);
    hide W.ReadHeader, W.ValidateHeader, DecodeEntries;
    var h := W.ReadHeader(headerBytes);
    assert reply[W.HEADER_SIZE..h.totalLength] == payload;
    assert reply[W.HEADER_SIZE + h.metaLength..h.totalLength] == payload[h.metaLength..];
    assert reply[h.totalLength..] == [];
  }

  /** What a client makes of any frame a server could encode: only a response with this call's
      id is taken, and it is a result, or a failure, according to the number its status spells. */
  lemma {:induction false} InterpretsFrame(f: Frame, id: u64, n: nat)
    requires ValidFrame(f) && n < 8
    ensures var r := Interpret(FrameBytes(f), id);
            && r.Some?
            && (f.msgType != 1 || f.requestId != id ==> r.value == (Failure(Status(Unavailable, [])), false))
            && (f.msgType == 1 && f.requestId == id ==>
                  && (Ascii("nexus.status_code") in f.metadata && Spells(f.metadata[Ascii("nexus.status_code")], n)
                      ==> r.value == (if n == 0 then Success(Response(Status(Ok, []), f.metadata, f.body))
                                      else Failure(Status(CODES[n], MessageIn(f.metadata))), true))
                  && ((Ascii("nexus.status_code") !in f.metadata
                       || forall k :: 0 <= k < 8 ==> !Spells(f.metadata[Ascii("nexus.status_code")], k))
                      ==> r.value == (Failure(Status(Internal, [])), false)))
  {
    FrameRoundTrip(f, []);
    assert FrameBytes(f) + [] == FrameBytes(f);
    SettlesExactly(f.metadata, f.body, n);
    hide ParseFrame, FrameBytes, ValidFrame, Spells, Settle;
  }

  lemma {:induction false} SettlesExactly(m: Meta, body: bytes, n: nat)
    requires n < 8
    ensures Ascii("nexus.status_code") in m && Spells(m[Ascii("nexus.status_code")], n)
            ==> Settle(m, body) == (if n == 0 then Success(Response(Status(Ok, []), m, body))
                                    else Failure(Status(CODES[n], MessageIn(m))), true)
    ensures (Ascii("nexus.status_code") !in m || forall k :: 0 <= k < 8 ==> !Spells(m[Ascii("nexus.status_code")], k))
            ==> Settle(m, body) == (Failure(Status(Internal, [])), false)
  {
    StatusExactly(m, n, MessageIn(m));
    var s := DecodeStatus(m);
    hide Spells, DecodeStatus;
    if s.Some? {
      var k :| 0 <= k < 8 && s.value.code == CODES[k];
      StatusExactly(m, k, s.value.message);
    }
  }

  /** A reply that does not start with a header some frame has is a failure, and closes. */
  lemma {:induction false} InterpretsGarbage(reply: bytes, id: u64)
    requires |reply| >= 32 && !W.EmittedBlock(reply[..32])
    ensures Interpret(reply, id) == Some((Failure(Status(Unavailable, [])), false))
  {
    W.AcceptsExactlyTheEmitted(reply[..32]);
    ReadHeaderPrefix(reply[..32], reply[32..]);
    assert reply[..32] + reply[32..] == reply;
    hide W.ReadHeader, W.ValidateHeader, W.EmittedBlock, DecodeEntries, DecodeStatus;
  }

  function MessageIn(m: Meta): bytes {
    if Ascii("nexus.status_message") in m then m[Ascii("nexus.status_message")] else []
  }

  /** Client and server together: when the server answers a call with the frame it makes
      from the handler's response, the caller gets that response, its status, or
      kResourceExhausted when it did not fit; and the connection is always kept. */
  lemma {:induction false} CallReturnsHandlerResponse(id: u64, r: Response)
    ensures var reply, fits := FrameBytes(ResponseFrameOf(id, r)), Encodable(WithStatus(r.metadata, r.status), r.body);
            && OneFrame(reply)
            && Interpret(reply, id).Some? && Interpret(reply, id).value.1
            && match Interpret(reply, id).value.0
               case Success(got) =>
                 fits && r.status.code == Ok && got.body == r.body
                 && forall k :: k in r.metadata && k != STATUS_CODE_KEY && k != STATUS_MESSAGE_KEY ==>
                      k in got.metadata && got.metadata[k] == r.metadata[k]
               case Failure(status) =>
                 status.code == (if fits then r.status.code else ResourceExhausted) && status.code != Ok
  {
    var f := ResponseFrameOf(id, r);
    ResponseEndToEnd(id, r, []);
    FrameHeaderReads(f, []);
    hide W.HeaderBytes, W.ReadHeader, W.ValidateHeader, FrameBytes, ParseFrame, DecodeStatus,
         ResponseFrameOf, WithStatus;
    assert FrameBytes(f) + [] == FrameBytes(f);
  }
}
