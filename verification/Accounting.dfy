/**
 * The server's counters over whole runs. One goroutine accepts control connections,
 * asks the limiter and counts; every connection it admits and every proxy handler is a
 * goroutine of its own. Each atomic add is a step, and the steps of all goroutines
 * interleave freely.
 */
module Accounting {
  /** How many elements of a run are in one of the given places. */
  function Count<T(!new)>(s: seq<T>, p: T -> bool): nat {
    if s == [] then 0 else (if p(s[0]) then 1 else 0) + Count(s[1..], p)
  }

  lemma {:induction false} CountUpdate<T(!new)>(s: seq<T>, p: T -> bool, i: nat, x: T)
    requires i < |s|
    ensures Count(s[i := x], p) == Count(s, p) - (if p(s[i]) then 1 else 0) + (if p(x) then 1 else 0)
  {
    if i > 0 {
      assert s[i := x][1..] == s[1..][i - 1 := x];
      CountUpdate(s[1..], p, i - 1, x);
    } else {
      assert s[i := x][1..] == s[1..];
    }
  }

  lemma {:induction false} CountAppend<T(!new)>(s: seq<T>, p: T -> bool, x: T)
    ensures Count(s + [x], p) == Count(s, p) + if p(x) then 1 else 0
  {
    if s == [] {
      assert ([x])[1..] == [];
    } else {
      assert (s + [x])[1..] == s[1..] + [x];
      CountAppend(s[1..], p, x);
    }
  }

  /** Three disjoint, exhaustive places split the whole. */
  lemma {:induction false} CountSplit<T(!new)>(s: seq<T>, p: T -> bool, q: T -> bool, r: T -> bool)
    requires forall x :: (p(x) && !q(x) && !r(x)) || (!p(x) && q(x) && !r(x)) || (!p(x) && !q(x) && r(x))
    ensures |s| == Count(s, p) + Count(s, q) + Count(s, r)
  {
    if s != [] {
      CountSplit(s[1..], p, q, r);
    }
  }

  /** Elements that correspond one to one are as many. */
  lemma {:induction false} CountAlike<S(!new), T(!new)>(a: seq<S>, p: S -> bool, b: seq<T>, q: T -> bool)
    requires |a| == |b| && forall i :: 0 <= i < |a| ==> (p(a[i]) <==> q(b[i]))
    ensures Count(a, p) == Count(b, q)
  {
    if a != [] {
      assert forall i :: 0 <= i < |a[1..]| ==> a[1..][i] == a[i + 1] && b[1..][i] == b[i + 1];
      CountAlike(a[1..], p, b[1..], q);
    }
  }

  // ----- control connections ---------------------------------------------------------

  const WRAP64 := 0x1_0000_0000_0000_0000

  /** A control connection: accepted, past the limiter one way or the other, being handled, failed
      authentication, and over in one of four ways. */
  datatype Pc = Fresh | Denied | Admitted | Handling | Unverified | Limited | Rejected | NoSession | Enrolled

  datatype State = State(conns: seq<Pc>, totalConnections: int, authFailures: int)

  const INITIAL := State([], 0, 0)

  /** A handled connection gets no session, fails authentication, or is enrolled. */
  datatype Outcome = SessionFails | AuthenticationFails | Succeeds

  datatype Step = Accept | Advance(i: nat, allow: bool, outcome: Outcome)

  function After(pc: Pc, allow: bool, outcome: Outcome): Pc {
    match pc
    case Fresh => if allow then Admitted else Denied
    case Denied => Limited
    case Admitted => Handling
    case Handling =>
      (match outcome
       case SessionFails => NoSession
       case AuthenticationFails => Unverified
       case Succeeds => Enrolled)
    case Unverified => Rejected
    case _ => pc
  }

  /** The accept loop is done with a connection once it is counted, one way or the other. */
  predicate Pending(pc: Pc) {
    pc.Fresh? || pc.Denied? || pc.Admitted?
  }

  /** The accept loop is back at its head. */
  predicate AtHead(s: State) {
    s.conns == [] || !Pending(s.conns[|s.conns| - 1])
  }

  function Next(s: State, step: Step): State {
    match step
    case Accept => if AtHead(s) then s.(conns := s.conns + [Fresh]) else s
    case Advance(i, allow, outcome) =>
      if i >= |s.conns| then s
      else
        var pc := s.conns[i];
        State(s.conns[i := After(pc, allow, outcome)],
              if pc.Admitted? then (s.totalConnections + 1) % WRAP64 else s.totalConnections,
              if pc.Denied? || pc.Unverified? then (s.authFailures + 1) % WRAP64 else s.authFailures)
  }

  function Exec(steps: seq<Step>): State {
    if steps == [] then INITIAL else Next(Exec(steps[..|steps| - 1]), steps[|steps| - 1])
  }

  /** Past totalConnections++. */
  function Total(): Pc -> bool {
    (pc: Pc) => pc.Handling? || pc.Unverified? || pc.Rejected? || pc.NoSession? || pc.Enrolled?
  }

  function RateLimited(): Pc -> bool {
    (pc: Pc) => pc.Limited?
  }

  function RejectedHandshake(): Pc -> bool {
    (pc: Pc) => pc.Rejected?
  }

  /** Accepted and not yet counted. */
  function InTransit(): Pc -> bool {
    (pc: Pc) => Pending(pc)
  }

  /** Only the connection accepted last can be on its way to its counter. */
  ghost predicate OneAtATime(s: State) {
    forall i :: 0 <= i < |s.conns| - 1 ==> !Pending(s.conns[i])
  }

  ghost predicate Counted(s: State) {
    && s.totalConnections == Count(s.conns, Total()) % WRAP64
    && s.authFailures == (Count(s.conns, RateLimited()) + Count(s.conns, RejectedHandshake())) % WRAP64
  }

  ghost predicate Inv(s: State) {
    OneAtATime(s) && Counted(s)
  }

  lemma WrapNext(n: nat)
    ensures (n % WRAP64 + 1) % WRAP64 == (n + 1) % WRAP64
  {
  }

  lemma StepKeepsOrder(s: State, step: Step)
    requires OneAtATime(s)
    ensures OneAtATime(Next(s, step))
  {
  }

  lemma AcceptKeepsCount(s: State)
    requires Counted(s)
    ensures Counted(s.(conns := s.conns + [Fresh]))
  {
    CountAppend(s.conns, Total(), Fresh);
    CountAppend(s.conns, RateLimited(), Fresh);
    CountAppend(s.conns, RejectedHandshake(), Fresh);
  }

  lemma AdvanceKeepsCount(s: State, i: nat, allow: bool, outcome: Outcome)
    requires Counted(s) && i < |s.conns|
    ensures Counted(Next(s, Advance(i, allow, outcome)))
  {
    WrapNext(Count(s.conns, Total()));
    WrapNext(Count(s.conns, RateLimited()) + Count(s.conns, RejectedHandshake()));
    var pc' := After(s.conns[i], allow, outcome);
    CountUpdate(s.conns, Total(), i, pc');
    CountUpdate(s.conns, RateLimited(), i, pc');
    CountUpdate(s.conns, RejectedHandshake(), i, pc');
  }

  lemma StepKeepsCount(s: State, step: Step)
    requires Counted(s)
    ensures Counted(Next(s, step))
  {
    match step
    case Accept => AcceptKeepsCount(s);
    case Advance(i, allow, outcome) =>
      if i < |s.conns| {
        AdvanceKeepsCount(s, i, allow, outcome);
      }
  }

  lemma {:induction false} EveryRun(steps: seq<Step>)
    ensures Inv(Exec(steps))
  {
    if steps != [] {
      EveryRun(steps[..|steps| - 1]);
      StepKeepsOrder(Exec(steps[..|steps| - 1]), steps[|steps| - 1]);
      StepKeepsCount(Exec(steps[..|steps| - 1]), steps[|steps| - 1]);
    }
  }

  lemma NoWrap(n: nat)
    requires n < WRAP64
    ensures n % WRAP64 == n
  {
  }

  lemma EveryPlace(conns: seq<Pc>)
    ensures |conns| == Count(conns, Total()) + Count(conns, RateLimited()) + Count(conns, InTransit())
  {
    CountSplit(conns, Total(), RateLimited(), InTransit());
  }

  lemma {:induction false} RejectedAreCounted(conns: seq<Pc>)
    ensures Count(conns, RejectedHandshake()) <= Count(conns, Total())
  {
    if conns != [] {
      RejectedAreCounted(conns[1..]);
    }
  }

  lemma {:induction false} NoneInTransit(conns: seq<Pc>)
    requires forall i :: 0 <= i < |conns| ==> !Pending(conns[i])
    ensures Count(conns, InTransit()) == 0
  {
    if conns != [] {
      NoneInTransit(conns[1..]);
    }
  }

  /** At most one connection is in transit, and none when the accept loop is at its head. */
  lemma TransitIs(s: State)
    requires OneAtATime(s)
    ensures Count(s.conns, InTransit()) == if AtHead(s) then 0 else 1
  {
    if s.conns == [] {
      NoneInTransit(s.conns);
    } else {
      var n := |s.conns| - 1;
      NoneInTransit(s.conns[..n]);
      CountAppend(s.conns[..n], InTransit(), s.conns[n]);
      assert s.conns[..n] + [s.conns[n]] == s.conns;
    }
  }

  lemma InvAddsUp(s: State)
    requires Inv(s) && |s.conns| < WRAP64
    ensures |s.conns| == s.totalConnections + Count(s.conns, RateLimited()) + if AtHead(s) then 0 else 1
    ensures s.authFailures == Count(s.conns, RateLimited()) + Count(s.conns, RejectedHandshake()) <= |s.conns|
  {
    EveryPlace(s.conns);
    TransitIs(s);
    RejectedAreCounted(s.conns);
    NoWrap(Count(s.conns, Total()));
    NoWrap(Count(s.conns, RateLimited()) + Count(s.conns, RejectedHandshake()));
  }

  /** Whenever the accept loop is at its head, the accepted connections are exactly those counted and those
      rate-limited; in between they are one more. Failures are rate-limited plus rejected handshakes and never
      exceed accepted connections. The counters equal these numbers while they fit 64 bits. */
  lemma ConnectionsAddUp(steps: seq<Step>)
    ensures var s := Exec(steps);
      var limited, rejected := Count(s.conns, RateLimited()), Count(s.conns, RejectedHandshake());
      |s.conns| < 0x1_0000_0000_0000_0000 ==>
        && |s.conns| == s.totalConnections + limited + (if AtHead(s) then 0 else 1)
        && s.authFailures == limited + rejected <= |s.conns|
  {
    EveryRun(steps);
    if |Exec(steps).conns| < WRAP64 {
      InvAddsUp(Exec(steps));
    }
  }

  // ----- what the counters count, by what happened to each connection ------------------

  /** What one step of a connection hears: the limiter's answer at its first, what becomes of it at its third. */
  datatype Answer = Answer(allow: bool, outcome: Outcome)

  /** The steps of every connection accepted so far. The next is accepted once the last has taken two: past the
      limiter and past its counter. */
  function Histories(steps: seq<Step>): seq<seq<Answer>> {
    if steps == [] then []
    else
      var n := |steps| - 1;
      var before := Histories(steps[..n]);
      match steps[n]
      case Accept => if before == [] || |before[|before| - 1]| >= 2 then before + [[]] else before
      case Advance(i, allow, outcome) =>
        if i < |before| then before[i := before[i] + [Answer(allow, outcome)]] else before
  }

  function Place(history: seq<Answer>): Pc {
    if history == [] then Fresh
    else
      var n := |history| - 1;
      After(Place(history[..n]), history[n].allow, history[n].outcome)
  }

  function LimiterAdmitted(): seq<Answer> -> bool {
    (h: seq<Answer>) => |h| >= 2 && h[0].allow
  }

  function LimiterDenied(): seq<Answer> -> bool {
    (h: seq<Answer>) => |h| >= 2 && !h[0].allow
  }

  function FailedAuthentication(): seq<Answer> -> bool {
    (h: seq<Answer>) => |h| >= 4 && h[0].allow && h[2].outcome == AuthenticationFails
  }

  /** A connection's place by its history. */
  lemma {:induction false} PlaceIs(h: seq<Answer>)
    ensures |h| == 0 ==> Place(h) == Fresh
    ensures |h| == 1 ==> Place(h) == if h[0].allow then Admitted else Denied
    ensures |h| >= 2 && !h[0].allow ==> Place(h) == Limited
    ensures |h| == 2 && h[0].allow ==> Place(h) == Handling
    ensures |h| >= 3 && h[0].allow ==> match h[2].outcome
      case SessionFails => Place(h) == NoSession
      case AuthenticationFails => Place(h) == if |h| == 3 then Unverified else Rejected
      case Succeeds => Place(h) == Enrolled
  {
    if h != [] {
      PlaceIs(h[..|h| - 1]);
    }
  }

  lemma PlaceCounts(h: seq<Answer>)
    ensures Pending(Place(h)) <==> |h| < 2
    ensures Total()(Place(h)) <==> LimiterAdmitted()(h)
    ensures RateLimited()(Place(h)) <==> LimiterDenied()(h)
    ensures RejectedHandshake()(Place(h)) <==> FailedAuthentication()(h)
  {
    PlaceIs(h);
  }

  ghost predicate Placed(conns: seq<Pc>, histories: seq<seq<Answer>>) {
    |conns| == |histories| && forall i :: 0 <= i < |conns| ==> conns[i] == Place(histories[i])
  }

  lemma {:induction false} ConnectionsPlaced(steps: seq<Step>)
    ensures Placed(Exec(steps).conns, Histories(steps))
  {
    if steps != [] {
      var n := |steps| - 1;
      var before := Histories(steps[..n]);
      ConnectionsPlaced(steps[..n]);
      match steps[n]
      case Accept =>
        if before != [] {
          PlaceCounts(before[|before| - 1]);
        }
      case Advance(i, allow, outcome) =>
        if i < |before| {
          var h := before[i] + [Answer(allow, outcome)];
          assert h[..|h| - 1] == before[i];
        }
    }
  }

  lemma CountPlaced(conns: seq<Pc>, histories: seq<seq<Answer>>)
    requires Placed(conns, histories)
    ensures Count(conns, Total()) == Count(histories, LimiterAdmitted())
    ensures Count(conns, RateLimited()) == Count(histories, LimiterDenied())
    ensures Count(conns, RejectedHandshake()) == Count(histories, FailedAuthentication())
  {
    forall i | 0 <= i < |conns|
      ensures Total()(conns[i]) <==> LimiterAdmitted()(histories[i])
      ensures RateLimited()(conns[i]) <==> LimiterDenied()(histories[i])
      ensures RejectedHandshake()(conns[i]) <==> FailedAuthentication()(histories[i])
    {
      PlaceCounts(histories[i]);
    }
    CountAlike(conns, Total(), histories, LimiterAdmitted());
    CountAlike(conns, RateLimited(), histories, LimiterDenied());
    CountAlike(conns, RejectedHandshake(), histories, FailedAuthentication());
  }

  /** In every interleaving totalConnections is the number of connections that the limiter admitted, and authFailures
      the number of those it denied and of those whose authentication failed, as soon as the step that counts each
      has been taken. A connection that gets no session is not a failure. */
  lemma CountersExact(steps: seq<Step>)
    ensures var s, histories := Exec(steps), Histories(steps);
      |s.conns| == |histories| && (|histories| < 0x1_0000_0000_0000_0000 ==>
        && s.totalConnections == Count(histories, LimiterAdmitted())
        && s.authFailures == Count(histories, LimiterDenied()) + Count(histories, FailedAuthentication()))
  {
    var s := Exec(steps);
    EveryRun(steps);
    ConnectionsPlaced(steps);
    CountPlaced(s.conns, Histories(steps));
    if |s.conns| < WRAP64 {
      InvAddsUp(s);
      EveryPlace(s.conns);
      NoWrap(Count(s.conns, Total()));
    }
  }
}

/** A session's ActiveStreams and the proxy handlers that count in it. */
module StreamAccounting {
  import opened Accounting

  const WRAP32 := 0x1_0000_0000

  /** Entered: before the closed-session check. Opening, Sending, Copying: between the increment and
      the deferred decrement. Closing: after the decrement, before the user connection is closed. */
  datatype Place = Entered | Opening | Sending | Copying | Closing | Gone

  datatype Handler = Handler(session: nat, place: Place)

  /** active[k] is the counter of session k, as an unsigned 32-bit pattern. */
  datatype Streams = Streams(handlers: seq<Handler>, active: seq<int>)

  /** Start a handler of a session; a handler moves on, with success or failure of what it waits for. */
  datatype Move = Start(session: nat) | Go(h: nat, ok: bool)

  predicate Counting(place: Place) {
    place.Opening? || place.Sending? || place.Copying?
  }

  /** Every exit path: a closed session leaves before the increment; a failed OpenStream, a failed header
      write and the end of copying all run the deferred decrement. */
  function After(place: Place, ok: bool): Place {
    match place
    case Entered => if ok then Opening else Gone
    case Opening => if ok then Sending else Closing
    case Sending => if ok then Copying else Closing
    case Copying => Closing
    case Closing => Gone
    case Gone => Gone
  }

  function Next(s: Streams, move: Move): Streams {
    match move
    case Start(k) => if k < |s.active| then s.(handlers := s.handlers + [Handler(k, Entered)]) else s
    case Go(h, ok) =>
      if h >= |s.handlers| || s.handlers[h].session >= |s.active| then s
      else
        var k, from := s.handlers[h].session, s.handlers[h].place;
        var to := After(from, ok);
        var delta := (if Counting(to) then 1 else 0) - (if Counting(from) then 1 else 0);
        Streams(s.handlers[h := Handler(k, to)], s.active[k := (s.active[k] + delta) % WRAP32])
  }

  function Exec(sessions: nat, moves: seq<Move>): Streams {
    if moves == [] then Streams([], seq(sessions, _ => 0))
    else Next(Exec(sessions, moves[..|moves| - 1]), moves[|moves| - 1])
  }

  function CountsIn(k: nat): Handler -> bool {
    (h: Handler) => h.session == k && Counting(h.place)
  }

  lemma WrapDelta(n: int, delta: int)
    ensures (n % WRAP32 + delta) % WRAP32 == (n + delta) % WRAP32
  {
  }

  lemma MoveKeepsCount(s: Streams, move: Move, k: nat)
    requires k < |s.active| && s.active[k] == Count(s.handlers, CountsIn(k)) % WRAP32
    ensures |Next(s, move).active| == |s.active|
    ensures Next(s, move).active[k] == Count(Next(s, move).handlers, CountsIn(k)) % WRAP32
  {
    match move
    case Start(session) => CountAppend(s.handlers, CountsIn(k), Handler(session, Entered));
    case Go(h, ok) =>
      if h < |s.handlers| {
        var handler := s.handlers[h];
        var to := After(handler.place, ok);
        CountUpdate(s.handlers, CountsIn(k), h, Handler(handler.session, to));
        var delta := (if Counting(to) then 1 else 0) - (if Counting(handler.place) then 1 else 0);
        WrapDelta(Count(s.handlers, CountsIn(k)), delta);
      }
  }

  /** In every interleaving each session's counter is the number of its handlers between increment and
      deferred decrement, as a 32-bit number. */
  lemma {:induction false} ActiveStreamsExact(sessions: nat, moves: seq<Move>, k: nat)
    requires k < sessions
    ensures var s := Exec(sessions, moves);
      |s.active| == sessions && s.active[k] == Count(s.handlers, CountsIn(k)) % WRAP32
  {
    if moves != [] {
      ActiveStreamsExact(sessions, moves[..|moves| - 1], k);
      MoveKeepsCount(Exec(sessions, moves[..|moves| - 1]), moves[|moves| - 1], k);
    }
  }

  // ----- which handlers count, by what each has been through -----------------------------

  /** A handler's session and what each of its moves has heard: that the session is open, that OpenStream and the
      header write succeeded, that copying is over, that the user connection is closed. */
  datatype History = History(session: nat, answers: seq<bool>)

  function Histories(sessions: nat, moves: seq<Move>): seq<History> {
    if moves == [] then []
    else
      var n := |moves| - 1;
      var before := Histories(sessions, moves[..n]);
      match moves[n]
      case Start(k) => if k < sessions then before + [History(k, [])] else before
      case Go(h, ok) =>
        if h < |before| then before[h := History(before[h].session, before[h].answers + [ok])] else before
  }

  function PlaceOf(answers: seq<bool>): Place {
    if answers == [] then Entered
    else After(PlaceOf(answers[..|answers| - 1]), answers[|answers| - 1])
  }

  /** A handler counts from the answer that its session is open until an answer of no, or until copying is over. */
  predicate InFlight(answers: seq<bool>) {
    1 <= |answers| <= 3 && forall i :: 0 <= i < |answers| ==> answers[i]
  }

  function InFlightIn(k: nat): History -> bool {
    (h: History) => h.session == k && InFlight(h.answers)
  }

  lemma {:induction false} PlaceOfIs(a: seq<bool>)
    ensures |a| == 0 ==> PlaceOf(a) == Entered
    ensures |a| == 1 && InFlight(a) ==> PlaceOf(a) == Opening
    ensures |a| == 2 && InFlight(a) ==> PlaceOf(a) == Sending
    ensures |a| == 3 && InFlight(a) ==> PlaceOf(a) == Copying
    ensures |a| > 0 && !InFlight(a) ==> PlaceOf(a).Closing? || PlaceOf(a).Gone?
  {
    if a != [] {
      var init := a[..|a| - 1];
      PlaceOfIs(init);
      assert InFlight(a) ==> init == [] || InFlight(init);
    }
  }

  ghost predicate Placed(handlers: seq<Handler>, histories: seq<History>) {
    && |handlers| == |histories|
    && forall h :: 0 <= h < |handlers| ==>
         handlers[h].session == histories[h].session && handlers[h].place == PlaceOf(histories[h].answers)
  }

  lemma {:induction false} HandlersPlaced(sessions: nat, moves: seq<Move>)
    ensures |Exec(sessions, moves).active| == sessions
    ensures Placed(Exec(sessions, moves).handlers, Histories(sessions, moves))
    ensures forall h :: 0 <= h < |Exec(sessions, moves).handlers| ==>
      Exec(sessions, moves).handlers[h].session < sessions
  {
    if moves != [] {
      var n := |moves| - 1;
      HandlersPlaced(sessions, moves[..n]);
      var before := Histories(sessions, moves[..n]);
      match moves[n]
      case Start(_) =>
      case Go(h, ok) =>
        if h < |before| {
          var a := before[h].answers + [ok];
          assert a[..|a| - 1] == before[h].answers;
        }
    }
  }

  /** In every interleaving each session's counter is the number of its handlers that found it open and have since
      neither failed to open a stream or to write the header nor finished copying, as a 32-bit number. */
  lemma ActiveStreamsByHistory(sessions: nat, moves: seq<Move>, k: nat)
    requires k < sessions
    ensures |Exec(sessions, moves).active| == sessions
    ensures Exec(sessions, moves).active[k] == Count(Histories(sessions, moves), InFlightIn(k)) % 0x1_0000_0000
  {
    var handlers, histories := Exec(sessions, moves).handlers, Histories(sessions, moves);
    ActiveStreamsExact(sessions, moves, k);
    HandlersPlaced(sessions, moves);
    forall h | 0 <= h < |handlers| ensures CountsIn(k)(handlers[h]) <==> InFlightIn(k)(histories[h]) {
      PlaceOfIs(histories[h].answers);
    }
    CountAlike(handlers, CountsIn(k), histories, InFlightIn(k));
  }
}
