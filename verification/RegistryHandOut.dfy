/**
 * When a dynamic port can be handed out twice. A port is released by the monitor and by
 * an accept loop, and neither asks who uses it now; so whether an allocation is safe
 * depends on who is still going to release the port that it hands out.
 */
module RegistryHandOut {
  import opened PortPool
  import opened Registry
  import opened RegistryRuns
  import opened RegistryPorts

  // ----- who may still release a port -----------------------------------------------------

  /** An accept loop still serves port p. */
  ghost predicate Served(c: Core, p: int) {
    exists s :: 0 <= s < |c.sockets| && c.sockets[s].serving && c.sockets[s].port == p
  }

  ghost predicate Releasable(st: State, p: int) {
    GiveBack(p) in st.work || Served(st.core, p) || exists sid :: Lists(st.core, sid, p)
  }

  /** Port p is configured as a fixed port of some client. */
  ghost predicate FixedPort(cfg: Config, p: int) {
    p != 0 && exists i :: 0 <= i < |cfg.clients| && p in cfg.clients[i].ports
  }

  /** Goroutine b has been handed its port and not bound it yet, and no other has been handed that port. */
  ghost predicate HandedOut(st: State, b: Binder) {
    && b in st.pending && b.dynamic && st.pending[b] == 1 && b.port in st.core.used
    && forall other :: other in st.pending && other.dynamic && other.port == b.port ==> other == b
  }

  // ----- where requests and goroutines come from ---------------------------------------------

  lemma {:induction false} RequestsExact(clients: seq<ClientConfig>, id: ClientId, p: int)
    ensures p in Requests(clients, id) <==>
      exists i :: 0 <= i < |clients| && clients[i].id == id && p in clients[i].ports
  {
    if clients != [] {
      RequestsExact(clients[1..], id, p);
      if i :| 0 <= i < |clients| && clients[i].id == id && p in clients[i].ports {
        if i > 0 {
          assert clients[1..][i - 1] == clients[i];
        }
      }
      if i :| 0 <= i < |clients[1..]| && clients[1..][i].id == id && p in clients[1..][i].ports {
        assert clients[i + 1] == clients[1..][i];
      }
    }
  }

  /** What a session still has to set up is configured for its client. */
  ghost predicate SetupConfigured(cfg: Config, c: Core) {
    forall sid, p :: 0 <= sid < |c.sessions| && p in c.sessions[sid].todo ==>
      p in Requests(cfg.clients, c.sessions[sid].client)
  }

  /** What a goroutine was spawned for is configured for its session's client. */
  ghost predicate Configured(cfg: Config, c: Core, b: Binder) {
    && b.sid < |c.sessions| && (!b.dynamic ==> b.port != 0)
    && (if b.dynamic then 0 else b.port) in Requests(cfg.clients, c.sessions[b.sid].client)
  }

  /** Open listeners are served, and each has a port of its own. */
  ghost predicate OpenServed(c: Core) {
    && (forall s :: 0 <= s < |c.sockets| && c.sockets[s].open ==> c.sockets[s].serving)
    && (forall s, t :: 0 <= s < t < |c.sockets| && c.sockets[s].open && c.sockets[t].open ==>
          c.sockets[s].port != c.sockets[t].port)
  }

  ghost predicate Origins(cfg: Config, st: State) {
    && SetupConfigured(cfg, st.core) && OpenServed(st.core)
    && forall b :: b in st.pending ==> Configured(cfg, st.core, b)
  }

  lemma SetupOrigins(cfg: Config, st: State, sid: nat, bindable: set<int>)
    requires Origins(cfg, st) && sid < |st.core.sessions| && st.core.sessions[sid].todo != []
    ensures Origins(cfg, SetupTurn(cfg.range, st, sid, bindable))
  {
    assert st.core.sessions[sid].todo[0] in st.core.sessions[sid].todo;
  }

  lemma ListenOrigins(cfg: Config, st: State, b: Binder, ok: bool)
    requires Origins(cfg, st) && Enabled(st, Listen(b, ok))
    ensures Origins(cfg, Next(cfg, st, Listen(b, ok)))
  {
    OpenPortsExact(st.core.sockets, b.port);
    assert forall other :: other in st.pending - multiset{b} ==> other in st.pending;
  }

  lemma RegisterAdds(c: Core, id: ClientId, todo: seq<int>, sid: nat)
    requires sid <= |c.sessions|
    ensures var c' := Register(c, id, todo);
      && c'.sockets == c.sockets && |c'.sessions| == |c.sessions| + 1
      && c'.sessions[sid].client == (if sid < |c.sessions| then c.sessions[sid].client else id)
      && c'.sessions[sid].todo == (if sid < |c.sessions| then c.sessions[sid].todo else todo)
  {
  }

  lemma ArriveOrigins(cfg: Config, st: State, id: ClientId)
    requires Origins(cfg, st)
    ensures Origins(cfg, st.(core := Register(st.core, id, Requests(cfg.clients, id))))
  {
    var todo := Requests(cfg.clients, id);
    var c' := Register(st.core, id, todo);
    RegisterAdds(st.core, id, todo, |st.core.sessions|);
    forall sid, p | 0 <= sid < |c'.sessions| && p in c'.sessions[sid].todo
      ensures p in Requests(cfg.clients, c'.sessions[sid].client)
    {
      RegisterAdds(st.core, id, todo, sid);
    }
    forall b | b in st.pending ensures Configured(cfg, c', b) {
      RegisterAdds(st.core, id, todo, b.sid);
    }
  }

  lemma ProceedOrigins(cfg: Config, st: State, w: Work)
    requires Origins(cfg, st)
    ensures Origins(cfg, st.(core := Do(st.core, w)))
  {
  }

  lemma StepOrigins(cfg: Config, st: State, step: Step)
    requires Ok(cfg.range, st) && Origins(cfg, st)
    ensures Origins(cfg, Next(cfg, st, step))
  {
    if Enabled(st, step) {
      match step
      case Arrive(id) => ArriveOrigins(cfg, st, id);
      case Setup(sid, bindable) => SetupOrigins(cfg, st, sid, bindable);
      case Listen(b, ok) => ListenOrigins(cfg, st, b, ok);
      case Proceed => ProceedOrigins(cfg, st, st.work[0]);
      case _ =>
    }
  }

  lemma {:induction false} RunOrigins(cfg: Config, steps: seq<Step>)
    ensures Ok(cfg.range, Exec(cfg, steps)) && Origins(cfg, Exec(cfg, steps))
  {
    RunOk(cfg, steps);
    if steps != [] {
      RunOrigins(cfg, steps[..|steps| - 1]);
      StepOrigins(cfg, Exec(cfg, steps[..|steps| - 1]), steps[|steps| - 1]);
    }
  }

  lemma ConfiguredIsFixed(cfg: Config, id: ClientId, p: int)
    requires p in Requests(cfg.clients, id) && p != 0
    ensures FixedPort(cfg, p)
  {
    RequestsExact(cfg.clients, id, p);
  }

  // ----- a port that nobody is going to release -----------------------------------------------

  /** b's port is safe: handed out once, fixed for nobody, and with no one left to release it. */
  ghost predicate Safe(cfg: Config, st: State, b: Binder) {
    HandedOut(st, b) && !FixedPort(cfg, b.port) && !Releasable(st, b.port)
  }

  /** No step but its bind gives a port to a session that did not list it. */
  lemma ListsStep(cfg: Config, st: State, step: Step, sid: int, p: int)
    requires !(step.Listen? && Enabled(st, step) && step.binder.port == p)
    ensures Lists(Next(cfg, st, step).core, sid, p) ==> Lists(st.core, sid, p)
  {
  }

  lemma NobodyLists(cfg: Config, st: State, step: Step, p: int)
    requires !(step.Listen? && Enabled(st, step) && step.binder.port == p)
    requires forall sid :: !Lists(st.core, sid, p)
    ensures forall sid :: !Lists(Next(cfg, st, step).core, sid, p)
  {
    forall sid ensures !Lists(Next(cfg, st, step).core, sid, p) {
      ListsStep(cfg, st, step, sid, p);
    }
  }

  lemma SafeSetup(cfg: Config, st: State, sid: nat, bindable: set<int>, b: Binder)
    requires Safe(cfg, st, b) && Enabled(st, Setup(sid, bindable))
    ensures Safe(cfg, Next(cfg, st, Setup(sid, bindable)), b)
  {
    NobodyLists(cfg, st, Setup(sid, bindable), b.port);
    match LeastFree(cfg.range, st.core.used, bindable)
    case None =>
    case Some(p) => LeastFreeExact(cfg.range, st.core.used, bindable, p);
  }

  lemma SafeListen(cfg: Config, st: State, other: Binder, ok: bool, b: Binder)
    requires Origins(cfg, st) && Safe(cfg, st, b)
    requires Enabled(st, Listen(other, ok)) && other != b
    ensures Safe(cfg, Next(cfg, st, Listen(other, ok)), b)
  {
    assert Configured(cfg, st.core, other);
    if !other.dynamic && other.port == b.port {
      ConfiguredIsFixed(cfg, st.core.sessions[other.sid].client, b.port);
    }
    assert other.port != b.port;
    NobodyLists(cfg, st, Listen(other, ok), b.port);
  }

  lemma SafeMonitor(cfg: Config, st: State, sid: nat, b: Binder)
    requires Safe(cfg, st, b) && Enabled(st, Monitor(sid))
    ensures Safe(cfg, Next(cfg, st, Monitor(sid)), b)
  {
    assert !Lists(st.core, sid, b.port);
    WorkCovers(st.core.sessions[sid].ports, b.port);
    NobodyLists(cfg, st, Monitor(sid), b.port);
  }

  lemma SafeStep(cfg: Config, st: State, step: Step, b: Binder)
    requires Ok(cfg.range, st) && Origins(cfg, st) && Safe(cfg, st, b)
    requires !(step.Listen? && step.binder == b)
    ensures Safe(cfg, Next(cfg, st, step), b)
  {
    if Enabled(st, step) {
      match step
      case Setup(sid, bindable) => SafeSetup(cfg, st, sid, bindable, b);
      case Listen(other, ok) => SafeListen(cfg, st, other, ok, b);
      case Monitor(sid) => SafeMonitor(cfg, st, sid, b);
      case _ => NobodyLists(cfg, st, step, b.port);
    }
  }

  /** later continues the run, and b does not bind in between. */
  ghost predicate Waits(steps: seq<Step>, later: seq<Step>, b: Binder) {
    && steps <= later
    && forall i :: |steps| <= i < |later| ==> !(later[i].Listen? && later[i].binder == b)
  }

  lemma WaitsUntil(steps: seq<Step>, later: seq<Step>, b: Binder)
    requires Waits(steps, later, b) && |steps| < |later|
    ensures Waits(steps, later[..|later| - 1], b)
    ensures !(later[|later| - 1].Listen? && later[|later| - 1].binder == b)
  {
  }

  lemma {:induction false} SafeRun(cfg: Config, steps: seq<Step>, later: seq<Step>, b: Binder)
    requires Safe(cfg, Exec(cfg, steps), b) && Waits(steps, later, b)
    ensures Safe(cfg, Exec(cfg, later), b)
    decreases |later|
  {
    if |later| == |steps| {
      assert later == steps;
    } else {
      var n := |later| - 1;
      WaitsUntil(steps, later, b);
      SafeRun(cfg, steps, later[..n], b);
      RunOrigins(cfg, later[..n]);
      SafeStep(cfg, Exec(cfg, later[..n]), later[n], b);
    }
  }

  // ----- a run that takes a port away -----------------------------------------------------------

  lemma Snoc(cfg: Config, steps: seq<Step>, step: Step)
    ensures Exec(cfg, steps + [step]) == Next(cfg, Exec(cfg, steps), step)
  {
    assert (steps + [step])[..|steps|] == steps;
  }

  /** What finishing the work under s.mu does not touch; it opens nothing. */
  ghost predicate OnlyCleaned(c: Core, c': Core) {
    && c'.sessions == c.sessions && |c'.sockets| == |c.sockets| && c'.used <= c.used
    && forall s :: 0 <= s < |c.sockets| ==>
         c'.sockets[s].(open := c.sockets[s].open) == c.sockets[s] && (c'.sockets[s].open ==> c.sockets[s].open)
  }

  /** The holder of s.mu finishes. */
  lemma {:induction false} FinishWork(cfg: Config, steps: seq<Step>, b: Binder, p: int) returns (later: seq<Step>)
    ensures Waits(steps, later, b) && Exec(cfg, later).work == []
    ensures Exec(cfg, later).pending == Exec(cfg, steps).pending
    ensures OnlyCleaned(Exec(cfg, steps).core, Exec(cfg, later).core)
    ensures GiveBack(p) in Exec(cfg, steps).work ==> p !in Exec(cfg, later).core.used
    decreases |Exec(cfg, steps).work|
  {
    later := steps;
    var work := Exec(cfg, steps).work;
    if work != [] {
      Snoc(cfg, steps, Proceed);
      assert work == [work[0]] + work[1..];
      later := FinishWork(cfg, steps + [Proceed], b, p);
    }
  }

  /** The state after a turn of the setup loop for which no port is bindable. */
  function TurnInVain(st: State, sid: nat): State
    requires sid < |st.core.sessions| && st.core.sessions[sid].todo != []
  {
    var todo := st.core.sessions[sid].todo;
    st.(core := st.core.(sessions := st.core.sessions[sid := st.core.sessions[sid].(todo := todo[1..])]),
        pending := st.pending + if todo[0] != 0 then multiset{Binder(sid, todo[0], false)} else multiset{})
  }

  lemma SetupInVain(cfg: Config, st: State, sid: nat)
    requires sid < |st.core.sessions| && st.core.sessions[sid].todo != []
    ensures Enabled(st, Setup(sid, {})) && Next(cfg, st, Setup(sid, {})) == TurnInVain(st, sid)
  {
    LeastFreeExact(cfg.range, st.core.used, {}, 0);
  }

  /** A session's setup has run to its end and allocated nothing. */
  ghost predicate SetUp(st: State, sid: nat, st': State)
    requires sid < |st.core.sessions|
  {
    && st'.work == st.work
    && st'.core == st.core.(sessions := st.core.sessions[sid := st.core.sessions[sid].(todo := [])])
    && (forall q :: q in st.core.sessions[sid].todo && q != 0 ==> Binder(sid, q, false) in st'.pending)
    && (forall b :: b in st.pending ==> b in st'.pending)
  }

  lemma SetUpStep(st: State, sid: nat, st': State)
    requires sid < |st.core.sessions| && st.core.sessions[sid].todo != []
    requires SetUp(TurnInVain(st, sid), sid, st')
    ensures SetUp(st, sid, st')
  {
    var todo, turn := st.core.sessions[sid].todo, TurnInVain(st, sid);
    assert todo == [todo[0]] + todo[1..];
    if todo[0] != 0 {
      assert Binder(sid, todo[0], false) in turn.pending;
    }
    forall b | b in st.pending ensures b in st'.pending {
      assert b in turn.pending;
    }
  }

  lemma {:induction false} FinishSetup(cfg: Config, steps: seq<Step>, b: Binder, sid: nat) returns (later: seq<Step>)
    requires sid < |Exec(cfg, steps).core.sessions|
    ensures Waits(steps, later, b) && SetUp(Exec(cfg, steps), sid, Exec(cfg, later))
    decreases |Exec(cfg, steps).core.sessions[sid].todo|
  {
    later := steps;
    var st := Exec(cfg, steps);
    if st.core.sessions[sid].todo == [] {
      assert st.core.sessions[sid].(todo := []) == st.core.sessions[sid];
    } else {
      SetupInVain(cfg, st, sid);
      Snoc(cfg, steps, Setup(sid, {}));
      later := FinishSetup(cfg, steps + [Setup(sid, {})], b, sid);
      SetUpStep(st, sid, Exec(cfg, later));
    }
  }

  /** No listener of c' is open unless it was open in c. */
  ghost predicate OpensNothing(c: Core, c': Core) {
    && |c'.sockets| == |c.sockets|
    && forall s :: 0 <= s < |c.sockets| && c'.sockets[s].open ==>
         c.sockets[s].open && c'.sockets[s].port == c.sockets[s].port
  }

  lemma OpensNothingAt(c: Core, c': Core, p: int)
    requires OpensNothing(c, c') && p !in OpenPorts(c.sockets)
    ensures p !in OpenPorts(c'.sockets)
  {
    OpenPortsExact(c.sockets, p);
    OpenPortsExact(c'.sockets, p);
  }

  /** An accept loop that serves p ends, closes its listener and releases p. */
  lemma ServedIsReleased(cfg: Config, steps: seq<Step>, b: Binder, p: int, s: nat) returns (later: seq<Step>)
    requires var c := Exec(cfg, steps).core; s < |c.sockets| && c.sockets[s].serving && c.sockets[s].port == p
    ensures Waits(steps, later, b) && p !in Exec(cfg, later).core.used
    ensures OpensNothing(Exec(cfg, steps).core, Exec(cfg, later).core) && !Exec(cfg, later).core.sockets[s].open
  {
    RunOk(cfg, steps);
    later := FinishWork(cfg, steps, b, p);
    var owner := Exec(cfg, steps).core.sockets[s].owner;
    Snoc(cfg, later, Drop(owner));
    later := later + [Drop(owner)];
    Snoc(cfg, later, Leave(s));
    later := later + [Leave(s)];
    later := FinishWork(cfg, later, b, p);
  }

  lemma VacatedAt(c: Core, c': Core, p: int, s: nat)
    requires OpenServed(c) && OpensNothing(c, c')
    requires s < |c.sockets| && c.sockets[s].open && c.sockets[s].port == p && !c'.sockets[s].open
    ensures p !in OpenPorts(c'.sockets)
  {
    OpenPortsExact(c'.sockets, p);
  }

  /** A listener that is still open on p, of which there is one at most, is closed. */
  lemma PortIsVacated(cfg: Config, steps: seq<Step>, b: Binder, p: int) returns (later: seq<Step>)
    requires p !in Exec(cfg, steps).core.used
    ensures Waits(steps, later, b) && p !in Exec(cfg, later).core.used && p !in OpenPorts(Exec(cfg, later).core.sockets)
  {
    RunOrigins(cfg, steps);
    var c := Exec(cfg, steps).core;
    later := steps;
    OpenPortsExact(c.sockets, p);
    if s :| 0 <= s < |c.sockets| && c.sockets[s].open && c.sockets[s].port == p {
      later := ServedIsReleased(cfg, steps, b, p, s);
      VacatedAt(c, Exec(cfg, later).core, p, s);
    }
  }

  /** A session that lists p is closed and monitored, which releases it. */
  lemma ListedIsReleased(cfg: Config, steps: seq<Step>, b: Binder, p: int, sid: nat) returns (later: seq<Step>)
    requires Lists(Exec(cfg, steps).core, sid, p)
    ensures Waits(steps, later, b) && p !in Exec(cfg, later).core.used
  {
    later := FinishWork(cfg, steps, b, p);
    later := FinishSetup(cfg, later, b, sid);
    Snoc(cfg, later, Drop(sid));
    later := later + [Drop(sid)];
    Snoc(cfg, later, Monitor(sid));
    WorkCovers(Exec(cfg, later).core.sessions[sid].ports, p);
    later := later + [Monitor(sid)];
    later := FinishWork(cfg, later, b, p);
  }

  lemma ReleasableIsReleased(cfg: Config, steps: seq<Step>, b: Binder, p: int) returns (later: seq<Step>)
    requires Releasable(Exec(cfg, steps), p)
    ensures Waits(steps, later, b) && p !in Exec(cfg, later).core.used
  {
    var c := Exec(cfg, steps).core;
    if GiveBack(p) in Exec(cfg, steps).work {
      later := FinishWork(cfg, steps, b, p);
    } else if Served(c, p) {
      var s :| 0 <= s < |c.sockets| && c.sockets[s].serving && c.sockets[s].port == p;
      later := ServedIsReleased(cfg, steps, b, p, s);
    } else {
      var sid: nat :| Lists(c, sid, p);
      later := ListedIsReleased(cfg, steps, b, p, sid);
    }
  }

  /** A client arrives, with all that is configured for it still to set up. */
  lemma Arrival(cfg: Config, steps: seq<Step>, b: Binder, id: ClientId) returns (later: seq<Step>, sid: nat)
    ensures var st := Exec(cfg, later);
      && Waits(steps, later, b) && st.work == [] && st.core.used <= Exec(cfg, steps).core.used
      && OpensNothing(Exec(cfg, steps).core, st.core)
      && sid < |st.core.sessions| && st.core.sessions[sid] == Session(id, false, [], Requests(cfg.clients, id), false)
  {
    later := FinishWork(cfg, steps, b, 0);
    sid := |Exec(cfg, later).core.sessions|;
    Snoc(cfg, later, Arrive(id));
    later := later + [Arrive(id)];
  }

  /** A goroutine binds its port, unless somebody else serves it already. */
  lemma BindMakesReleasable(cfg: Config, steps: seq<Step>, b: Binder, bind: Binder) returns (later: seq<Step>)
    requires bind in Exec(cfg, steps).pending && Exec(cfg, steps).work == [] && bind != b
    ensures Waits(steps, later, b) && Releasable(Exec(cfg, later), bind.port)
  {
    RunOrigins(cfg, steps);
    var st, p := Exec(cfg, steps), bind.port;
    OpenPortsExact(st.core.sockets, p);
    if p in OpenPorts(st.core.sockets) {
      later := steps;
    } else {
      assert p !in st.core.listeners;
      Snoc(cfg, steps, Listen(bind, true));
      later := steps + [Listen(bind, true)];
      assert Exec(cfg, later).core.sockets[|st.core.sockets|] == Socket(p, bind.sid, true, true);
    }
  }

  /** A client for which p is fixed arrives and binds it. */
  lemma FixedBecomesReleasable(cfg: Config, steps: seq<Step>, b: Binder, p: int) returns (later: seq<Step>)
    requires FixedPort(cfg, p) && b.dynamic
    ensures Waits(steps, later, b) && Releasable(Exec(cfg, later), p)
  {
    var i :| 0 <= i < |cfg.clients| && p in cfg.clients[i].ports;
    var id := cfg.clients[i].id;
    RequestsExact(cfg.clients, id, p);
    var sid: nat;
    later, sid := Arrival(cfg, steps, b, id);
    later := FinishSetup(cfg, later, b, sid);
    later := BindMakesReleasable(cfg, later, b, Binder(sid, p, false));
  }

  /** A session's setup runs up to its next request for a dynamic port. */
  lemma {:induction false} SetupToRequest(cfg: Config, steps: seq<Step>, b: Binder, sid: nat) returns (later: seq<Step>)
    requires sid < |Exec(cfg, steps).core.sessions| && 0 in Exec(cfg, steps).core.sessions[sid].todo
    ensures var st' := Exec(cfg, later);
      && Waits(steps, later, b) && st'.core.used == Exec(cfg, steps).core.used
      && st'.core.sockets == Exec(cfg, steps).core.sockets
      && sid < |st'.core.sessions| && st'.core.sessions[sid].todo != [] && st'.core.sessions[sid].todo[0] == 0
    decreases |Exec(cfg, steps).core.sessions[sid].todo|
  {
    later := steps;
    var todo := Exec(cfg, steps).core.sessions[sid].todo;
    if todo[0] != 0 {
      SetupInVain(cfg, Exec(cfg, steps), sid);
      Snoc(cfg, steps, Setup(sid, {}));
      assert todo == [todo[0]] + todo[1..];
      later := SetupToRequest(cfg, steps + [Setup(sid, {})], b, sid);
    }
  }

  /** A port of the range that is not in use is handed out to the next arrival that asks for one. */
  lemma UnusedIsHandedOut(cfg: Config, steps: seq<Step>, b: Binder, p: int, id: ClientId)
    returns (later: seq<Step>, step: Step)
    requires p !in Exec(cfg, steps).core.used && cfg.range.lo <= p <= cfg.range.hi && 0 in Requests(cfg.clients, id)
    ensures Waits(steps, later, b) && Allocates(cfg, Exec(cfg, later), step, p)
  {
    var sid: nat;
    var vacated := PortIsVacated(cfg, steps, b, p);
    later, sid := Arrival(cfg, vacated, b, id);
    OpensNothingAt(Exec(cfg, vacated).core, Exec(cfg, later).core, p);
    later := SetupToRequest(cfg, later, b, sid);
    step := Setup(sid, {p});
    LeastFreeExact(cfg.range, Exec(cfg, later).core.used, {p}, p);
  }

  // ----- the exact condition -----------------------------------------------------------------------

  /** Some continuation hands out b's port again before b has bound it. */
  ghost predicate HandedOutAgain(cfg: Config, steps: seq<Step>, b: Binder) {
    exists later, step :: Waits(steps, later, b) && Allocates(cfg, Exec(cfg, later), step, b.port)
  }

  lemma SafeIsNot(cfg: Config, steps: seq<Step>, b: Binder)
    requires Safe(cfg, Exec(cfg, steps), b)
    ensures !HandedOutAgain(cfg, steps, b)
  {
    forall later, step | Waits(steps, later, b) ensures !Allocates(cfg, Exec(cfg, later), step, b.port) {
      SafeRun(cfg, steps, later, b);
      if step.Setup? {
        LeastFreeExact(cfg.range, Exec(cfg, later).core.used, step.bindable, b.port);
      }
    }
  }

  lemma UnsafeIs(cfg: Config, steps: seq<Step>, b: Binder)
    requires HandedOut(Exec(cfg, steps), b) && (Releasable(Exec(cfg, steps), b.port) || FixedPort(cfg, b.port))
    ensures HandedOutAgain(cfg, steps, b)
  {
    var p := b.port;
    RunOrigins(cfg, steps);
    assert Configured(cfg, Exec(cfg, steps).core, b);
    var later := steps;
    if !Releasable(Exec(cfg, steps), p) {
      later := FixedBecomesReleasable(cfg, steps, b, p);
    }
    later := ReleasableIsReleased(cfg, later, b, p);
    var step: Step;
    later, step := UnusedIsHandedOut(cfg, later, b, p, Exec(cfg, steps).core.sessions[b.sid].client);
  }

  /**
   * A port that has just been handed out can be handed out again before it is bound exactly when it is
   * some client's fixed port, or an accept loop still serves it, or a session not yet monitored lists it,
   * or its release is under way.
   */
  lemma HandedOutAgainExactly(cfg: Config, steps: seq<Step>, b: Binder)
    requires HandedOut(Exec(cfg, steps), b)
    ensures HandedOutAgain(cfg, steps, b) <==> Releasable(Exec(cfg, steps), b.port) || FixedPort(cfg, b.port)
  {
    if Safe(cfg, Exec(cfg, steps), b) {
      SafeIsNot(cfg, steps, b);
    } else {
      UnsafeIs(cfg, steps, b);
    }
  }

  // ----- whole runs ------------------------------------------------------------------------------------

  /** No port waits for two binds, and every port that waits for one is in use. */
  ghost predicate HandedOutOnce(st: State) {
    forall b :: b in st.pending && b.dynamic ==> HandedOut(st, b)
  }

  ghost predicate AllSafe(cfg: Config, st: State) {
    forall b :: b in st.pending && b.dynamic ==> Safe(cfg, st, b)
  }

  /** An allocation hands out a port that is fixed for nobody and that nobody is still to release. */
  ghost predicate AllocatesSafely(cfg: Config, st: State, step: Step) {
    forall p :: Allocates(cfg, st, step, p) ==> !Releasable(st, p) && !FixedPort(cfg, p)
  }

  ghost function SafePorts(cfg: Config): State -> bool {
    (st: State) => AllSafe(cfg, st)
  }

  ghost function SafeAllocations(cfg: Config): (State, Step) -> bool {
    (st: State, step: Step) => AllocatesSafely(cfg, st, step)
  }

  lemma ReleasersStay(cfg: Config, st: State, step: Step, p: int)
    requires step.Setup?
    ensures Releasable(Next(cfg, st, step), p) <==> Releasable(st, p)
  {
    var c, c' := st.core, Next(cfg, st, step).core;
    assert Served(c', p) <==> Served(c, p);
    assert forall sid :: Lists(c', sid, p) <==> Lists(c, sid, p);
  }

  /** The port that an allocation hands out goes to a new goroutine, the only one that waits for it. */
  lemma AllocationHandsOut(cfg: Config, st: State, step: Step, p: int)
    requires AllSafe(cfg, st) && Allocates(cfg, st, step, p)
    ensures var b, st' := Binder(step.sid, p, true), Next(cfg, st, step);
      && HandedOut(st', b) && (Releasable(st', p) <==> Releasable(st, p))
      && forall other :: other in st'.pending && other != b ==> other in st.pending
  {
    LeastFreeExact(cfg.range, st.core.used, step.bindable, p);
    assert forall other :: other in st.pending && other.dynamic ==> Safe(cfg, st, other) && other.port != p;
    ReleasersStay(cfg, st, step, p);
  }

  /** A goroutine that waits after a step waited before it or has just been handed its port, and is not
      the one that the step runs. */
  lemma WaitedBefore(cfg: Config, st: State, step: Step, b: Binder)
    requires AllSafe(cfg, st) && b in Next(cfg, st, step).pending && b.dynamic
    ensures Allocates(cfg, st, step, b.port) ||
      (b in st.pending && !(step.Listen? && Enabled(st, step) && step.binder == b))
  {
    if b in st.pending {
      assert Safe(cfg, st, b);
    }
  }

  lemma StaysSafe(cfg: Config, st: State, step: Step, b: Binder)
    requires Ok(cfg.range, st) && Origins(cfg, st) && AllSafe(cfg, st)
    requires b in Next(cfg, st, step).pending && b.dynamic
    ensures AllocatesSafely(cfg, st, step) ==> Safe(cfg, Next(cfg, st, step), b)
  {
    WaitedBefore(cfg, st, step, b);
    if b in st.pending && (step.Listen? ==> step.binder != b) {
      SafeStep(cfg, st, step, b);
    } else if Enabled(st, step) && Allocates(cfg, st, step, b.port) {
      AllocationHandsOut(cfg, st, step, b.port);
    }
  }

  lemma StaysAllSafe(cfg: Config, st: State, step: Step)
    requires Ok(cfg.range, st) && Origins(cfg, st) && AllSafe(cfg, st) && AllocatesSafely(cfg, st, step)
    ensures AllSafe(cfg, Next(cfg, st, step))
  {
    var st' := Next(cfg, st, step);
    forall b | b in st'.pending && b.dynamic ensures Safe(cfg, st', b) {
      StaysSafe(cfg, st, step, b);
    }
  }

  lemma LeavesUnsafe(cfg: Config, st: State, step: Step)
    requires AllSafe(cfg, st) && !AllocatesSafely(cfg, st, step)
    ensures !AllSafe(cfg, Next(cfg, st, step))
  {
    var p :| Allocates(cfg, st, step, p) && (Releasable(st, p) || FixedPort(cfg, p));
    AllocationHandsOut(cfg, st, step, p);
    assert !Safe(cfg, Next(cfg, st, step), Binder(step.sid, p, true));
  }

  lemma AllSafeStep(cfg: Config, st: State, step: Step)
    requires Ok(cfg.range, st) && Origins(cfg, st)
    ensures DecidedBy(cfg, st, step, SafePorts(cfg), SafeAllocations(cfg))
  {
    if AllSafe(cfg, st) {
      if AllocatesSafely(cfg, st, step) {
        StaysAllSafe(cfg, st, step);
      } else {
        LeavesUnsafe(cfg, st, step);
      }
    }
  }

  lemma SafeThroughout(cfg: Config, steps: seq<Step>)
    ensures Always(cfg, steps, SafePorts(cfg)) <==> EachStep(cfg, steps, SafeAllocations(cfg))
    ensures EachStep(cfg, steps, SafeAllocations(cfg)) ==> Always(cfg, steps, HandedOutOnce)
  {
    forall i | 0 <= i < |steps|
      ensures DecidedBy(cfg, Exec(cfg, steps[..i]), steps[i], SafePorts(cfg), SafeAllocations(cfg))
    {
      RunOrigins(cfg, steps[..i]);
      AllSafeStep(cfg, Exec(cfg, steps[..i]), steps[i]);
    }
    AlwaysExactly(cfg, steps, SafePorts(cfg), SafeAllocations(cfg));
    assert forall st :: SafePorts(cfg)(st) ==> HandedOutOnce(st);
  }

  /** Nothing that a run has handed out, at any point of it, can be handed out again before it is bound. */
  ghost predicate NothingHandedOutAgain(cfg: Config, steps: seq<Step>) {
    forall i, b :: 0 <= i <= |steps| && HandedOut(Exec(cfg, steps[..i]), b) ==> !HandedOutAgain(cfg, steps[..i], b)
  }

  lemma PrefixSuffices(cfg: Config, steps: seq<Step>, n: nat)
    requires n <= |steps| && !NothingHandedOutAgain(cfg, steps[..n])
    ensures !NothingHandedOutAgain(cfg, steps)
  {
    var i, b :| 0 <= i <= n && HandedOut(Exec(cfg, steps[..n][..i]), b) && HandedOutAgain(cfg, steps[..n][..i], b);
    assert steps[..n][..i] == steps[..i];
  }

  lemma UnsafeEnd(cfg: Config, steps: seq<Step>)
    requires steps != [] && EachStep(cfg, steps[..|steps| - 1], SafeAllocations(cfg))
    requires !EachStep(cfg, steps, SafeAllocations(cfg))
    ensures !NothingHandedOutAgain(cfg, steps)
  {
    var n := |steps| - 1;
    var st := Exec(cfg, steps[..n]);
    SafeThroughout(cfg, steps[..n]);
    EachStepSnoc(cfg, steps, SafeAllocations(cfg));
    assert steps[..n][..n] == steps[..n];
    assert SafePorts(cfg)(st);
    var p :| Allocates(cfg, st, steps[n], p) && (Releasable(st, p) || FixedPort(cfg, p));
    AllocationHandsOut(cfg, st, steps[n], p);
    UnsafeIs(cfg, steps, Binder(steps[n].sid, p, true));
    assert steps[..n + 1] == steps;
  }

  /** The first unsafe allocation of a run hands out a port that can be handed out again. */
  lemma {:induction false} UnsafeRun(cfg: Config, steps: seq<Step>)
    requires !EachStep(cfg, steps, SafeAllocations(cfg))
    ensures !NothingHandedOutAgain(cfg, steps)
  {
    var n := |steps| - 1;
    if EachStep(cfg, steps[..n], SafeAllocations(cfg)) {
      UnsafeEnd(cfg, steps);
    } else {
      UnsafeRun(cfg, steps[..n]);
      PrefixSuffices(cfg, steps, n);
    }
  }

  /**
   * No port that a run hands out can ever be handed out again before it is bound, whatever follows, exactly
   * when every allocation of the run hands out a port that is fixed for nobody and that nobody is still to
   * release; and then no port of the run waits for two binds.
   */
  lemma NoDoubleHandOut(cfg: Config, steps: seq<Step>)
    ensures NothingHandedOutAgain(cfg, steps) <==> EachStep(cfg, steps, SafeAllocations(cfg))
    ensures EachStep(cfg, steps, SafeAllocations(cfg)) ==> Always(cfg, steps, HandedOutOnce)
  {
    SafeThroughout(cfg, steps);
    if EachStep(cfg, steps, SafeAllocations(cfg)) {
      forall i, b | 0 <= i <= |steps| && HandedOut(Exec(cfg, steps[..i]), b)
        ensures !HandedOutAgain(cfg, steps[..i], b)
      {
        assert SafePorts(cfg)(Exec(cfg, steps[..i]));
        SafeIsNot(cfg, steps[..i], b);
      }
    } else {
      UnsafeRun(cfg, steps);
    }
  }
}
