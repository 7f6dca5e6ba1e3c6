/**
 * What whole runs of the registry keep, and exactly when: that every listener will be
 * removed, that a client has one live session, and that no open listener is missing
 * from the table. Each property can be broken by one kind of step only, and a run keeps
 * it throughout exactly when every step of that kind meets a condition on the tables.
 */
module RegistryRuns {
  import opened PortPool
  import opened Registry

  // ----- properties of all prefixes of a run --------------------------------------

  /** The property holds before the run and after each of its steps. */
  ghost predicate Always(cfg: Config, steps: seq<Step>, property: State -> bool) {
    forall i :: 0 <= i <= |steps| ==> property(Exec(cfg, steps[..i]))
  }

  /** Every step meets the condition in the state in which it is taken. */
  ghost predicate EachStep(cfg: Config, steps: seq<Step>, condition: (State, Step) -> bool) {
    forall i :: 0 <= i < |steps| ==> condition(Exec(cfg, steps[..i]), steps[i])
  }

  /** Does this step keep the property exactly when it meets the condition? */
  ghost predicate DecidedBy(cfg: Config, st: State, step: Step,
                            property: State -> bool, condition: (State, Step) -> bool)
  {
    property(st) ==> (property(Next(cfg, st, step)) <==> condition(st, step))
  }

  lemma AlwaysSnoc(cfg: Config, steps: seq<Step>, property: State -> bool)
    requires steps != []
    ensures Always(cfg, steps, property) <==> Always(cfg, steps[..|steps| - 1], property) && property(Exec(cfg, steps))
  {
    var n := |steps| - 1;
    assert steps[..n + 1] == steps;
    forall i | 0 <= i <= n ensures Exec(cfg, steps[..n][..i]) == Exec(cfg, steps[..i]) {
      assert steps[..n][..i] == steps[..i];
    }
    if Always(cfg, steps[..n], property) && property(Exec(cfg, steps)) {
      forall i | 0 <= i <= n + 1 ensures property(Exec(cfg, steps[..i])) {
        if i <= n {
          assert property(Exec(cfg, steps[..n][..i]));
        }
      }
    }
  }

  lemma EachStepSnoc(cfg: Config, steps: seq<Step>, condition: (State, Step) -> bool)
    requires steps != []
    ensures var n := |steps| - 1;
      EachStep(cfg, steps, condition) <==>
        EachStep(cfg, steps[..n], condition) && condition(Exec(cfg, steps[..n]), steps[n])
  {
    var n := |steps| - 1;
    forall i | 0 <= i < n
      ensures condition(Exec(cfg, steps[..n][..i]), steps[..n][i]) <==> condition(Exec(cfg, steps[..i]), steps[i])
    {
      assert steps[..n][..i] == steps[..i];
    }
    if EachStep(cfg, steps[..n], condition) && condition(Exec(cfg, steps[..n]), steps[n]) {
      forall i | 0 <= i < n + 1 ensures condition(Exec(cfg, steps[..i]), steps[i]) {
        if i < n {
          assert condition(Exec(cfg, steps[..n][..i]), steps[..n][i]);
        }
      }
    }
  }

  /** What holds of every step of a run holds of the run. */
  lemma {:induction false} AlwaysExactly(cfg: Config, steps: seq<Step>,
                                         property: State -> bool, condition: (State, Step) -> bool)
    requires property(INITIAL)
    requires forall i :: 0 <= i < |steps| ==> DecidedBy(cfg, Exec(cfg, steps[..i]), steps[i], property, condition)
    ensures Always(cfg, steps, property) <==> EachStep(cfg, steps, condition)
  {
    if steps == [] {
      assert steps[..0] == [];
    } else {
      var n := |steps| - 1;
      var init := steps[..n];
      assert forall i :: 0 <= i < n ==> init[..i] == steps[..i] && init[i] == steps[i];
      AlwaysExactly(cfg, init, property, condition);
      AlwaysSnoc(cfg, steps, property);
      EachStepSnoc(cfg, steps, condition);
      assert DecidedBy(cfg, Exec(cfg, steps[..n]), steps[n], property, condition);
      assert init[..n] == init;
    }
  }

  // ----- sessions only grow --------------------------------------------------------

  /** A monitor's worklist names exactly the ports of its session. */
  lemma {:induction false} WorkCovers(ports: seq<int>, p: int)
    ensures Unlink(p) in CleanupWork(ports) <==> p in ports
    ensures GiveBack(p) in CleanupWork(ports) <==> p in ports
  {
    if ports != [] {
      WorkCovers(ports[1..], p);
    }
  }

  /** Sessions are never forgotten; a step adds to ActivePorts, closes, or monitors at most. */
  ghost predicate Grown(s: Session, s': Session) {
    && s'.client == s.client
    && (forall p :: p in s.ports ==> p in s'.ports)
    && (s.closed ==> s'.closed)
    && (s.monitored ==> s'.monitored)
  }

  lemma SetupGrows(r: Range, st: State, of: nat, bindable: set<int>, sid: nat)
    requires of < |st.core.sessions| && st.core.sessions[of].todo != [] && sid < |st.core.sessions|
    ensures var c' := SetupTurn(r, st, of, bindable).core;
      && |c'.sessions| == |st.core.sessions| && c'.listeners == st.core.listeners && c'.sockets == st.core.sockets
      && Grown(st.core.sessions[sid], c'.sessions[sid])
      && c'.sessions[sid].monitored == st.core.sessions[sid].monitored
  {
  }

  lemma BindGrows(c: Core, of: nat, port: int, ok: bool, sid: nat)
    requires of < |c.sessions| && sid < |c.sessions|
    ensures var c' := Bind(c, of, port, ok);
      && |c'.sessions| == |c.sessions| && Grown(c.sessions[sid], c'.sessions[sid])
      && c'.sessions[sid].monitored == c.sessions[sid].monitored
  {
  }

  lemma SessionsGrow(cfg: Config, st: State, step: Step, sid: nat)
    requires sid < |st.core.sessions|
    ensures var c' := Next(cfg, st, step).core;
      && sid < |c'.sessions| && Grown(st.core.sessions[sid], c'.sessions[sid])
      && (c'.sessions[sid].monitored <==>
            st.core.sessions[sid].monitored || (step == Monitor(sid) && Enabled(st, step)))
  {
    if Enabled(st, step) {
      match step
      case Setup(of, bindable) => SetupGrows(cfg.range, st, of, bindable, sid);
      case Listen(b, ok) => BindGrows(st.core, b.sid, b.port, ok, sid);
      case _ =>
    }
  }

  // ----- binds that come too late ----------------------------------------------------

  ghost predicate Monitored(c: Core, sid: int) {
    0 <= sid < |c.sessions| && c.sessions[sid].monitored
  }

  /** p's listener belongs to a session whose monitor is still to come, or is about to be unlinked. */
  ghost predicate OnTime(st: State, p: int)
    requires Linked(st.core) && p in st.core.listeners
  {
    !Monitored(st.core, st.core.sockets[st.core.listeners[p]].owner) || Unlink(p) in st.work
  }

  /** The goroutine of a configured or allocated port p binds it. */
  ghost predicate Binds(st: State, step: Step, p: int) {
    Enabled(st, step) && step.Listen? && step.binder.port == p && !BindFails(st.core, p, step.ok)
  }

  /** It does so although its session's monitor has run. */
  ghost predicate BindsLate(st: State, step: Step, p: int) {
    Binds(st, step, p) && Monitored(st.core, step.binder.sid)
  }

  /** A step that takes the entry for p out of the table. */
  ghost predicate Unlists(st: State, step: Step, p: int) {
    && Enabled(st, step) && p in st.core.listeners
    && (step.Leave? ==> st.core.sockets[step.socket].port == p)
    && (step.Proceed? ==> st.work[0] == Unlink(p))
    && (step.Leave? || step.Proceed?)
  }

  /** Setting up touches neither table of listeners. */
  lemma SetupKeepsTables(r: Range, st: State, sid: nat, bindable: set<int>)
    requires sid < |st.core.sessions| && st.core.sessions[sid].todo != []
    ensures var c' := SetupTurn(r, st, sid, bindable).core;
      c'.listeners == st.core.listeners && c'.sockets == st.core.sockets && c'.clients == st.core.clients
  {
  }

  lemma ListedListen(c: Core, b: Binder, ok: bool, p: int)
    requires b.sid < |c.sessions|
    ensures var c' := Bind(c, b.sid, b.port, ok);
      && (p in c'.listeners <==> p in c.listeners || (p == b.port && !BindFails(c, p, ok)))
      && (p in c.listeners ==> c'.listeners[p] == c.listeners[p])
  {
  }

  lemma ListedProceed(c: Core, w: Work, p: int)
    ensures var c' := Do(c, w);
      && (p in c'.listeners <==> p in c.listeners && w != Unlink(p))
      && (p in c'.listeners ==> c'.listeners[p] == c.listeners[p])
  {
  }

  lemma ListedStep(cfg: Config, st: State, step: Step, p: int)
    ensures p in Next(cfg, st, step).core.listeners <==>
      Binds(st, step, p) || (p in st.core.listeners && !Unlists(st, step, p))
    ensures p in st.core.listeners && p in Next(cfg, st, step).core.listeners ==>
      Next(cfg, st, step).core.listeners[p] == st.core.listeners[p]
  {
    if Enabled(st, step) {
      match step
      case Setup(sid, bindable) => SetupKeepsTables(cfg.range, st, sid, bindable);
      case Listen(b, ok) => ListedListen(st.core, b, ok, p);
      case Proceed => ListedProceed(st.core, st.work[0], p);
      case _ =>
    }
  }

  lemma OwnersListen(c: Core, b: Binder, ok: bool, s: nat)
    requires b.sid < |c.sessions| && s < |c.sockets|
    ensures var c' := Bind(c, b.sid, b.port, ok); s < |c'.sockets| && c'.sockets[s] == c.sockets[s]
  {
  }

  /** A listener stays with its owner. */
  lemma OwnersStay(cfg: Config, st: State, step: Step, s: nat)
    requires s < |st.core.sockets|
    ensures var c' := Next(cfg, st, step).core;
      && s < |c'.sockets|
      && c'.sockets[s].owner == st.core.sockets[s].owner && c'.sockets[s].port == st.core.sockets[s].port
  {
    if Enabled(st, step) {
      match step
      case Setup(sid, bindable) => SetupKeepsTables(cfg.range, st, sid, bindable);
      case Listen(b, ok) => OwnersListen(st.core, b, ok, s);
      case _ =>
    }
  }

  lemma StaysOnTime(cfg: Config, st: State, step: Step, p: int)
    requires Ok(cfg.range, st) && Ok(cfg.range, Next(cfg, st, step))
    requires p in st.core.listeners && OnTime(st, p) && p in Next(cfg, st, step).core.listeners
    ensures OnTime(Next(cfg, st, step), p)
  {
    var owner := st.core.sockets[st.core.listeners[p]].owner;
    ListedStep(cfg, st, step, p);
    OwnersStay(cfg, st, step, st.core.listeners[p]);
    SessionsGrow(cfg, st, step, owner);
    if Enabled(st, step) {
      if step == Monitor(owner) {
        WorkCovers(st.core.sessions[owner].ports, p);
      } else if step.Proceed? {
        assert st.work == [st.work[0]] + st.work[1..];
      }
    }
  }

  lemma BoundOnTime(cfg: Config, st: State, step: Step, p: int)
    requires Ok(cfg.range, st) && Ok(cfg.range, Next(cfg, st, step)) && Binds(st, step, p)
    ensures p in Next(cfg, st, step).core.listeners
    ensures OnTime(Next(cfg, st, step), p) <==> !BindsLate(st, step, p)
  {
  }

  /** Every listener in the table is on time. */
  ghost predicate Attended(st: State) {
    Linked(st.core) && forall p :: p in st.core.listeners ==> OnTime(st, p)
  }

  /** A bind that succeeds does so before its session's monitor. */
  ghost predicate BindsInTime(st: State, step: Step) {
    step.Listen? && Enabled(st, step) ==>
      BindFails(st.core, step.binder.port, step.ok) || !st.core.sessions[step.binder.sid].monitored
  }

  lemma AttendedAt(cfg: Config, st: State, step: Step, p: int)
    requires Ok(cfg.range, st) && Ok(cfg.range, Next(cfg, st, step)) && Attended(st)
    requires p in Next(cfg, st, step).core.listeners
    ensures OnTime(Next(cfg, st, step), p) <==> !BindsLate(st, step, p)
  {
    ListedStep(cfg, st, step, p);
    if Binds(st, step, p) {
      BoundOnTime(cfg, st, step, p);
    } else {
      StaysOnTime(cfg, st, step, p);
    }
  }

  lemma AttendedStep(cfg: Config, st: State, step: Step)
    requires Ok(cfg.range, st)
    ensures DecidedBy(cfg, st, step, Attended, BindsInTime)
  {
    if Attended(st) {
      var st' := Next(cfg, st, step);
      StepOk(cfg, st, step);
      forall p | p in st'.core.listeners ensures OnTime(st', p) <==> !BindsLate(st, step, p) {
        AttendedAt(cfg, st, step, p);
      }
      if step.Listen? && !BindsInTime(st, step) {
        BoundOnTime(cfg, st, step, step.binder.port);
      }
    }
  }

  /** Every listener stays on time throughout a run exactly when every successful bind precedes its
      session's monitor. */
  lemma AttendedExactly(cfg: Config, steps: seq<Step>)
    ensures Always(cfg, steps, Attended) <==> EachStep(cfg, steps, BindsInTime)
  {
    forall i | 0 <= i < |steps|
      ensures DecidedBy(cfg, Exec(cfg, steps[..i]), steps[i], Attended, BindsInTime)
    {
      RunOk(cfg, steps[..i]);
      AttendedStep(cfg, Exec(cfg, steps[..i]), steps[i]);
    }
    AlwaysExactly(cfg, steps, Attended, BindsInTime);
  }

  ghost predicate EveryMonitored(c: Core) {
    forall sid :: 0 <= sid < |c.sessions| ==> c.sessions[sid].monitored
  }

  ghost predicate BindsLateAt(cfg: Config, steps: seq<Step>, p: int, i: int) {
    0 <= i < |steps| && BindsLate(Exec(cfg, steps[..i]), steps[i], p)
  }

  ghost predicate UnlistsAt(cfg: Config, steps: seq<Step>, p: int, i: int) {
    0 <= i < |steps| && Unlists(Exec(cfg, steps[..i]), steps[i], p)
  }

  /** At step i p is bound late, and its entry is not removed again. */
  ghost predicate LateAt(cfg: Config, steps: seq<Step>, p: int, i: int) {
    BindsLateAt(cfg, steps, p, i) && forall k :: i < k < |steps| ==> !UnlistsAt(cfg, steps, p, k)
  }

  /** A prefix of a run sees the same changes of the table. */
  lemma SameChanges(cfg: Config, steps: seq<Step>, p: int, n: nat, k: int)
    requires k < n <= |steps|
    ensures BindsLateAt(cfg, steps[..n], p, k) <==> BindsLateAt(cfg, steps, p, k)
    ensures UnlistsAt(cfg, steps[..n], p, k) <==> UnlistsAt(cfg, steps, p, k)
  {
    if 0 <= k {
      assert steps[..n][..k] == steps[..k];
    }
  }

  lemma LatePrefix(cfg: Config, steps: seq<Step>, p: int, i: int)
    requires steps != [] && i < |steps| - 1
    ensures var n := |steps| - 1;
      LateAt(cfg, steps, p, i) <==> LateAt(cfg, steps[..n], p, i) && !UnlistsAt(cfg, steps, p, n)
  {
    var n := |steps| - 1;
    SameChanges(cfg, steps, p, n, i);
    forall k | i < k < n ensures UnlistsAt(cfg, steps[..n], p, k) <==> UnlistsAt(cfg, steps, p, k) {
      SameChanges(cfg, steps, p, n, k);
    }
  }

  /** A listener that is not on time was bound late. */
  lemma {:induction false} ListedMeans(cfg: Config, steps: seq<Step>, p: int)
    requires Linked(Exec(cfg, steps).core) && p in Exec(cfg, steps).core.listeners && !OnTime(Exec(cfg, steps), p)
    ensures exists i :: LateAt(cfg, steps, p, i)
  {
    var n := |steps| - 1;
    var st := Exec(cfg, steps[..n]);
    RunOk(cfg, steps[..n]);
    StepOk(cfg, st, steps[n]);
    ListedStep(cfg, st, steps[n], p);
    if Binds(st, steps[n], p) {
      BoundOnTime(cfg, st, steps[n], p);
      assert LateAt(cfg, steps, p, n);
    } else {
      if OnTime(st, p) {
        StaysOnTime(cfg, st, steps[n], p);
      }
      ListedMeans(cfg, steps[..n], p);
      var i :| LateAt(cfg, steps[..n], p, i);
      LatePrefix(cfg, steps, p, i);
    }
  }

  lemma ListedSnoc(cfg: Config, steps: seq<Step>, p: int)
    requires steps != []
    ensures var n := |steps| - 1;
      var st := Exec(cfg, steps[..n]);
      p in Exec(cfg, steps).core.listeners <==>
        Binds(st, steps[n], p) || (p in st.core.listeners && !Unlists(st, steps[n], p))
  {
    var n := |steps| - 1;
    RunOk(cfg, steps[..n]);
    ListedStep(cfg, Exec(cfg, steps[..n]), steps[n], p);
  }

  lemma {:induction false} LateStays(cfg: Config, steps: seq<Step>, p: int, i: int)
    requires LateAt(cfg, steps, p, i)
    ensures p in Exec(cfg, steps).core.listeners
  {
    ListedSnoc(cfg, steps, p);
    if i < |steps| - 1 {
      LatePrefix(cfg, steps, p, i);
      LateStays(cfg, steps[..|steps| - 1], p, i);
    }
  }

  /** Once every monitor has run and s.mu is free, the listeners left in the table are exactly those bound
      late and not removed since. */
  lemma ListenersLeft(cfg: Config, steps: seq<Step>, p: int)
    requires Exec(cfg, steps).work == [] && EveryMonitored(Exec(cfg, steps).core)
    ensures p in Exec(cfg, steps).core.listeners <==> exists i :: LateAt(cfg, steps, p, i)
  {
    RunOk(cfg, steps);
    if p in Exec(cfg, steps).core.listeners {
      ListedMeans(cfg, steps, p);
    }
    if i :| LateAt(cfg, steps, p, i) {
      LateStays(cfg, steps, p, i);
    }
  }

  /** In particular none is left when every successful bind precedes its session's monitor. */
  lemma NoListenerLeft(cfg: Config, steps: seq<Step>)
    requires EachStep(cfg, steps, BindsInTime)
    requires Exec(cfg, steps).work == [] && EveryMonitored(Exec(cfg, steps).core)
    ensures Exec(cfg, steps).core.listeners == map[]
  {
    forall p ensures p !in Exec(cfg, steps).core.listeners {
      ListenersLeft(cfg, steps, p);
      assert forall i :: LateAt(cfg, steps, p, i) ==> !BindsInTime(Exec(cfg, steps[..i]), steps[i]);
    }
  }

  /** Listener s is the entry for p, and only its own accept loop would remove it. */
  ghost predicate Stranded(st: State, p: int, s: nat) {
    && s < |st.core.sockets| && st.core.sockets[s].port == p
    && p in st.core.listeners && st.core.listeners[p] == s && st.core.sockets[s].serving
    && Unlink(p) !in st.work
    && (forall j :: 0 <= j < |st.core.sockets| && j != s && st.core.sockets[j].serving ==> st.core.sockets[j].port != p)
    && (forall sid :: 0 <= sid < |st.core.sessions| && !st.core.sessions[sid].monitored ==>
          p !in st.core.sessions[sid].ports)
  }

  /** The accept loop of listener s has ended and closed it. */
  ghost predicate Ended(st: State, s: nat) {
    s < |st.core.sockets| && !st.core.sockets[s].serving && !st.core.sockets[s].open
  }

  lemma StrandedMonitor(cfg: Config, st: State, sid: nat, p: int, s: nat)
    requires Stranded(st, p, s) && Enabled(st, Monitor(sid))
    ensures Stranded(Next(cfg, st, Monitor(sid)), p, s)
  {
    WorkCovers(st.core.sessions[sid].ports, p);
  }

  lemma StrandedListen(cfg: Config, st: State, b: Binder, ok: bool, p: int, s: nat)
    requires Stranded(st, p, s) && Enabled(st, Listen(b, ok))
    ensures Stranded(Next(cfg, st, Listen(b, ok)), p, s)
  {
  }

  lemma StrandedSetup(r: Range, st: State, sid: nat, bindable: set<int>, p: int, s: nat)
    requires Stranded(st, p, s) && sid < |st.core.sessions| && st.core.sessions[sid].todo != []
    ensures Stranded(SetupTurn(r, st, sid, bindable), p, s)
  {
  }

  lemma StrandedStep(cfg: Config, st: State, step: Step, p: int, s: nat)
    requires Stranded(st, p, s) && step != Leave(s)
    ensures Stranded(Next(cfg, st, step), p, s)
  {
    if Enabled(st, step) {
      match step
      case Setup(sid, bindable) => StrandedSetup(cfg.range, st, sid, bindable, p, s);
      case Listen(b, ok) => StrandedListen(cfg, st, b, ok, p, s);
      case Monitor(sid) => StrandedMonitor(cfg, st, sid, p, s);
      case _ =>
    }
  }

  lemma EndedStep(cfg: Config, st: State, step: Step, s: nat)
    requires Ended(st, s)
    ensures Ended(Next(cfg, st, step), s)
  {
  }

  lemma StrandedOrEnded(cfg: Config, st: State, step: Step, p: int, s: nat)
    requires Ok(cfg.range, st) && (Stranded(st, p, s) || Ended(st, s))
    ensures Stranded(Next(cfg, st, step), p, s) || Ended(Next(cfg, st, step), s)
  {
    if Ended(st, s) {
      EndedStep(cfg, st, step, s);
    } else if step != Leave(s) {
      StrandedStep(cfg, st, step, p, s);
    }
  }

  lemma ExecMore(cfg: Config, steps: seq<Step>, more: seq<Step>)
    requires more != []
    ensures var n := |more| - 1; Exec(cfg, steps + more) == Next(cfg, Exec(cfg, steps + more[..n]), more[n])
  {
    var n := |more| - 1;
    assert (steps + more)[..|steps + more| - 1] == steps + more[..n];
  }

  lemma {:induction false} StrandedRun(cfg: Config, steps: seq<Step>, more: seq<Step>, p: int, s: nat)
    requires Stranded(Exec(cfg, steps), p, s)
    ensures Stranded(Exec(cfg, steps + more), p, s) || Ended(Exec(cfg, steps + more), s)
    decreases |more|
  {
    if more == [] {
      assert steps + more == steps;
    } else {
      var n := |more| - 1;
      StrandedRun(cfg, steps, more[..n], p, s);
      RunOk(cfg, steps + more[..n]);
      ExecMore(cfg, steps, more);
      StrandedOrEnded(cfg, Exec(cfg, steps + more[..n]), more[n], p, s);
    }
  }

  /** Whatever else happens, a stranded listener stays in the table exactly until its accept loop ends. */
  lemma OnlyItsOwnLoop(cfg: Config, steps: seq<Step>, more: seq<Step>, p: int, s: nat)
    requires Stranded(Exec(cfg, steps), p, s)
    ensures var c := Exec(cfg, steps + more).core;
      s < |c.sockets| && (p in c.listeners && c.listeners[p] == s <==> c.sockets[s].serving)
  {
    StrandedRun(cfg, steps, more, p, s);
    RunOk(cfg, steps + more);
  }

  // ----- one live session per client ---------------------------------------------------

  ghost predicate Live(c: Core, sid: int, id: ClientId) {
    0 <= sid < |c.sessions| && !c.sessions[sid].closed && c.sessions[sid].client == id
  }

  /** No client has two live sessions. */
  ghost predicate OneLive(st: State) {
    forall a, b, id :: Live(st.core, a, id) && Live(st.core, b, id) ==> a == b
  }

  /** An arrival finds every live session of its client stored, and so closes it. */
  ghost predicate FindsLive(st: State, step: Step) {
    step.Arrive? && Enabled(st, step) ==>
      forall sid :: Live(st.core, sid, step.id) ==> step.id in st.core.clients && st.core.clients[step.id] == sid
  }

  /** What is live after a step was live before, unless it has just arrived. */
  lemma LiveStep(cfg: Config, st: State, step: Step, sid: int, id: ClientId)
    requires !(step.Arrive? && Enabled(st, step))
    ensures Live(Next(cfg, st, step).core, sid, id) ==> Live(st.core, sid, id)
  {
    if Enabled(st, step) && 0 <= sid < |st.core.sessions| {
      SessionsGrow(cfg, st, step, sid);
    }
  }

  lemma ArrivalLive(cfg: Config, st: State, id: ClientId, sid: int, of: ClientId)
    requires Enabled(st, Arrive(id))
    ensures Live(Next(cfg, st, Arrive(id)).core, sid, of) <==>
      if sid == |st.core.sessions| then of == id
      else Live(st.core, sid, of) && !(id in st.core.clients && st.core.clients[id] == sid)
  {
  }

  /** An arrival keeps one live session per client exactly when it finds every live one stored. */
  lemma ArriveKeepsOneLive(cfg: Config, st: State, id: ClientId)
    requires Ok(cfg.range, st) && OneLive(st) && Enabled(st, Arrive(id))
    ensures OneLive(Next(cfg, st, Arrive(id))) <==> FindsLive(st, Arrive(id))
  {
    var st', n := Next(cfg, st, Arrive(id)), |st.core.sessions|;
    forall sid, of
      ensures Live(st'.core, sid, of) <==>
        if sid == n then of == id else Live(st.core, sid, of) && !(id in st.core.clients && st.core.clients[id] == sid)
    {
      ArrivalLive(cfg, st, id, sid, of);
    }
    if !FindsLive(st, Arrive(id)) {
      var sid :| Live(st.core, sid, id) && !(id in st.core.clients && st.core.clients[id] == sid);
      assert Live(st'.core, sid, id) && Live(st'.core, n, id);
    }
  }

  lemma OneLiveStep(cfg: Config, st: State, step: Step)
    requires Ok(cfg.range, st)
    ensures DecidedBy(cfg, st, step, OneLive, FindsLive)
  {
    if OneLive(st) {
      if step.Arrive? && Enabled(st, step) {
        ArriveKeepsOneLive(cfg, st, step.id);
      } else {
        forall sid, id ensures Live(Next(cfg, st, step).core, sid, id) ==> Live(st.core, sid, id) {
          LiveStep(cfg, st, step, sid, id);
        }
      }
    }
  }

  /** A run keeps one live session per client throughout exactly when every arrival finds its client's
      live session, if any, stored. */
  lemma OneLiveExactly(cfg: Config, steps: seq<Step>)
    ensures Always(cfg, steps, OneLive) <==> EachStep(cfg, steps, FindsLive)
  {
    forall i | 0 <= i < |steps|
      ensures DecidedBy(cfg, Exec(cfg, steps[..i]), steps[i], OneLive, FindsLive)
    {
      RunOk(cfg, steps[..i]);
      OneLiveStep(cfg, Exec(cfg, steps[..i]), steps[i]);
    }
    AlwaysExactly(cfg, steps, OneLive, FindsLive);
  }

  /** Every live session is the one stored for its client. */
  ghost predicate LiveStored(st: State) {
    forall sid, id :: Live(st.core, sid, id) ==> id in st.core.clients && st.core.clients[id] == sid
  }

  /** The entry a monitor deletes is missing, its own, or that of a closed session. */
  ghost predicate EvictsNoOne(st: State, step: Step) {
    step.Monitor? && Enabled(st, step) ==>
      var id := st.core.sessions[step.sid].client;
      id in st.core.clients ==> st.core.clients[id] == step.sid || !Live(st.core, st.core.clients[id], id)
  }

  /** A monitor step keeps every live session stored exactly when it evicts no one. */
  lemma MonitorKeepsLive(cfg: Config, st: State, sid: nat)
    requires Ok(cfg.range, st) && LiveStored(st) && Enabled(st, Monitor(sid))
    ensures LiveStored(Next(cfg, st, Monitor(sid))) <==> EvictsNoOne(st, Monitor(sid))
  {
    var st' := Next(cfg, st, Monitor(sid));
    var id := st.core.sessions[sid].client;
    forall j, of ensures Live(st'.core, j, of) <==> Live(st.core, j, of) {
      LiveStep(cfg, st, Monitor(sid), j, of);
    }
    if !EvictsNoOne(st, Monitor(sid)) {
      assert Live(st'.core, st.core.clients[id], id);
    }
  }

  lemma LiveStoredStep(cfg: Config, st: State, step: Step)
    requires Ok(cfg.range, st)
    ensures DecidedBy(cfg, st, step, LiveStored, EvictsNoOne)
  {
    if LiveStored(st) && Enabled(st, step) {
      match step
      case Arrive(id) =>
        forall sid, of ensures Live(Next(cfg, st, step).core, sid, of) ==>
          (sid == |st.core.sessions| && of == id) || (of != id && Live(st.core, sid, of))
        {
          ArrivalLive(cfg, st, id, sid, of);
        }
      case Monitor(sid) => MonitorKeepsLive(cfg, st, sid);
      case _ =>
        forall sid, id ensures Live(Next(cfg, st, step).core, sid, id) ==> Live(st.core, sid, id) {
          LiveStep(cfg, st, step, sid, id);
        }
    }
  }

  /** Every live session stays stored throughout a run exactly when no monitor evicts a live successor,
      and then no client ever has two live sessions. */
  lemma OneLiveSession(cfg: Config, steps: seq<Step>)
    ensures Always(cfg, steps, LiveStored) <==> EachStep(cfg, steps, EvictsNoOne)
    ensures EachStep(cfg, steps, EvictsNoOne) ==> Always(cfg, steps, OneLive)
  {
    forall i | 0 <= i < |steps|
      ensures DecidedBy(cfg, Exec(cfg, steps[..i]), steps[i], LiveStored, EvictsNoOne)
    {
      RunOk(cfg, steps[..i]);
      LiveStoredStep(cfg, Exec(cfg, steps[..i]), steps[i]);
    }
    AlwaysExactly(cfg, steps, LiveStored, EvictsNoOne);
    assert forall st :: LiveStored(st) ==> OneLive(st);
  }

  // ----- no orphaned listener --------------------------------------------------------------

  /** Every open listener is the table's entry for its port. */
  ghost predicate OpenTracked(st: State) {
    forall s :: 0 <= s < |st.core.sockets| && st.core.sockets[s].open ==>
      st.core.sockets[s].port in st.core.listeners && st.core.listeners[st.core.sockets[s].port] == s
  }

  /** The entry an accept loop deletes is missing or its own. */
  ghost predicate RemovesOwn(st: State, step: Step) {
    step.Leave? && Enabled(st, step) ==>
      var p := st.core.sockets[step.socket].port;
      p in st.core.listeners ==> st.core.listeners[p] == step.socket
  }

  /** An accept loop's cleanup keeps every open listener in the table exactly when it removes its own entry. */
  lemma LeaveKeepsTracked(cfg: Config, st: State, s: nat)
    requires Ok(cfg.range, st) && OpenTracked(st) && Enabled(st, Leave(s))
    ensures OpenTracked(Next(cfg, st, Leave(s))) <==> RemovesOwn(st, Leave(s))
  {
    var c, c' := st.core, Next(cfg, st, Leave(s)).core;
    var p := c.sockets[s].port;
    if !RemovesOwn(st, Leave(s)) {
      assert c'.sockets[c.listeners[p]].open;
    }
  }

  lemma BindKeepsTracked(st: State, b: Binder, ok: bool)
    requires Linked(st.core) && OpenTracked(st) && b.sid < |st.core.sessions|
    ensures OpenTracked(st.(core := Bind(st.core, b.sid, b.port, ok)))
  {
  }

  lemma DoKeepsTracked(st: State, w: Work)
    requires Linked(st.core) && Listening(st.core) && OpenTracked(st)
    ensures OpenTracked(st.(core := Do(st.core, w)))
  {
  }

  lemma OthersKeepTracked(cfg: Config, st: State, step: Step)
    requires Ok(cfg.range, st) && OpenTracked(st) && !step.Leave?
    ensures OpenTracked(Next(cfg, st, step))
  {
    if Enabled(st, step) {
      match step
      case Setup(sid, bindable) => SetupKeepsTables(cfg.range, st, sid, bindable);
      case Listen(b, ok) => BindKeepsTracked(st, b, ok);
      case Proceed => DoKeepsTracked(st, st.work[0]);
      case _ =>
    }
  }

  /** No listener is open outside the table throughout a run exactly when every accept loop removes its
      own entry or none. */
  lemma NoOrphan(cfg: Config, steps: seq<Step>)
    ensures Always(cfg, steps, OpenTracked) <==> EachStep(cfg, steps, RemovesOwn)
  {
    forall i | 0 <= i < |steps|
      ensures DecidedBy(cfg, Exec(cfg, steps[..i]), steps[i], OpenTracked, RemovesOwn)
    {
      var st := Exec(cfg, steps[..i]);
      RunOk(cfg, steps[..i]);
      if OpenTracked(st) && Enabled(st, steps[i]) {
        if steps[i].Leave? {
          LeaveKeepsTracked(cfg, st, steps[i].socket);
        } else {
          OthersKeepTracked(cfg, st, steps[i]);
        }
      }
    }
    AlwaysExactly(cfg, steps, OpenTracked, RemovesOwn);
  }

  // ----- the listeners of live sessions ---------------------------------------------------------

  ghost predicate OwnerLive(c: Core, s: int) {
    0 <= s < |c.sockets| && c.sockets[s].owner < |c.sessions| && !c.sessions[c.sockets[s].owner].closed
  }

  ghost predicate MonitoredClosed(c: Core) {
    forall sid :: 0 <= sid < |c.sessions| && c.sessions[sid].monitored ==> c.sessions[sid].closed
  }

  ghost predicate LiveServed(c: Core) {
    forall s :: OwnerLive(c, s) ==> c.sockets[s].serving
  }

  lemma MonitoredStep(cfg: Config, st: State, step: Step)
    requires MonitoredClosed(st.core)
    ensures MonitoredClosed(Next(cfg, st, step).core)
  {
    var c, c' := st.core, Next(cfg, st, step).core;
    forall sid | 0 <= sid < |c'.sessions| && c'.sessions[sid].monitored ensures c'.sessions[sid].closed {
      if sid < |c.sessions| {
        SessionsGrow(cfg, st, step, sid);
      }
    }
  }

  lemma ServedStep(cfg: Config, st: State, step: Step)
    requires Linked(st.core) && LiveServed(st.core)
    ensures LiveServed(Next(cfg, st, step).core)
  {
    var c, c' := st.core, Next(cfg, st, step).core;
    forall s | OwnerLive(c', s) ensures c'.sockets[s].serving {
      if s < |c.sockets| {
        SessionsGrow(cfg, st, step, c.sockets[s].owner);
        OwnersStay(cfg, st, step, s);
        assert OwnerLive(c, s);
      }
    }
  }

  /** In every interleaving a live session has not been monitored, and every listener of it is being served. */
  lemma {:induction false} LiveIsServed(cfg: Config, steps: seq<Step>)
    ensures MonitoredClosed(Exec(cfg, steps).core) && LiveServed(Exec(cfg, steps).core)
  {
    if steps != [] {
      var n := |steps| - 1;
      LiveIsServed(cfg, steps[..n]);
      RunOk(cfg, steps[..n]);
      MonitoredStep(cfg, Exec(cfg, steps[..n]), steps[n]);
      ServedStep(cfg, Exec(cfg, steps[..n]), steps[n]);
    }
  }

  /** Every listener of a live session is open. */
  ghost predicate LiveOpen(st: State) {
    forall s :: OwnerLive(st.core, s) ==> st.core.sockets[s].open
  }

  /** The monitor's loop closes no listener of a live session. */
  ghost predicate ClosesNoLive(st: State, step: Step) {
    step.Proceed? && Enabled(st, step) && st.work[0].Unlink? && st.work[0].port in st.core.listeners ==>
      !OwnerLive(st.core, st.core.listeners[st.work[0].port])
  }

  lemma UnlinkKeepsOpen(c: Core, p: int)
    requires Linked(c) && Listening(c) && forall s :: OwnerLive(c, s) ==> c.sockets[s].open
    ensures var c' := Do(c, Unlink(p));
      (forall s :: OwnerLive(c', s) ==> c'.sockets[s].open) <==> (p in c.listeners ==> !OwnerLive(c, c.listeners[p]))
  {
    var c' := Do(c, Unlink(p));
    forall s ensures OwnerLive(c', s) <==> OwnerLive(c, s) {
    }
    if p in c.listeners && OwnerLive(c, c.listeners[p]) {
      assert OwnerLive(c', c.listeners[p]) && !c'.sockets[c.listeners[p]].open;
    }
  }

  lemma OthersKeepOpen(cfg: Config, st: State, step: Step)
    requires Ok(cfg.range, st) && LiveOpen(st) && Enabled(st, step) && !(step.Proceed? && st.work[0].Unlink?)
    ensures LiveOpen(Next(cfg, st, step))
  {
    var c, c' := st.core, Next(cfg, st, step).core;
    forall s | OwnerLive(c', s) ensures c'.sockets[s].open {
      if s < |c.sockets| {
        SessionsGrow(cfg, st, step, c.sockets[s].owner);
        OwnersStay(cfg, st, step, s);
        assert OwnerLive(c, s);
      }
    }
  }

  /** Every listener of a live session stays open throughout a run exactly when no monitor's loop finds one of
      them under a port of its own session. */
  lemma LiveOpenExactly(cfg: Config, steps: seq<Step>)
    ensures Always(cfg, steps, LiveOpen) <==> EachStep(cfg, steps, ClosesNoLive)
  {
    forall i | 0 <= i < |steps|
      ensures DecidedBy(cfg, Exec(cfg, steps[..i]), steps[i], LiveOpen, ClosesNoLive)
    {
      var st := Exec(cfg, steps[..i]);
      RunOk(cfg, steps[..i]);
      if LiveOpen(st) && Enabled(st, steps[i]) {
        if steps[i].Proceed? && st.work[0].Unlink? {
          UnlinkKeepsOpen(st.core, st.work[0].port);
        } else {
          OthersKeepOpen(cfg, st, steps[i]);
        }
      }
    }
    AlwaysExactly(cfg, steps, LiveOpen, ClosesNoLive);
  }
}
