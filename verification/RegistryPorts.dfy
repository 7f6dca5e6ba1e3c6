/**
 * The dynamic ports over whole runs: which are in use, which stay in use when everything
 * has been cleaned up, and what the machine's setup loop spawns.
 */
module RegistryPorts {
  import opened PortPool
  import opened Registry
  import opened RegistryRuns

  // ----- the ports in use -------------------------------------------------------------

  /** This step hands out p. */
  ghost predicate Allocates(cfg: Config, st: State, step: Step, p: int) {
    && Enabled(st, step) && step.Setup? && st.core.sessions[step.sid].todo[0] == 0
    && LeastFree(cfg.range, st.core.used, step.bindable) == Some(p)
  }

  /** This step releases p. */
  ghost predicate GivesBack(st: State, step: Step, p: int) {
    Enabled(st, step) && step.Proceed? && st.work[0] == GiveBack(p)
  }

  ghost predicate AllocatesAt(cfg: Config, steps: seq<Step>, p: int, i: int) {
    0 <= i < |steps| && Allocates(cfg, Exec(cfg, steps[..i]), steps[i], p)
  }

  ghost predicate GivesBackAt(cfg: Config, steps: seq<Step>, p: int, i: int) {
    0 <= i < |steps| && GivesBack(Exec(cfg, steps[..i]), steps[i], p)
  }

  /** Step i hands out p, and no later step releases it. */
  ghost predicate HandedOutAt(cfg: Config, steps: seq<Step>, p: int, i: int) {
    AllocatesAt(cfg, steps, p, i) && forall k :: i < k < |steps| ==> !GivesBackAt(cfg, steps, p, k)
  }

  lemma UsedStep(cfg: Config, st: State, step: Step, p: int)
    ensures p in Next(cfg, st, step).core.used <==>
      Allocates(cfg, st, step, p) || (p in st.core.used && !GivesBack(st, step, p))
  {
  }

  /** A prefix of a run sees the same events. */
  lemma SameEvents(cfg: Config, steps: seq<Step>, p: int, n: nat, k: int)
    requires k < n <= |steps|
    ensures AllocatesAt(cfg, steps[..n], p, k) <==> AllocatesAt(cfg, steps, p, k)
    ensures GivesBackAt(cfg, steps[..n], p, k) <==> GivesBackAt(cfg, steps, p, k)
  {
    if 0 <= k {
      assert steps[..n][..k] == steps[..k];
    }
  }

  lemma UsedSnoc(cfg: Config, steps: seq<Step>, p: int)
    requires steps != []
    ensures var n := |steps| - 1;
      p in Exec(cfg, steps).core.used <==>
        AllocatesAt(cfg, steps, p, n) || (p in Exec(cfg, steps[..n]).core.used && !GivesBackAt(cfg, steps, p, n))
  {
    var n := |steps| - 1;
    UsedStep(cfg, Exec(cfg, steps[..n]), steps[n], p);
  }

  lemma HandedOutPrefix(cfg: Config, steps: seq<Step>, p: int, i: int)
    requires steps != [] && i < |steps| - 1
    ensures var n := |steps| - 1;
      HandedOutAt(cfg, steps, p, i) <==> HandedOutAt(cfg, steps[..n], p, i) && !GivesBackAt(cfg, steps, p, n)
  {
    var n := |steps| - 1;
    SameEvents(cfg, steps, p, n, i);
    forall k | i < k < n ensures GivesBackAt(cfg, steps[..n], p, k) <==> GivesBackAt(cfg, steps, p, k) {
      SameEvents(cfg, steps, p, n, k);
    }
  }

  lemma {:induction false} UsedWasHandedOut(cfg: Config, steps: seq<Step>, p: int) returns (i: int)
    requires p in Exec(cfg, steps).core.used
    ensures HandedOutAt(cfg, steps, p, i)
  {
    UsedSnoc(cfg, steps, p);
    i := |steps| - 1;
    if !AllocatesAt(cfg, steps, p, i) {
      var n := i;
      i := UsedWasHandedOut(cfg, steps[..n], p);
      HandedOutPrefix(cfg, steps, p, i);
    }
  }

  lemma {:induction false} HandedOutIsUsed(cfg: Config, steps: seq<Step>, p: int, i: int)
    requires HandedOutAt(cfg, steps, p, i)
    ensures p in Exec(cfg, steps).core.used
  {
    UsedSnoc(cfg, steps, p);
    if i < |steps| - 1 {
      HandedOutPrefix(cfg, steps, p, i);
      HandedOutIsUsed(cfg, steps[..|steps| - 1], p, i);
    }
  }

  /** In every interleaving the ports in use are exactly those handed out and not released since. */
  lemma UsedIsHandedOut(cfg: Config, steps: seq<Step>, p: int)
    ensures p in Exec(cfg, steps).core.used <==> exists i :: HandedOutAt(cfg, steps, p, i)
  {
    if p in Exec(cfg, steps).core.used {
      var i := UsedWasHandedOut(cfg, steps, p);
    }
    if i :| HandedOutAt(cfg, steps, p, i) {
      HandedOutIsUsed(cfg, steps, p, i);
    }
  }

  /** In every interleaving two allocations of one port have a release of it between them. */
  lemma ReleasedBetween(cfg: Config, steps: seq<Step>, p: int, i: nat, j: nat)
    requires i < j && AllocatesAt(cfg, steps, p, i) && AllocatesAt(cfg, steps, p, j)
    ensures exists k :: i < k < j && GivesBackAt(cfg, steps, p, k)
  {
    var before := steps[..j];
    if forall k :: i < k < j ==> !GivesBackAt(cfg, steps, p, k) {
      SameEvents(cfg, steps, p, j, i);
      forall k | i < k < j ensures !GivesBackAt(cfg, before, p, k) {
        SameEvents(cfg, steps, p, j, k);
      }
      assert HandedOutAt(cfg, before, p, i);
      UsedIsHandedOut(cfg, before, p);
      LeastFreeExact(cfg.range, Exec(cfg, before).core.used, steps[j].bindable, p);
      assert false;
    }
  }

  /** What the pool sees of a step. */
  function PoolEvents(st: State, step: Step): seq<PoolEvent> {
    if !Enabled(st, step) then []
    else
      match step
      case Setup(sid, bindable) => if st.core.sessions[sid].todo[0] == 0 then [Allocate(bindable)] else []
      case Proceed => if st.work[0].GiveBack? then [Release(st.work[0].port)] else []
      case _ => []
  }

  /** The allocations and releases of a run. */
  function PoolTrace(cfg: Config, steps: seq<Step>): seq<PoolEvent> {
    if steps == [] then []
    else
      var n := |steps| - 1;
      PoolTrace(cfg, steps[..n]) + PoolEvents(Exec(cfg, steps[..n]), steps[n])
  }

  lemma PoolTraceStep(cfg: Config, st: State, step: Step, trace: seq<PoolEvent>)
    requires Used(cfg.range, trace) == st.core.used
    ensures Used(cfg.range, trace + PoolEvents(st, step)) == Next(cfg, st, step).core.used
  {
    var events := PoolEvents(st, step);
    if events == [] {
      assert trace + events == trace;
    } else {
      assert (trace + events)[..|trace|] == trace;
    }
  }

  /** What is proved of every pool trace holds of every interleaving. */
  lemma {:induction false} PoolTraceExact(cfg: Config, steps: seq<Step>)
    ensures Used(cfg.range, PoolTrace(cfg, steps)) == Exec(cfg, steps).core.used
  {
    if steps != [] {
      var n := |steps| - 1;
      PoolTraceExact(cfg, steps[..n]);
      PoolTraceStep(cfg, Exec(cfg, steps[..n]), steps[n], PoolTrace(cfg, steps[..n]));
    }
  }

  // ----- the ports that stay in use ------------------------------------------------------

  /** Goroutine b's bind fails, or succeeds although its session's monitor has run. */
  ghost predicate BindsInVain(st: State, step: Step, b: Binder) {
    && Enabled(st, step) && step.Listen? && step.binder == b
    && (BindFails(st.core, b.port, step.ok) || Monitored(st.core, b.sid))
  }

  ghost predicate BindsInVainAt(cfg: Config, steps: seq<Step>, b: Binder, i: int) {
    0 <= i < |steps| && BindsInVain(Exec(cfg, steps[..i]), steps[i], b)
  }

  lemma SameBinds(cfg: Config, steps: seq<Step>, b: Binder, n: nat, k: int)
    requires k < n <= |steps|
    ensures BindsInVainAt(cfg, steps[..n], b, k) <==> BindsInVainAt(cfg, steps, b, k)
  {
    if 0 <= k {
      assert steps[..n][..k] == steps[..k];
    }
  }

  /** A session that is not yet monitored lists port p. */
  ghost predicate Lists(c: Core, sid: int, p: int) {
    0 <= sid < |c.sessions| && !c.sessions[sid].monitored && p in c.sessions[sid].ports
  }

  /** The bind that a port was handed out for is still to run, or its session still to be monitored, or
      its release under way. */
  ghost predicate Unresolved(st: State, b: Binder) {
    b in st.pending || Lists(st.core, b.sid, b.port) || GiveBack(b.port) in st.work
  }

  lemma HeldStep(cfg: Config, st: State, step: Step, sid: nat, p: int)
    requires Lists(st.core, sid, p)
    ensures Unresolved(Next(cfg, st, step), Binder(sid, p, true))
  {
    SessionsGrow(cfg, st, step, sid);
    if Enabled(st, step) && step == Monitor(sid) {
      WorkCovers(st.core.sessions[sid].ports, p);
    }
  }

  lemma ReleaseStep(cfg: Config, st: State, step: Step, p: int)
    requires GiveBack(p) in st.work && !GivesBack(st, step, p)
    ensures GiveBack(p) in Next(cfg, st, step).work
  {
    if Enabled(st, step) && step.Proceed? {
      assert st.work == [st.work[0]] + st.work[1..];
    }
  }

  lemma PendingStep(cfg: Config, st: State, step: Step, b: Binder)
    requires b in st.pending && b.dynamic
    ensures Unresolved(Next(cfg, st, step), b) || BindsInVain(st, step, b)
  {
    var st' := Next(cfg, st, step);
    if Enabled(st, step) && step.Listen? && step.binder == b {
      if !BindsInVain(st, step, b) {
        var ports := st'.core.sessions[b.sid].ports;
        assert ports == st.core.sessions[b.sid].ports + [b.port];
        assert b.port in ports;
      }
    } else {
      assert b in st'.pending;
    }
  }

  lemma UnresolvedStep(cfg: Config, st: State, step: Step, b: Binder)
    requires Ok(cfg.range, st) && Unresolved(st, b) && b.dynamic && !GivesBack(st, step, b.port)
    ensures Unresolved(Next(cfg, st, step), b) || BindsInVain(st, step, b)
  {
    if b in st.pending {
      PendingStep(cfg, st, step, b);
    } else if GiveBack(b.port) in st.work {
      ReleaseStep(cfg, st, step, b.port);
    } else {
      HeldStep(cfg, st, step, b.sid, b.port);
    }
  }

  lemma PendingAt(cfg: Config, steps: seq<Step>, p: int)
    requires steps != [] && AllocatesAt(cfg, steps, p, |steps| - 1)
    ensures Binder(steps[|steps| - 1].sid, p, true) in Exec(cfg, steps).pending
  {
  }

  lemma FateStep(cfg: Config, steps: seq<Step>, b: Binder)
    requires steps != [] && b.dynamic && !GivesBackAt(cfg, steps, b.port, |steps| - 1)
    requires Unresolved(Exec(cfg, steps[..|steps| - 1]), b)
    ensures Unresolved(Exec(cfg, steps), b) || BindsInVainAt(cfg, steps, b, |steps| - 1)
  {
    var n := |steps| - 1;
    RunOk(cfg, steps[..n]);
    UnresolvedStep(cfg, Exec(cfg, steps[..n]), steps[n], b);
  }

  /** The goroutine that step a, an allocation, has spawned for p. */
  function SpawnedAt(steps: seq<Step>, p: int, a: nat): Binder
    requires a < |steps| && steps[a].Setup?
  {
    Binder(steps[a].sid, p, true)
  }

  /** What has become of a port since step a handed it out, if it was not released. */
  lemma {:induction false} Fate(cfg: Config, steps: seq<Step>, p: int, a: nat)
    requires HandedOutAt(cfg, steps, p, a)
    ensures Unresolved(Exec(cfg, steps), SpawnedAt(steps, p, a)) ||
      exists i :: a < i && BindsInVainAt(cfg, steps, SpawnedAt(steps, p, a), i)
    decreases |steps|
  {
    var n, b := |steps| - 1, SpawnedAt(steps, p, a);
    if a == n {
      PendingAt(cfg, steps, p);
    } else {
      HandedOutPrefix(cfg, steps, p, a);
      Fate(cfg, steps[..n], p, a);
      if i :| a < i && BindsInVainAt(cfg, steps[..n], b, i) {
        SameBinds(cfg, steps, b, n, i);
      } else {
        FateStep(cfg, steps, b);
      }
    }
  }

  /** Everything has run: no bind is pending, s.mu is free, and every session has been monitored. */
  ghost predicate Quiet(st: State) {
    st.pending == multiset{} && st.work == [] && EveryMonitored(st.core)
  }

  /** Step a hands out p, which the goroutine spawned for it binds in vain at step i, and which is never
      released. */
  ghost predicate LeftBehind(cfg: Config, steps: seq<Step>, p: int, a: int, i: int) {
    0 <= a < i && HandedOutAt(cfg, steps, p, a) && BindsInVainAt(cfg, steps, SpawnedAt(steps, p, a), i)
  }

  /** When everything has run, the ports still in use are exactly those that were bound in vain by the
      goroutine they were handed out to, and not released since. */
  lemma PortsLeft(cfg: Config, steps: seq<Step>, p: int)
    requires Quiet(Exec(cfg, steps))
    ensures p in Exec(cfg, steps).core.used <==> exists a, i :: LeftBehind(cfg, steps, p, a, i)
  {
    UsedIsHandedOut(cfg, steps, p);
    if a :| HandedOutAt(cfg, steps, p, a) {
      Fate(cfg, steps, p, a);
      var i :| a < i && BindsInVainAt(cfg, steps, SpawnedAt(steps, p, a), i);
      assert LeftBehind(cfg, steps, p, a, i);
    }
  }

  // ----- runs whose binds finish before their session's monitor -----------------------------

  /** A monitor step finds no bind of its session still to run. */
  ghost predicate TimelyStep(st: State, step: Step) {
    step.Monitor? && Enabled(st, step) ==> forall b :: b in st.pending ==> b.sid != step.sid
  }

  /** A monitored session has nothing left to bind. */
  ghost predicate Finished(st: State) {
    && (forall sid :: 0 <= sid < |st.core.sessions| && st.core.sessions[sid].monitored ==>
          st.core.sessions[sid].todo == [])
    && (forall b :: b in st.pending ==> b.sid < |st.core.sessions| && !st.core.sessions[b.sid].monitored)
  }

  lemma SetupFinished(r: Range, st: State, sid: nat, bindable: set<int>)
    requires Finished(st) && sid < |st.core.sessions| && st.core.sessions[sid].todo != []
    ensures Finished(SetupTurn(r, st, sid, bindable))
  {
  }

  lemma ListenFinished(cfg: Config, st: State, b: Binder, ok: bool)
    requires Finished(st) && Enabled(st, Listen(b, ok))
    ensures Finished(Next(cfg, st, Listen(b, ok)))
  {
    assert forall b' :: b' in st.pending - multiset{b} ==> b' in st.pending;
  }

  lemma FinishedStep(cfg: Config, st: State, step: Step)
    requires Ok(cfg.range, st) && Finished(st) && TimelyStep(st, step)
    ensures Finished(Next(cfg, st, step))
  {
    if Enabled(st, step) {
      if step.Setup? {
        SetupFinished(cfg.range, st, step.sid, step.bindable);
      } else if step.Listen? {
        ListenFinished(cfg, st, step.binder, step.ok);
      }
    }
  }

  lemma {:induction false} TimelyRun(cfg: Config, steps: seq<Step>)
    requires EachStep(cfg, steps, TimelyStep)
    ensures Always(cfg, steps, Finished)
  {
    if steps == [] {
      assert steps[..0] == [];
    } else {
      var n := |steps| - 1;
      EachStepSnoc(cfg, steps, TimelyStep);
      AlwaysSnoc(cfg, steps, Finished);
      TimelyRun(cfg, steps[..n]);
      RunOk(cfg, steps[..n]);
      assert steps[..n][..n] == steps[..n];
      FinishedStep(cfg, Exec(cfg, steps[..n]), steps[n]);
    }
  }

  /** Step i is goroutine b's bind, and fails. */
  ghost predicate OwnBindFails(cfg: Config, steps: seq<Step>, b: Binder, i: int) {
    BindsInVainAt(cfg, steps, b, i) && BindFails(Exec(cfg, steps[..i]).core, b.port, steps[i].ok)
  }

  /** Step a hands out p, whose own bind fails at step i, and which is never released. */
  ghost predicate LeftByFailure(cfg: Config, steps: seq<Step>, p: int, a: int, i: int) {
    0 <= a < i && HandedOutAt(cfg, steps, p, a) && OwnBindFails(cfg, steps, SpawnedAt(steps, p, a), i)
  }

  lemma FinishedBinds(st: State, step: Step, b: Binder)
    requires Finished(st)
    ensures BindsInTime(st, step)
    ensures BindsInVain(st, step, b) ==> BindFails(st.core, b.port, step.ok)
  {
  }

  lemma TimelyBinds(cfg: Config, steps: seq<Step>)
    requires EachStep(cfg, steps, TimelyStep)
    ensures EachStep(cfg, steps, BindsInTime)
    ensures forall b, i :: BindsInVainAt(cfg, steps, b, i) ==> OwnBindFails(cfg, steps, b, i)
  {
    TimelyRun(cfg, steps);
    forall i | 0 <= i < |steps| ensures BindsInTime(Exec(cfg, steps[..i]), steps[i]) {
      FinishedBinds(Exec(cfg, steps[..i]), steps[i], Binder(0, 0, true));
    }
    forall b, i | BindsInVainAt(cfg, steps, b, i) ensures OwnBindFails(cfg, steps, b, i) {
      FinishedBinds(Exec(cfg, steps[..i]), steps[i], b);
    }
  }

  lemma TimelyQuiet(cfg: Config, steps: seq<Step>)
    requires EachStep(cfg, steps, TimelyStep) && Exec(cfg, steps).work == [] && EveryMonitored(Exec(cfg, steps).core)
    ensures Quiet(Exec(cfg, steps))
  {
    TimelyRun(cfg, steps);
    assert steps[..|steps|] == steps;
    assert Finished(Exec(cfg, steps));
    assert forall b :: b !in Exec(cfg, steps).pending;
  }

  /** In a run whose binds finish before their session's monitor, once every monitor has run no listener is
      left, and the ports still in use are exactly those whose own bind failed and that no later step released. */
  lemma Quiescence(cfg: Config, steps: seq<Step>)
    requires EachStep(cfg, steps, TimelyStep) && Exec(cfg, steps).work == [] && EveryMonitored(Exec(cfg, steps).core)
    ensures Exec(cfg, steps).core.listeners == map[]
    ensures forall p :: p in Exec(cfg, steps).core.used <==> exists a, i :: LeftByFailure(cfg, steps, p, a, i)
  {
    TimelyQuiet(cfg, steps);
    TimelyBinds(cfg, steps);
    NoListenerLeft(cfg, steps);
    forall p
      ensures p in Exec(cfg, steps).core.used <==> exists a, i :: LeftByFailure(cfg, steps, p, a, i)
    {
      PortsLeft(cfg, steps, p);
      assert forall a, i :: LeftBehind(cfg, steps, p, a, i) <==> LeftByFailure(cfg, steps, p, a, i);
    }
  }

  // ----- a whole setup ----------------------------------------------------------------------

  function SetupLoop(r: Range, st: State, sid: nat, bindable: set<int>): State
    requires sid < |st.core.sessions|
    decreases |st.core.sessions[sid].todo|
  {
    if st.core.sessions[sid].todo == [] then st else SetupLoop(r, SetupTurn(r, st, sid, bindable), sid, bindable)
  }

  function Binders(sid: nat, spawned: seq<Spawn>): multiset<Binder> {
    if spawned == [] then multiset{}
    else multiset{Binder(sid, spawned[0].port, spawned[0].dynamic)} + Binders(sid, spawned[1..])
  }

  lemma {:induction false} BindersConcat(sid: nat, a: seq<Spawn>, b: seq<Spawn>)
    ensures Binders(sid, a + b) == Binders(sid, a) + Binders(sid, b)
  {
    if a == [] {
      assert a + b == b;
    } else {
      assert (a + b)[1..] == a[1..] + b;
      BindersConcat(sid, a[1..], b);
    }
  }

  /** One turn of the machine is one turn of the plan. */
  lemma SetupTurnSpawns(r: Range, st: State, sid: nat, bindable: set<int>)
    requires sid < |st.core.sessions| && st.core.sessions[sid].todo != []
    ensures var st', todo := SetupTurn(r, st, sid, bindable), st.core.sessions[sid].todo;
      var turn := Turn(r, st.core.used, bindable, todo[0]);
      && st'.core.sessions == st.core.sessions[sid := st.core.sessions[sid].(todo := todo[1..])]
      && st'.core.used == turn.1
      && st'.pending == st.pending + Binders(sid, turn.0)
  {
    var todo := st.core.sessions[sid].todo;
    var turn := Turn(r, st.core.used, bindable, todo[0]);
    if turn.0 != [] {
      assert turn.0[1..] == [];
    }
  }

  /** Uninterrupted turns of the machine's setup loop spawn exactly the plan. */
  lemma {:induction false} SetupLoopPlans(r: Range, st: State, sid: nat, bindable: set<int>)
    requires sid < |st.core.sessions|
    ensures var st' := SetupLoop(r, st, sid, bindable);
      && st'.core.sessions == st.core.sessions[sid := st.core.sessions[sid].(todo := [])]
      && st'.pending == st.pending +
           Binders(sid, Plan(st.core.sessions[sid].todo, FreePorts(r, st.core.used, bindable)))
    decreases |st.core.sessions[sid].todo|
  {
    var todo, used := st.core.sessions[sid].todo, st.core.used;
    if todo == [] {
      assert st.core.sessions[sid].(todo := []) == st.core.sessions[sid];
    } else {
      SetupTurnSpawns(r, st, sid, bindable);
      PlanTurn(r, used, bindable, todo);
      var turn := Turn(r, used, bindable, todo[0]);
      BindersConcat(sid, turn.0, Plan(todo[1..], FreePorts(r, turn.1, bindable)));
      SetupLoopPlans(r, SetupTurn(r, st, sid, bindable), sid, bindable);
    }
  }
}
