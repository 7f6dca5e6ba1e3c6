/**
 * Concrete runs in which a property fails: a bind that comes after its session's
 * monitor, a monitor that evicts its successor, an accept loop that unlists another
 * session's listener, a port released twice and handed out twice, and a failed bind
 * that keeps its port.
 */
module RegistryWitnesses {
  import opened PortPool
  import opened Registry
  import opened RegistryRuns
  import opened RegistryPorts
  import opened RegistryHandOut

  const ALICE := ClientId("alice")

  /** One client with one fixed port. */
  const FIXED := Config(Range(40000, 50000), [ClientConfig(ALICE, [8081])])

  /** One client with one dynamic port. */
  const DYNAMIC := Config(Range(40000, 50000), [ClientConfig(ALICE, [0])])

  lemma FixedRequests()
    ensures Requests(FIXED.clients, ALICE) == [8081]
  {
    assert Requests(FIXED.clients[1..], ALICE) == [];
  }

  lemma DynamicRequests()
    ensures Requests(DYNAMIC.clients, ALICE) == [0]
  {
    assert Requests(DYNAMIC.clients[1..], ALICE) == [];
  }

  lemma NoneOpen(socket: Socket)
    requires !socket.open
    ensures OpenPorts([socket]) == {}
  {
    assert [socket][..0] == [];
  }

  /** A session up to its spawned bind. */
  lemma Spawned(start: seq<Step>, sid: nat)
    requires Exec(FIXED, start).work == [] && |Exec(FIXED, start).core.sessions| == sid
    requires forall id :: id in Exec(FIXED, start).core.clients ==> Exec(FIXED, start).core.clients[id] < sid
    ensures var st, st' := Exec(FIXED, start), Exec(FIXED, start + [Arrive(ALICE)] + [Setup(sid, {})]);
      && st'.work == []
      && st'.pending == st.pending + multiset{Binder(sid, 8081, false)}
      && st'.core.listeners == st.core.listeners && st'.core.sockets == st.core.sockets
      && st'.core.used == st.core.used
      && st'.core.clients == st.core.clients[ALICE := sid]
      && |st'.core.sessions| == sid + 1
      && (forall i :: 0 <= i < sid && (ALICE !in st.core.clients || i != st.core.clients[ALICE]) ==>
            st'.core.sessions[i] == st.core.sessions[i])
      && st'.core.sessions[sid] == Session(ALICE, false, [], [], false)
  {
    FixedRequests();
    Snoc(FIXED, start, Arrive(ALICE));
    Snoc(FIXED, start + [Arrive(ALICE)], Setup(sid, {}));
    assert [8081][1..] == [];
  }

  /** The only session has been monitored, and its bind then succeeds. */
  lemma BindStrands(steps: seq<Step>)
    requires var st := Exec(FIXED, steps);
      && st.work == [] && st.pending == multiset{Binder(0, 8081, false)}
      && st.core.listeners == map[] && st.core.sockets == []
      && |st.core.sessions| == 1 && st.core.sessions[0].monitored
    ensures var st := Exec(FIXED, steps + [Listen(Binder(0, 8081, false), true)]);
      Quiet(st) && Stranded(st, 8081, 0)
  {
    Snoc(FIXED, steps, Listen(Binder(0, 8081, false), true));
  }

  /** A bind may run after its session's monitor. When everything else has run its listener is in the table,
      and stays there whatever happens until its own accept loop ends. */
  lemma LateBindLeaks() returns (steps: seq<Step>)
    ensures Quiet(Exec(FIXED, steps)) && 8081 in Exec(FIXED, steps).core.listeners
    ensures forall more :: var c := Exec(FIXED, steps + more).core;
      |c.sockets| >= 1 && (8081 in c.listeners && c.listeners[8081] == 0 <==> c.sockets[0].serving)
  {
    Spawned([], 0);
    var bind := Binder(0, 8081, false);
    var s2 := [Arrive(ALICE)] + [Setup(0, {})];
    assert [] + [Arrive(ALICE)] == [Arrive(ALICE)];
    Snoc(FIXED, s2, Drop(0));
    Snoc(FIXED, s2 + [Drop(0)], Monitor(0));
    var s4 := s2 + [Drop(0)] + [Monitor(0)];
    steps := s4 + [Listen(bind, true)];
    BindStrands(s4);
    forall more ensures var c := Exec(FIXED, steps + more).core;
      |c.sockets| >= 1 && (8081 in c.listeners && c.listeners[8081] == 0 <==> c.sockets[0].serving)
    {
      OnlyItsOwnLoop(FIXED, steps, more, 8081, 0);
    }
  }

  /** A client without configured ports. */
  const BARE := Config(Range(40000, 50000), [])

  /** The monitor of a replaced session deletes its successor's entry, so the next arrival finds
      nothing to close and the client has two live sessions. */
  lemma TwoLiveSessions() returns (steps: seq<Step>)
    ensures var c := Exec(BARE, steps).core;
      && |c.sessions| == 3 && c.sessions[1].client == c.sessions[2].client == ALICE
      && !c.sessions[1].closed && !c.sessions[2].closed
  {
    Snoc(BARE, [], Arrive(ALICE));
    assert [] + [Arrive(ALICE)] == [Arrive(ALICE)];
    Snoc(BARE, [Arrive(ALICE)], Arrive(ALICE));
    var s2 := [Arrive(ALICE)] + [Arrive(ALICE)];
    Snoc(BARE, s2, Monitor(0));
    Snoc(BARE, s2 + [Monitor(0)], Arrive(ALICE));
    steps := s2 + [Monitor(0)] + [Arrive(ALICE)];
  }

  /** A first session has bound its port. */
  lemma FirstBound() returns (steps: seq<Step>)
    ensures Exec(FIXED, steps) == State(
      Core(map[ALICE := 0], map[8081 := 0], {},
           [Session(ALICE, false, [8081], [], false)], [Socket(8081, 0, true, true)]),
      multiset{}, [])
  {
    Spawned([], 0);
    assert [] + [Arrive(ALICE)] == [Arrive(ALICE)];
    var s2 := [Arrive(ALICE)] + [Setup(0, {})];
    Snoc(FIXED, s2, Listen(Binder(0, 8081, false), true));
    steps := s2 + [Listen(Binder(0, 8081, false), true)];
    assert [] + [8081] == [8081];
    assert Exec(FIXED, steps).core.sessions == [Session(ALICE, false, [8081], [], false)];
  }

  /** It closes, and its monitor takes s.mu. */
  lemma FirstMonitored() returns (steps: seq<Step>)
    ensures Exec(FIXED, steps) == State(
      Core(map[], map[8081 := 0], {}, [Session(ALICE, true, [8081], [], true)], [Socket(8081, 0, true, true)]),
      multiset{}, [Unlink(8081), GiveBack(8081)])
  {
    var s3 := FirstBound();
    Snoc(FIXED, s3, Drop(0));
    Snoc(FIXED, s3 + [Drop(0)], Monitor(0));
    steps := s3 + [Drop(0)] + [Monitor(0)];
    assert [8081][1..] == [];
    assert CleanupWork([8081]) == [Unlink(8081), GiveBack(8081)];
    assert Exec(FIXED, steps).core.clients == map[];
  }

  /** The monitor runs to its end. */
  lemma FirstSession() returns (steps: seq<Step>)
    ensures var st := Exec(FIXED, steps);
      && st.work == [] && st.pending == multiset{} && st.core.clients == map[] && st.core.listeners == map[]
      && st.core.sessions == [Session(ALICE, true, [8081], [], true)]
      && st.core.sockets == [Socket(8081, 0, false, true)]
  {
    var s5 := FirstMonitored();
    Snoc(FIXED, s5, Proceed);
    assert [Unlink(8081), GiveBack(8081)][1..] == [GiveBack(8081)];
    assert Exec(FIXED, s5 + [Proceed]).core.listeners == map[];
    Snoc(FIXED, s5 + [Proceed], Proceed);
    steps := s5 + [Proceed] + [Proceed];
  }

  /** The client reconnects and binds the same port, while the first accept loop still runs. */
  lemma Reconnected() returns (steps: seq<Step>)
    ensures var st := Exec(FIXED, steps);
      && st.work == [] && st.core.listeners == map[8081 := 1]
      && st.core.sockets == [Socket(8081, 0, false, true), Socket(8081, 1, true, true)]
      && st.core.sessions == [Session(ALICE, true, [8081], [], true), Session(ALICE, false, [8081], [], false)]
  {
    var first := FirstSession();
    Spawned(first, 1);
    var s2 := first + [Arrive(ALICE)] + [Setup(1, {})];
    var bind := Listen(Binder(1, 8081, false), true);
    NoneOpen(Socket(8081, 0, false, true));
    Snoc(FIXED, s2, bind);
    steps := s2 + [bind];
    assert [] + [8081] == [8081];
    assert Exec(FIXED, s2).core.sessions ==
           [Session(ALICE, true, [8081], [], true), Session(ALICE, false, [], [], false)];
  }

  /** Then the first session's accept loop ends and unlists the second session's listener, which
      stays open while its session lives. */
  lemma StrangerUnlisted() returns (steps: seq<Step>)
    ensures var c := Exec(FIXED, steps).core;
      && |c.sockets| == 2 && c.sockets[1] == Socket(8081, 1, true, true)
      && |c.sessions| == 2 && !c.sessions[1].closed
      && 8081 !in c.listeners
  {
    var s3 := Reconnected();
    Snoc(FIXED, s3, Leave(0));
    steps := s3 + [Leave(0)];
  }

  /** A first session has bound its port and is replaced. */
  lemma FirstReplaced() returns (steps: seq<Step>)
    ensures Exec(FIXED, steps) == State(
      Core(map[ALICE := 1], map[8081 := 0], {},
           [Session(ALICE, true, [8081], [], false), Session(ALICE, false, [], [8081], false)],
           [Socket(8081, 0, true, true)]),
      multiset{}, [])
  {
    FixedRequests();
    var s3 := FirstBound();
    Snoc(FIXED, s3, Arrive(ALICE));
    steps := s3 + [Arrive(ALICE)];
    assert Exec(FIXED, steps).core.clients == map[ALICE := 1];
    assert Exec(FIXED, steps).core.sessions ==
           [Session(ALICE, true, [8081], [], false), Session(ALICE, false, [], [8081], false)];
  }

  /** Its accept loop ends, and the port is free again. */
  lemma FirstLeaves() returns (steps: seq<Step>)
    ensures Exec(FIXED, steps) == State(
      Core(map[ALICE := 1], map[], {},
           [Session(ALICE, true, [8081], [], false), Session(ALICE, false, [], [8081], false)],
           [Socket(8081, 0, false, false)]),
      multiset{}, [])
  {
    var s4 := FirstReplaced();
    Snoc(FIXED, s4, Leave(0));
    var s5 := s4 + [Leave(0)];
    assert Exec(FIXED, s5).core.listeners == map[];
    Snoc(FIXED, s5, Proceed);
    steps := s5 + [Proceed];
    assert [GiveBack(8081)][1..] == [] && {} - {8081} == {};
  }

  /** The new session binds the port before the monitor of the first has run. */
  lemma SecondBound() returns (steps: seq<Step>)
    ensures Exec(FIXED, steps) == State(
      Core(map[ALICE := 1], map[8081 := 1], {},
           [Session(ALICE, true, [8081], [], false), Session(ALICE, false, [8081], [], false)],
           [Socket(8081, 0, false, false), Socket(8081, 1, true, true)]),
      multiset{}, [])
  {
    var s6 := FirstLeaves();
    Snoc(FIXED, s6, Setup(1, {}));
    var s7 := s6 + [Setup(1, {})];
    assert [8081][1..] == [];
    assert Exec(FIXED, s7).core.sessions ==
           [Session(ALICE, true, [8081], [], false), Session(ALICE, false, [], [], false)];
    NoneOpen(Socket(8081, 0, false, false));
    Snoc(FIXED, s7, Listen(Binder(1, 8081, false), true));
    steps := s7 + [Listen(Binder(1, 8081, false), true)];
    assert [] + [8081] == [8081];
  }

  /** That monitor then closes the listener of the new session, which lives on without it. */
  lemma LiveListenerClosed() returns (steps: seq<Step>)
    ensures var c := Exec(FIXED, steps).core;
      && |c.sockets| == 2 && c.sockets[1] == Socket(8081, 1, false, true)
      && |c.sessions| == 2 && !c.sessions[1].closed && !LiveOpen(Exec(FIXED, steps))
  {
    var s8 := SecondBound();
    Snoc(FIXED, s8, Monitor(0));
    var s9 := s8 + [Monitor(0)];
    assert [8081][1..] == [];
    assert CleanupWork([8081]) == [Unlink(8081), GiveBack(8081)];
    Snoc(FIXED, s9, Proceed);
    steps := s9 + [Proceed];
    assert OwnerLive(Exec(FIXED, steps).core, 1);
  }

  const BOB := ClientId("bob")

  /** Two clients with dynamic ports only. */
  const DUO := Config(Range(40000, 50000), [ClientConfig(ALICE, [0]), ClientConfig(BOB, [0, 0])])

  lemma DuoRequests()
    ensures Requests(DUO.clients, ALICE) == [0] && Requests(DUO.clients, BOB) == [0, 0]
  {
    assert DUO.clients[1..][1..] == [];
    assert Requests(DUO.clients[1..], ALICE) == [] && Requests(DUO.clients[1..], BOB) == [0, 0];
  }

  /** Alice is handed port 40000. */
  lemma AliceIsHanded() returns (steps: seq<Step>)
    ensures Exec(DUO, steps) == State(
      Core(map[ALICE := 0], map[], {40000}, [Session(ALICE, false, [], [], false)], []),
      multiset{Binder(0, 40000, true)}, [])
  {
    DuoRequests();
    Snoc(DUO, [], Arrive(ALICE));
    assert [] + [Arrive(ALICE)] == [Arrive(ALICE)];
    LeastFreeExact(DUO.range, {}, {40000}, 40000);
    Snoc(DUO, [Arrive(ALICE)], Setup(0, {40000}));
    assert [0][1..] == [];
    steps := [Arrive(ALICE)] + [Setup(0, {40000})];
  }

  /** She binds it. */
  lemma AliceBinds() returns (steps: seq<Step>)
    ensures Exec(DUO, steps) == State(
      Core(map[ALICE := 0], map[40000 := 0], {40000},
           [Session(ALICE, false, [40000], [], false)], [Socket(40000, 0, true, true)]),
      multiset{}, [])
  {
    var s2 := AliceIsHanded();
    var bind := Listen(Binder(0, 40000, true), true);
    Snoc(DUO, s2, bind);
    steps := s2 + [bind];
    assert [] + [40000] == [40000];
    assert Exec(DUO, steps).core.sessions == [Session(ALICE, false, [40000], [], false)];
  }

  /** Her session closes and its monitor takes s.mu. */
  lemma AliceIsMonitored() returns (steps: seq<Step>)
    ensures Exec(DUO, steps) == State(
      Core(map[], map[40000 := 0], {40000}, [Session(ALICE, true, [40000], [], true)], [Socket(40000, 0, true, true)]),
      multiset{}, [Unlink(40000), GiveBack(40000)])
  {
    var s3 := AliceBinds();
    Snoc(DUO, s3, Drop(0));
    Snoc(DUO, s3 + [Drop(0)], Monitor(0));
    steps := s3 + [Drop(0)] + [Monitor(0)];
    assert [40000][1..] == [];
    assert CleanupWork([40000]) == [Unlink(40000), GiveBack(40000)];
    assert Exec(DUO, steps).core.clients == map[];
  }

  /** The monitor finishes, while her accept loop has still to notice. */
  lemma AliceIsCleanedUp() returns (steps: seq<Step>)
    ensures Exec(DUO, steps) == State(
      Core(map[], map[], {}, [Session(ALICE, true, [40000], [], true)], [Socket(40000, 0, false, true)]),
      multiset{}, [])
  {
    var s5 := AliceIsMonitored();
    Snoc(DUO, s5, Proceed);
    assert [Unlink(40000), GiveBack(40000)][1..] == [GiveBack(40000)];
    assert Exec(DUO, s5 + [Proceed]).core.listeners == map[];
    Snoc(DUO, s5 + [Proceed], Proceed);
    steps := s5 + [Proceed] + [Proceed];
    assert Exec(DUO, steps).core.used == {};
  }

  /** Bob is handed the same port. */
  lemma BobIsHanded() returns (steps: seq<Step>)
    ensures var st := Exec(DUO, steps);
      && st.work == [] && st.core.used == {40000} && st.core.listeners == map[]
      && st.pending == multiset{Binder(1, 40000, true)}
      && st.core.sessions == [Session(ALICE, true, [40000], [], true), Session(BOB, false, [], [0], false)]
      && st.core.sockets == [Socket(40000, 0, false, true)]
  {
    DuoRequests();
    var s7 := AliceIsCleanedUp();
    Snoc(DUO, s7, Arrive(BOB));
    LeastFreeExact(DUO.range, {}, {40000}, 40000);
    NoneOpen(Socket(40000, 0, false, true));
    Snoc(DUO, s7 + [Arrive(BOB)], Setup(1, {40000}));
    assert [0, 0][1..] == [0];
    steps := s7 + [Arrive(BOB)] + [Setup(1, {40000})];
  }

  /** Alice's accept loop then ends and is about to release it a second time, although it is Bob's now. */
  lemma AliceLeaves() returns (steps: seq<Step>)
    ensures var st := Exec(DUO, steps);
      && st.work == [GiveBack(40000)] && st.core.used == {40000} && st.pending == multiset{Binder(1, 40000, true)}
      && |st.core.sessions| == 2 && st.core.sessions[1] == Session(BOB, false, [], [0], false)
      && OpenPorts(st.core.sockets) == {}
  {
    var s9 := BobIsHanded();
    Snoc(DUO, s9, Leave(0));
    steps := s9 + [Leave(0)];
    assert Exec(DUO, steps).core.sockets == [Socket(40000, 0, false, false)];
    NoneOpen(Socket(40000, 0, false, false));
  }

  /** The release takes Bob's port out of use. */
  lemma BobIsRobbed() returns (steps: seq<Step>)
    ensures var st := Exec(DUO, steps);
      && st.work == [] && st.core.used == {} && st.pending == multiset{Binder(1, 40000, true)}
      && |st.core.sessions| == 2 && st.core.sessions[1] == Session(BOB, false, [], [0], false)
      && OpenPorts(st.core.sockets) == {}
  {
    var s10 := AliceLeaves();
    Snoc(DUO, s10, Proceed);
    steps := s10 + [Proceed];
    assert Exec(DUO, steps).core.used == {};
  }

  /** And Bob is handed the same port again, for two goroutines to bind. */
  lemma HandedOutTwice() returns (steps: seq<Step>)
    ensures var st := Exec(DUO, steps);
      st.pending == multiset{Binder(1, 40000, true), Binder(1, 40000, true)} && !HandedOutOnce(st)
  {
    var s11 := BobIsRobbed();
    LeastFreeExact(DUO.range, {}, {40000}, 40000);
    Snoc(DUO, s11, Setup(1, {40000}));
    steps := s11 + [Setup(1, {40000})];
    var twice := Exec(DUO, steps).pending;
    assert twice == multiset{Binder(1, 40000, true)} + multiset{Binder(1, 40000, true)};
    assert twice[Binder(1, 40000, true)] == 2;
  }

  /** A session that has been handed port 40000 and has not bound it yet. */
  lemma Allocated() returns (steps: seq<Step>)
    ensures |steps| == 2 && !steps[0].Monitor? && !steps[1].Monitor?
    ensures Exec(DYNAMIC, steps) == State(
      Core(map[ALICE := 0], map[], {40000}, [Session(ALICE, false, [], [], false)], []),
      multiset{Binder(0, 40000, true)}, [])
  {
    DynamicRequests();
    LeastFreeExact(DYNAMIC.range, {}, {40000}, 40000);
    assert [0][1..] == [];
    Snoc(DYNAMIC, [], Arrive(ALICE));
    assert [] + [Arrive(ALICE)] == [Arrive(ALICE)];
    Snoc(DYNAMIC, [Arrive(ALICE)], Setup(0, {40000}));
    steps := [Arrive(ALICE)] + [Setup(0, {40000})];
  }

  /** When the bind of an allocated port fails, the port stays in use when everything has been cleaned up. */
  lemma FailedBindKeepsPort() returns (steps: seq<Step>)
    ensures Quiet(Exec(DYNAMIC, steps)) && EachStep(DYNAMIC, steps, TimelyStep)
    ensures Exec(DYNAMIC, steps).core.used == {40000}
  {
    var s2 := Allocated();
    var bind := Listen(Binder(0, 40000, true), false);
    Snoc(DYNAMIC, s2, bind);
    Snoc(DYNAMIC, s2 + [bind], Drop(0));
    var s4 := s2 + [bind] + [Drop(0)];
    assert Exec(DYNAMIC, s4).pending == multiset{};
    Snoc(DYNAMIC, s4, Monitor(0));
    steps := s4 + [Monitor(0)];
    assert steps[..4] == s4;
  }
}
