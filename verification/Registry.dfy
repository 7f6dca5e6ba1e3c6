/**
 * The shared tables of the server and the critical sections that change them, as a
 * state machine. Sessions and listeners are named by the order of their creation.
 *
 * A goroutine holding s.mu may still take dynamicMu once per port, and an allocation
 * needs dynamicMu alone. The lock holder therefore leaves a worklist behind, which it
 * finishes step by step before s.mu is free again, with allocations in between.
 */
module Registry {
  import opened PortPool

  datatype ClientId = ClientId(text: string)

  datatype ClientConfig = ClientConfig(id: ClientId, ports: seq<int>)

  datatype Config = Config(range: Range, clients: seq<ClientConfig>)

  /** todo: ports the setup loop has not reached; monitored: the monitor has run. */
  datatype Session = Session(client: ClientId, closed: bool, ports: seq<int>, todo: seq<int>, monitored: bool)

  /** serving: the accept loop has not reached its deferred cleanup. */
  datatype Socket = Socket(port: int, owner: nat, open: bool, serving: bool)

  datatype Core = Core(
    clients: map<ClientId, nat>,
    listeners: map<int, nat>,
    used: set<int>,
    sessions: seq<Session>,
    sockets: seq<Socket>
  )

  const EMPTY := Core(map[], map[], {}, [], [])

  /** The ports that setup walks through for a client: every matching entry, in order. */
  function Requests(clients: seq<ClientConfig>, id: ClientId): seq<int> {
    if clients == [] then []
    else (if clients[0].id == id then clients[0].ports else []) + Requests(clients[1..], id)
  }

  /** One entry counts if it is the client's; several count in their order. */
  lemma {:induction false} RequestsInOrder(a: seq<ClientConfig>, b: seq<ClientConfig>, id: ClientId, ports: seq<int>)
    ensures Requests(a + b, id) == Requests(a, id) + Requests(b, id)
    ensures Requests([ClientConfig(id, ports)], id) == ports
  {
    assert [ClientConfig(id, ports)][1..] == [];
    if a == [] {
      assert a + b == b;
    } else {
      assert (a + b)[1..] == a[1..] + b;
      RequestsInOrder(a[1..], b, id, ports);
      var own := if a[0].id == id then a[0].ports else [];
      assert own + (Requests(a[1..], id) + Requests(b, id)) == own + Requests(a[1..], id) + Requests(b, id);
    }
  }

  // ----- the critical sections --------------------------------------------------

  function Close(c: Core, sid: nat): Core {
    if sid < |c.sessions| then c.(sessions := c.sessions[sid := c.sessions[sid].(closed := true)]) else c
  }

  /** Terminates the session stored for this client, if any, and stores the new one. */
  function Register(c: Core, id: ClientId, todo: seq<int>): Core {
    var c := if id in c.clients then Close(c, c.clients[id]) else c;
    c.(clients := c.clients[id := |c.sessions|], sessions := c.sessions + [Session(id, false, [], todo, false)])
  }

  /** A bind fails when the port is already listened on or net.Listen refuses it. */
  predicate BindFails(c: Core, port: int, ok: bool) {
    port in c.listeners || !ok
  }

  function Bind(c: Core, sid: nat, port: int, ok: bool): Core
    requires sid < |c.sessions|
  {
    if BindFails(c, port, ok) then c
    else
      var session := c.sessions[sid];
      c.(listeners := c.listeners[port := |c.sockets|],
         sockets := c.sockets + [Socket(port, sid, true, true)],
         sessions := c.sessions[sid := session.(ports := session.ports + [port])])
  }

  /** The deferred cleanup of an accept loop, up to the release of its port. */
  function Exit(c: Core, s: nat): Core
    requires s < |c.sockets|
  {
    var socket := c.sockets[s];
    c.(sockets := c.sockets[s := socket.(open := false, serving := false)], listeners := c.listeners - {socket.port})
  }

  /** The monitor's critical section, up to its loop over the session's ports. */
  function Forget(c: Core, sid: nat): Core
    requires sid < |c.sessions|
  {
    var session := c.sessions[sid];
    c.(clients := c.clients - {session.client}, sessions := c.sessions[sid := session.(monitored := true)])
  }

  /** What the holder of s.mu still has to do for a port. */
  datatype Work = Unlink(port: int) | GiveBack(port: int)

  function CloseSocket(sockets: seq<Socket>, s: nat): seq<Socket> {
    if s < |sockets| then sockets[s := sockets[s].(open := false)] else sockets
  }

  function Do(c: Core, w: Work): Core {
    match w
    case GiveBack(p) => c.(used := c.used - {p})
    case Unlink(p) =>
      if p in c.listeners
      then c.(listeners := c.listeners - {p}, sockets := CloseSocket(c.sockets, c.listeners[p]))
      else c
  }

  function CleanupWork(ports: seq<int>): seq<Work> {
    if ports == [] then [] else [Unlink(ports[0]), GiveBack(ports[0])] + CleanupWork(ports[1..])
  }

  // ----- the machine ---------------------------------------------------------------

  /** A goroutine that setup has spawned and that has not bound its port yet. */
  datatype Binder = Binder(sid: nat, port: int, dynamic: bool)

  /** work: what the holder of s.mu has still to do before the lock is free again. */
  datatype State = State(core: Core, pending: multiset<Binder>, work: seq<Work>)

  const INITIAL := State(EMPTY, multiset{}, [])

  datatype Step =
    | Arrive(id: ClientId)                     // a control connection has authenticated
    | Setup(sid: nat, bindable: set<int>)      // one turn of the setup loop
    | Listen(binder: Binder, ok: bool)         // a spawned goroutine binds its port
    | Drop(sid: nat)                           // the session closes for any reason
    | Leave(socket: nat)                       // an accept loop ends
    | Monitor(sid: nat)                        // the monitor takes s.mu
    | Proceed                                  // the holder of s.mu does its next piece of work

  /** The ports that listeners still open occupy; net.Listen fails on them. */
  function OpenPorts(sockets: seq<Socket>): set<int> {
    if sockets == [] then {}
    else
      var n := |sockets| - 1;
      OpenPorts(sockets[..n]) + if sockets[n].open then {sockets[n].port} else {}
  }

  lemma {:induction false} OpenPortsExact(sockets: seq<Socket>, p: int)
    ensures p in OpenPorts(sockets) <==> exists s :: 0 <= s < |sockets| && sockets[s].open && sockets[s].port == p
  {
    if sockets != [] {
      var n := |sockets| - 1;
      OpenPortsExact(sockets[..n], p);
      if s :| 0 <= s < n && sockets[s].open && sockets[s].port == p {
        assert sockets[..n][s] == sockets[s];
      }
    }
  }

  predicate Enabled(st: State, step: Step) {
    var c := st.core;
    match step
    case Arrive(_) => st.work == []
    case Setup(sid, bindable) =>
      && sid < |c.sessions| && c.sessions[sid].todo != []
      && bindable !! OpenPorts(c.sockets)
    case Listen(b, ok) =>
      st.work == [] && b in st.pending && b.sid < |c.sessions| && (ok ==> b.port !in OpenPorts(c.sockets))
    case Drop(sid) => sid < |c.sessions|
    case Leave(s) =>
      && st.work == [] && s < |c.sockets| && c.sockets[s].serving
      && c.sockets[s].owner < |c.sessions| && c.sessions[c.sockets[s].owner].closed
    case Monitor(sid) =>
      && st.work == [] && sid < |c.sessions|
      && c.sessions[sid].todo == [] && c.sessions[sid].closed && !c.sessions[sid].monitored
    case Proceed => st.work != []
  }

  /** One turn of the setup loop: allocate if the request is 0, then spawn. */
  function SetupTurn(range: Range, st: State, sid: nat, bindable: set<int>): State
    requires sid < |st.core.sessions| && st.core.sessions[sid].todo != []
  {
    var c := st.core;
    var session := c.sessions[sid];
    var c' := c.(sessions := c.sessions[sid := session.(todo := session.todo[1..])]);
    if session.todo[0] != 0 then
      st.(core := c', pending := st.pending + multiset{Binder(sid, session.todo[0], false)})
    else
      match LeastFree(range, c.used, bindable)
      case None => st.(core := c')
      case Some(p) =>
        st.(core := c'.(used := c.used + {p}), pending := st.pending + multiset{Binder(sid, p, true)})
  }

  /** A step that is not enabled changes nothing, so every sequence of steps is a run. */
  function Next(cfg: Config, st: State, step: Step): State {
    if !Enabled(st, step) then st
    else
      var c := st.core;
      match step
      case Arrive(id) => st.(core := Register(c, id, Requests(cfg.clients, id)))
      case Setup(sid, bindable) => SetupTurn(cfg.range, st, sid, bindable)
      case Listen(b, ok) => st.(core := Bind(c, b.sid, b.port, ok), pending := st.pending - multiset{b})
      case Drop(sid) => st.(core := Close(c, sid))
      case Leave(s) => st.(core := Exit(c, s), work := [GiveBack(c.sockets[s].port)])
      case Monitor(sid) => st.(core := Forget(c, sid), work := CleanupWork(c.sessions[sid].ports))
      case Proceed => st.(core := Do(c, st.work[0]), work := st.work[1..])
  }

  function Exec(cfg: Config, steps: seq<Step>): State {
    if steps == [] then INITIAL else Next(cfg, Exec(cfg, steps[..|steps| - 1]), steps[|steps| - 1])
  }

  // ----- what every interleaving keeps ----------------------------------------------

  /** Names refer to existing sessions and sockets. */
  ghost predicate Linked(c: Core) {
    && (forall id :: id in c.clients ==> c.clients[id] < |c.sessions| && c.sessions[c.clients[id]].client == id)
    && (forall s :: 0 <= s < |c.sockets| ==> c.sockets[s].owner < |c.sessions|)
    && (forall p :: p in c.listeners ==> c.listeners[p] < |c.sockets|)
  }

  /** Every socket's port is in its creator's ActivePorts. */
  ghost predicate Recorded(c: Core)
    requires Linked(c)
  {
    forall s :: 0 <= s < |c.sockets| ==> c.sockets[s].port in c.sessions[c.sockets[s].owner].ports
  }

  /** Every entry of listeners is a still-open listener bound to its own key. */
  ghost predicate Listening(c: Core)
    requires Linked(c)
  {
    forall p :: p in c.listeners ==> c.sockets[c.listeners[p]].open && c.sockets[c.listeners[p]].port == p
  }

  ghost predicate InRange(r: Range, ports: set<int>) {
    forall p :: p in ports ==> r.lo <= p <= r.hi
  }

  ghost predicate CoreOk(r: Range, c: Core) {
    Linked(c) && Recorded(c) && Listening(c) && InRange(r, c.used)
  }

  ghost predicate Ok(r: Range, st: State) {
    CoreOk(r, st.core) && forall b :: b in st.pending ==> b.sid < |st.core.sessions|
  }

  lemma RegisterOk(r: Range, c: Core, id: ClientId, todo: seq<int>)
    requires CoreOk(r, c)
    ensures CoreOk(r, Register(c, id, todo))
  {
  }

  lemma BindOk(r: Range, c: Core, sid: nat, port: int, ok: bool)
    requires CoreOk(r, c) && sid < |c.sessions|
    ensures CoreOk(r, Bind(c, sid, port, ok))
  {
  }

  lemma ExitOk(r: Range, c: Core, s: nat)
    requires CoreOk(r, c) && s < |c.sockets|
    ensures CoreOk(r, Exit(c, s))
  {
  }

  lemma ForgetOk(r: Range, c: Core, sid: nat)
    requires CoreOk(r, c) && sid < |c.sessions|
    ensures CoreOk(r, Forget(c, sid))
  {
  }

  lemma DoOk(r: Range, c: Core, w: Work)
    requires CoreOk(r, c)
    ensures CoreOk(r, Do(c, w))
  {
  }

  lemma SetupOk(r: Range, st: State, sid: nat, bindable: set<int>)
    requires Ok(r, st) && sid < |st.core.sessions| && st.core.sessions[sid].todo != []
    ensures Ok(r, SetupTurn(r, st, sid, bindable))
  {
    match LeastFree(r, st.core.used, bindable)
    case None =>
    case Some(p) => LeastFreeExact(r, st.core.used, bindable, p);
  }

  lemma StepOk(cfg: Config, st: State, step: Step)
    requires Ok(cfg.range, st)
    ensures Ok(cfg.range, Next(cfg, st, step))
  {
    var c := st.core;
    if Enabled(st, step) {
      match step
      case Arrive(id) => RegisterOk(cfg.range, c, id, Requests(cfg.clients, id));
      case Setup(sid, bindable) => SetupOk(cfg.range, st, sid, bindable);
      case Listen(b, ok) => BindOk(cfg.range, c, b.sid, b.port, ok);
      case Drop(sid) =>
      case Leave(s) => ExitOk(cfg.range, c, s);
      case Monitor(sid) => ForgetOk(cfg.range, c, sid);
      case Proceed => DoOk(cfg.range, c, st.work[0]);
    }
  }

  lemma {:induction false} RunOk(cfg: Config, steps: seq<Step>)
    ensures Ok(cfg.range, Exec(cfg, steps))
  {
    if steps != [] {
      RunOk(cfg, steps[..|steps| - 1]);
      StepOk(cfg, Exec(cfg, steps[..|steps| - 1]), steps[|steps| - 1]);
    }
  }

  /** In every interleaving: a table entry is an open listener on its own key, that key is in
      its creator's ActivePorts, and the ports in use lie in the configured range. */
  lemma EveryInterleaving(cfg: Config, steps: seq<Step>, p: int)
    ensures var c := Exec(cfg, steps).core;
      && (p in c.listeners ==>
            && c.listeners[p] < |c.sockets| && c.sockets[c.listeners[p]].owner < |c.sessions|
            && c.sockets[c.listeners[p]].open && c.sockets[c.listeners[p]].port == p
            && p in c.sessions[c.sockets[c.listeners[p]].owner].ports)
      && (p in c.used ==> cfg.range.lo <= p <= cfg.range.hi)
  {
    RunOk(cfg, steps);
  }
}
