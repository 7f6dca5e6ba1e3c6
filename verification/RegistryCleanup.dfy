/**
 * The two cleanup paths of a session: the deferred cleanup of each accept loop and the
 * monitor. On the tables they commute and are idempotent; on the listeners themselves
 * they commute exactly when the accept loop's port is still its own.
 */
module RegistryCleanup {
  import opened PortPool
  import opened Registry

  datatype Cleanup = ByAcceptLoop(socket: nat) | ByMonitor(sid: nat)

  function DoAll(c: Core, work: seq<Work>): Core
    decreases |work|
  {
    if work == [] then c else DoAll(Do(c, work[0]), work[1..])
  }

  /** One cleanup path from taking s.mu to releasing it. */
  function Clean(c: Core, op: Cleanup): Core {
    match op
    case ByAcceptLoop(s) => if s < |c.sockets| then DoAll(Exit(c, s), [GiveBack(c.sockets[s].port)]) else c
    case ByMonitor(sid) => if sid < |c.sessions| then DoAll(Forget(c, sid), CleanupWork(c.sessions[sid].ports)) else c
  }

  /** The holder of s.mu finishes without interruption. */
  function Finish(cfg: Config, st: State): State
    decreases |st.work|
  {
    if st.work == [] then st else Finish(cfg, Next(cfg, st, Proceed))
  }

  lemma {:induction false} FinishDoesAll(cfg: Config, st: State)
    ensures Finish(cfg, st) == st.(core := DoAll(st.core, st.work), work := [])
    decreases |st.work|
  {
    if st.work != [] {
      FinishDoesAll(cfg, Next(cfg, st, Proceed));
    }
  }

  /** Each cleanup path is what the machine's steps amount to when nothing interleaves. */
  lemma CleanIsARun(cfg: Config, st: State, op: Cleanup)
    requires match op
      case ByAcceptLoop(s) => Enabled(st, Leave(s))
      case ByMonitor(sid) => Enabled(st, Monitor(sid))
    ensures var first := match op
        case ByAcceptLoop(s) => Leave(s)
        case ByMonitor(sid) => Monitor(sid);
      Finish(cfg, Next(cfg, st, first)) == st.(core := Clean(st.core, op))
  {
    match op
    case ByAcceptLoop(s) => FinishDoesAll(cfg, Next(cfg, st, Leave(s)));
    case ByMonitor(sid) => FinishDoesAll(cfg, Next(cfg, st, Monitor(sid)));
  }

  lemma {:induction false} DoAllOk(r: Range, c: Core, work: seq<Work>)
    requires CoreOk(r, c)
    ensures CoreOk(r, DoAll(c, work))
    decreases |work|
  {
    if work != [] {
      DoOk(r, c, work[0]);
      DoAllOk(r, Do(c, work[0]), work[1..]);
    }
  }

  lemma CleanOk(r: Range, c: Core, op: Cleanup)
    requires CoreOk(r, c)
    ensures CoreOk(r, Clean(c, op))
  {
    match op
    case ByAcceptLoop(s) =>
      if s < |c.sockets| {
        ExitOk(r, c, s);
        DoAllOk(r, Exit(c, s), [GiveBack(c.sockets[s].port)]);
      }
    case ByMonitor(sid) =>
      if sid < |c.sessions| {
        ForgetOk(r, c, sid);
        DoAllOk(r, Forget(c, sid), CleanupWork(c.sessions[sid].ports));
      }
  }

  /** The ports a cleanup path touches. */
  ghost function Touched(c: Core, op: Cleanup): set<int> {
    match op
    case ByAcceptLoop(s) => if s < |c.sockets| then {c.sockets[s].port} else {}
    case ByMonitor(sid) => if sid < |c.sessions| then set p | p in c.sessions[sid].ports else {}
  }

  /** Same names: no session or socket appears, and none changes port, owner or ActivePorts. */
  ghost predicate SameNames(c: Core, c': Core) {
    && |c'.sessions| == |c.sessions| && |c'.sockets| == |c.sockets|
    && (forall i :: 0 <= i < |c.sessions| ==> c'.sessions[i].ports == c.sessions[i].ports)
    && (forall i :: 0 <= i < |c.sockets| ==> c'.sockets[i].port == c.sockets[i].port)
  }

  lemma {:induction false} DoAllCleanup(c: Core, ports: seq<int>)
    ensures var c' := DoAll(c, CleanupWork(ports));
      && c'.listeners == c.listeners - (set p | p in ports)
      && c'.used == c.used - (set p | p in ports)
      && c'.sessions == c.sessions && c'.clients == c.clients && SameNames(c, c')
    decreases |ports|
  {
    if ports != [] {
      var p, rest := ports[0], ports[1..];
      var c1 := Do(c, Unlink(p));
      var c2 := Do(c1, GiveBack(p));
      var work := CleanupWork(ports);
      assert work[1..][1..] == CleanupWork(rest);
      DoAllCleanup(c2, rest);
      assert (set q | q in ports) == {p} + (set q | q in rest);
    }
  }

  /** A cleanup path removes exactly the ports it touches from both tables. */
  lemma CleanExact(c: Core, op: Cleanup)
    ensures var c' := Clean(c, op);
      && c'.listeners == c.listeners - Touched(c, op)
      && c'.used == c.used - Touched(c, op)
      && SameNames(c, c')
  {
    match op
    case ByAcceptLoop(s) =>
      if s < |c.sockets| {
        var release := [GiveBack(c.sockets[s].port)];
        assert release[1..] == [];
        assert DoAll(Exit(c, s), release) == Do(Exit(c, s), release[0]);
      }
    case ByMonitor(sid) =>
      if sid < |c.sessions| {
        DoAllCleanup(Forget(c, sid), c.sessions[sid].ports);
      }
  }

  function CleanEach(c: Core, ops: seq<Cleanup>): Core
    decreases |ops|
  {
    if ops == [] then c else CleanEach(Clean(c, ops[0]), ops[1..])
  }

  ghost predicate TouchedBy(c: Core, ops: seq<Cleanup>, p: int) {
    exists i :: 0 <= i < |ops| && p in Touched(c, ops[i])
  }

  /** Any sequence of cleanup paths removes exactly the ports that some path in it touches. */
  lemma {:induction false} CleanEachExact(c: Core, ops: seq<Cleanup>, p: int)
    ensures var c' := CleanEach(c, ops);
      && (p in c'.used <==> p in c.used && !TouchedBy(c, ops, p))
      && (p in c'.listeners <==> p in c.listeners && !TouchedBy(c, ops, p))
      && (p in c'.listeners ==> c'.listeners[p] == c.listeners[p])
    decreases |ops|
  {
    if ops != [] {
      CleanExact(c, ops[0]);
      var c1, rest := Clean(c, ops[0]), ops[1..];
      CleanEachExact(c1, rest, p);
      assert forall i :: 0 <= i < |rest| ==> rest[i] == ops[i + 1] && Touched(c1, rest[i]) == Touched(c, ops[i + 1]);
      if TouchedBy(c, ops, p) {
        var i :| 0 <= i < |ops| && p in Touched(c, ops[i]);
        if i > 0 {
          assert p in Touched(c1, rest[i - 1]);
        }
      }
    }
  }

  /** All cleanup paths of a session: its monitor, or an accept loop for each of its ports. */
  ghost predicate CoversSession(c: Core, ops: seq<Cleanup>, sid: nat) {
    && sid < |c.sessions|
    && (forall i :: 0 <= i < |ops| ==> match ops[i]
          case ByMonitor(of) => of == sid
          case ByAcceptLoop(s) => s < |c.sockets| && c.sockets[s].port in c.sessions[sid].ports)
    && (ByMonitor(sid) in ops ||
        forall p :: p in c.sessions[sid].ports ==>
          exists i :: 0 <= i < |ops| && ops[i].ByAcceptLoop? && c.sockets[ops[i].socket].port == p)
  }

  /**
   * The cleanup paths of a session commute and are idempotent: any order and repetition that covers
   * its ports ends in the same two tables, with every other port untouched.
   */
  lemma CleanupCommutes(c: Core, ops: seq<Cleanup>, sid: nat)
    requires CoversSession(c, ops, sid)
    ensures CleanEach(c, ops).listeners == c.listeners - (set p | p in c.sessions[sid].ports)
    ensures CleanEach(c, ops).used == c.used - (set p | p in c.sessions[sid].ports)
  {
    var ports := set p | p in c.sessions[sid].ports;
    forall p
      ensures TouchedBy(c, ops, p) <==> p in ports
    {
      if p in ports {
        if ByMonitor(sid) in ops {
          var i :| 0 <= i < |ops| && ops[i] == ByMonitor(sid);
          assert p in Touched(c, ops[i]);
        } else {
          var i :| 0 <= i < |ops| && ops[i].ByAcceptLoop? && c.sockets[ops[i].socket].port == p;
          assert p in Touched(c, ops[i]);
        }
      }
    }
    forall p
      ensures p in CleanEach(c, ops).used <==> p in c.used && p !in ports
      ensures p in CleanEach(c, ops).listeners <==> p in c.listeners && p !in ports
      ensures p in CleanEach(c, ops).listeners ==> CleanEach(c, ops).listeners[p] == c.listeners[p]
    {
      CleanEachExact(c, ops, p);
    }
  }

  // ----- the listeners themselves --------------------------------------------------

  /** The listeners that unlinking these ports closes. */
  ghost predicate Closes(c: Core, ports: seq<int>, s: int) {
    exists p :: p in ports && p in c.listeners && c.listeners[p] == s
  }

  lemma {:induction false} DoAllCloses(c: Core, ports: seq<int>, s: nat)
    requires s < |c.sockets|
    ensures var c' := DoAll(c, CleanupWork(ports));
      |c'.sockets| == |c.sockets| &&
      c'.sockets[s] == if Closes(c, ports, s) then c.sockets[s].(open := false) else c.sockets[s]
    decreases |ports|
  {
    if ports != [] {
      var p, rest := ports[0], ports[1..];
      var c2 := Do(Do(c, Unlink(p)), GiveBack(p));
      assert CleanupWork(ports)[1..][1..] == CleanupWork(rest);
      DoAllCloses(c2, rest, s);
      if Closes(c, ports, s) && !(p in c.listeners && c.listeners[p] == s) {
        var q :| q in ports && q in c.listeners && c.listeners[q] == s;
        assert q in rest && q in c2.listeners;
      }
    }
  }

  /** What each order leaves of listener j. */
  lemma BothOrders(c: Core, s: nat, j: nat)
    requires s < |c.sockets| && j < |c.sockets| && c.sockets[s].owner < |c.sessions|
    ensures var sid, p := c.sockets[s].owner, c.sockets[s].port;
      var ports := c.sessions[sid].ports;
      var last := Clean(Clean(c, ByAcceptLoop(s)), ByMonitor(sid)).sockets;
      var first := Clean(Clean(c, ByMonitor(sid)), ByAcceptLoop(s)).sockets;
      && |last| == |c.sockets| == |first|
      && last[j] == (if j == s then c.sockets[s].(open := false, serving := false)
                     else if Closes(Exit(c, s), ports, j) then c.sockets[j].(open := false) else c.sockets[j])
      && first[j] == (if j == s then c.sockets[s].(open := false, serving := false)
                      else if Closes(c, ports, j) then c.sockets[j].(open := false) else c.sockets[j])
  {
    var sid, p := c.sockets[s].owner, c.sockets[s].port;
    var ports := c.sessions[sid].ports;
    var release := [GiveBack(p)];
    assert release[1..] == [];
    var c1 := Clean(c, ByAcceptLoop(s));
    assert c1 == DoAll(Exit(c, s), release) == Do(Exit(c, s), release[0]);
    assert c1.listeners == Exit(c, s).listeners && c1.sockets == Exit(c, s).sockets && c1.sessions == c.sessions;
    DoAllCloses(Forget(c1, sid), ports, j);
    assert Closes(Forget(c1, sid), ports, j) == Closes(Exit(c, s), ports, j);
    var c2 := Clean(c, ByMonitor(sid));
    DoAllCloses(Forget(c, sid), ports, j);
    DoAllCleanup(Forget(c, sid), ports);
    assert Closes(Forget(c, sid), ports, j) == Closes(c, ports, j);
    assert c2.sockets[s].port == p && |c2.sockets| == |c.sockets|;
    assert DoAll(Exit(c2, s), release) == Do(Exit(c2, s), release[0]);
    if j == s {
      DoAllCloses(Forget(c, sid), ports, s);
    }
  }

  /** Closing a foreign listener on the loop's own port is all that the orders differ in. */
  lemma ExitCloses(r: Range, c: Core, s: nat, ports: seq<int>, j: nat)
    requires CoreOk(r, c) && s < |c.sockets| && j < |c.sockets| && j != s && c.sockets[s].port in ports
    ensures Closes(Exit(c, s), ports, j) <==>
      Closes(c, ports, j) && !(c.sockets[s].port in c.listeners && c.listeners[c.sockets[s].port] == j)
  {
    var p := c.sockets[s].port;
    if Closes(c, ports, j) {
      var q :| q in ports && q in c.listeners && c.listeners[q] == j;
      assert q == c.sockets[j].port;
      assert q != p ==> q in Exit(c, s).listeners;
    }
  }

  /** The listeners left open do not depend on the order exactly when the accept loop's port is
      free or still its own; otherwise only the monitor-first order closes the stranger. */
  lemma ListenersCommute(r: Range, c: Core, s: nat)
    requires CoreOk(r, c) && s < |c.sockets|
    ensures var sid, p := c.sockets[s].owner, c.sockets[s].port;
      var monitorLast := Clean(Clean(c, ByAcceptLoop(s)), ByMonitor(sid));
      var monitorFirst := Clean(Clean(c, ByMonitor(sid)), ByAcceptLoop(s));
      monitorLast.sockets == monitorFirst.sockets <==> (p in c.listeners ==> c.listeners[p] == s)
  {
    var sid, p := c.sockets[s].owner, c.sockets[s].port;
    var ports := c.sessions[sid].ports;
    var last := Clean(Clean(c, ByAcceptLoop(s)), ByMonitor(sid)).sockets;
    var first := Clean(Clean(c, ByMonitor(sid)), ByAcceptLoop(s)).sockets;
    BothOrders(c, s, s);
    if p in c.listeners && c.listeners[p] != s {
      var l := c.listeners[p];
      BothOrders(c, s, l);
      ExitCloses(r, c, s, ports, l);
      assert Closes(c, ports, l);
      assert last[l].open && !first[l].open;
    } else {
      forall j | 0 <= j < |c.sockets| ensures last[j] == first[j] {
        BothOrders(c, s, j);
        if j != s {
          ExitCloses(r, c, s, ports, j);
        }
      }
    }
  }
}
