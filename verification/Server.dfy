/**
 * The server's tables and the methods that update them in place. Each method is what
 * one goroutine does when nothing interleaves, proved against the steps of the state
 * machine in Registry, and keeps the invariant of its runs. Sessions and listeners are
 * records in two tables that only grow; a *ClientSession or net.Listener of the program
 * is an index into them.
 */
module Servers {
  import opened Bytes
  import opened PortPool
  import opened Registry
  import opened RegistryCleanup

  lemma UsedOk(r: Range, c: Core, used: set<int>)
    requires CoreOk(r, c) && InRange(r, used)
    ensures CoreOk(r, c.(used := used))
  {
  }

  class Server {
    const configClients: seq<ClientConfig>
    const dynamicPortMin: int
    const dynamicPortMax: int

    var clients: map<ClientId, nat>
    var listeners: map<int, nat>
    var usedPorts: set<int>
    var sessions: seq<Session>
    var sockets: seq<Socket>

    constructor (configClients: seq<ClientConfig>, dynamicPortMin: int, dynamicPortMax: int)
      ensures Valid() && View() == EMPTY
      ensures this.configClients == configClients
      ensures this.dynamicPortMin == dynamicPortMin && this.dynamicPortMax == dynamicPortMax
    {
      this.configClients := configClients;
      this.dynamicPortMin, this.dynamicPortMax := dynamicPortMin, dynamicPortMax;
      clients, listeners, usedPorts, sessions, sockets := map[], map[], {}, [], [];
    }

    ghost function View(): Core
      reads this
    {
      Core(clients, listeners, usedPorts, sessions, sockets)
    }

    ghost function PoolRange(): Range {
      PortRange(dynamicPortMin, dynamicPortMax)
    }

    /** The invariant of every interleaving, of the tables as they stand. */
    ghost predicate Valid()
      reads this
    {
      CoreOk(PoolRange(), View())
    }

    method GetDynamicPortRange() returns (minPort: int, maxPort: int)
      ensures Range(minPort, maxPort) == PoolRange()
    {
      minPort, maxPort := dynamicPortMin, dynamicPortMax;
      if minPort <= 0 {
        minPort := 40000;
      }
      if maxPort <= 0 {
        maxPort := 50000;
      }
      if minPort > maxPort {
        minPort, maxPort := 40000, 50000;
      }
    }

    /** The scan: the least port of the range that is unused and that net.Listen accepts. */
    method AllocateDynamicPort(bindable: set<int>) returns (granted: Option<int>)
      requires Valid()
      modifies this`usedPorts
      ensures Valid()
      ensures granted == LeastFree(PoolRange(), old(usedPorts), bindable)
      ensures usedPorts == if granted.Some? then old(usedPorts) + {granted.value} else old(usedPorts)
    {
      var minPort, maxPort := GetDynamicPortRange();
      ghost var r := PoolRange();
      var port := minPort;
      while port <= maxPort
        invariant usedPorts == old(usedPorts)
        invariant r.lo <= port <= r.hi + 1 && Scanned(r, usedPorts, bindable, port)
      {
        ScanStep(r, usedPorts, bindable, port);
        if port !in usedPorts {
          if port in bindable {
            usedPorts := usedPorts + {port};
            UsedOk(r, old(View()), usedPorts);
            return Some(port);
          }
        }
        port := port + 1;
      }
      ScanDone(r, usedPorts, bindable);
      return None;
    }

    method ReleaseDynamicPort(port: int)
      requires Valid()
      modifies this`usedPorts
      ensures Valid()
      ensures View() == Do(old(View()), GiveBack(port))
    {
      DoOk(PoolRange(), View(), GiveBack(port));
      usedPorts := usedPorts - {port};
    }

    /** Stores a new session, terminating the one stored for the same client. */
    method RegisterSession(id: ClientId) returns (sid: nat)
      requires Valid()
      modifies this`clients, this`sessions
      ensures Valid()
      ensures sid == |old(sessions)|
      ensures View() == Register(old(View()), id, Requests(configClients, id))
    {
      RegisterOk(PoolRange(), View(), id, Requests(configClients, id));
      if id in clients {
        var stale := clients[id];
        if stale < |sessions| {
          sessions := sessions[stale := sessions[stale].(closed := true)];
        }
      }
      sid := |sessions|;
      clients := clients[id := sid];
      sessions := sessions + [Session(id, false, [], Requests(configClients, id), false)];
    }

    /** One configured port: allocate if it is 0, then spawn; an exhausted pool spawns nothing. */
    method SetupPort(port: int, bindable: set<int>) returns (spawned: seq<Spawn>)
      requires Valid()
      modifies this`usedPorts
      ensures Valid()
      ensures (spawned, usedPorts) == Turn(PoolRange(), old(usedPorts), bindable, port)
    {
      var actualPort := port;
      if port == 0 {
        var granted := AllocateDynamicPort(bindable);
        if granted.None? {
          return [];
        }
        actualPort := granted.value;
      }
      return [Spawn(actualPort, port == 0)];
    }

    /** The inner loop of setup, over the ports of one matching configuration entry. */
    method SetupPorts(ports: seq<int>, bindable: set<int>, before: seq<Spawn>,
                      ghost plan: seq<Spawn>, ghost used0: set<int>, ghost later: seq<int>) returns (spawned: seq<Spawn>)
      requires Valid() && OnPlan(PoolRange(), bindable, plan, used0, before, usedPorts, ports + later)
      modifies this`usedPorts
      ensures Valid()
      ensures OnPlan(PoolRange(), bindable, plan, used0, spawned, usedPorts, later)
    {
      ghost var r := PoolRange();
      spawned := before;
      assert ports[0..] == ports;
      for j := 0 to |ports|
        invariant Valid() && OnPlan(r, bindable, plan, used0, spawned, usedPorts, ports[j..] + later)
      {
        PortOnPlan(r, bindable, plan, used0, spawned, usedPorts, ports, j, later);
        var more := SetupPort(ports[j], bindable);
        spawned := spawned + more;
      }
      assert ports[|ports|..] + later == later;
    }

    /** Both loops of setup, with the bindable ports fixed and nothing allocated or released meanwhile. */
    method SetupClientListeners(id: ClientId, bindable: set<int>) returns (spawned: seq<Spawn>)
      requires Valid()
      modifies this`usedPorts
      ensures Valid()
      ensures var free := FreePorts(PoolRange(), old(usedPorts), bindable);
        var requests := Requests(configClients, id);
        && spawned == Plan(requests, free)
        && usedPorts == old(usedPorts) + (set p | p in free[..Min(DynamicCount(requests), |free|)])
    {
      ghost var r := PoolRange();
      ghost var requests := Requests(configClients, id);
      ghost var used0 := usedPorts;
      ghost var plan := Plan(requests, FreePorts(r, used0, bindable));
      spawned := [];
      assert configClients[0..] == configClients && [] + plan == plan;
      for i := 0 to |configClients|
        invariant Valid() && OnPlan(r, bindable, plan, used0, spawned, usedPorts, Requests(configClients[i..], id))
      {
        ghost var later := Requests(configClients[i + 1..], id);
        assert configClients[i..][1..] == configClients[i + 1..];
        if configClients[i].id == id {
          spawned := SetupPorts(configClients[i].ports, bindable, spawned, plan, used0, later);
        } else {
          assert [] + later == later;
        }
      }
      assert Requests(configClients[|configClients|..], id) == [];
      PlanDone(r, bindable, requests, used0, spawned, usedPorts);
    }

    /** What a spawned goroutine does before its accept loop. */
    method StartProxyListener(port: int, sid: nat, listenOk: bool) returns (bound: bool)
      requires Valid() && sid < |sessions|
      modifies this`listeners, this`sockets, this`sessions
      ensures Valid()
      ensures bound <==> !BindFails(old(View()), port, listenOk)
      ensures View() == Bind(old(View()), sid, port, listenOk)
    {
      BindOk(PoolRange(), View(), sid, port, listenOk);
      if port in listeners {
        return false;
      }
      if !listenOk {
        return false;
      }
      listeners := listeners[port := |sockets|];
      sockets := sockets + [Socket(port, sid, true, true)];
      sessions := sessions[sid := sessions[sid].(ports := sessions[sid].ports + [port])];
      bound := true;
    }

    /** The deferred cleanup of an accept loop. */
    method StopProxyListener(s: nat)
      requires Valid() && s < |sockets|
      modifies this`listeners, this`sockets, this`usedPorts
      ensures Valid()
      ensures View() == Clean(old(View()), ByAcceptLoop(s))
      ensures listeners == old(listeners) - {old(sockets)[s].port} && usedPorts == old(usedPorts) - {old(sockets)[s].port}
    {
      ExitOk(PoolRange(), View(), s);
      var port := sockets[s].port;
      sockets := sockets[s := sockets[s].(open := false, serving := false)];
      listeners := listeners - {port};
      ghost var release := [GiveBack(port)];
      assert release[1..] == [];
      assert DoAll(View(), release) == Do(View(), release[0]);
      ReleaseDynamicPort(port);
    }

    /** The monitor's cleanup: forget the client, then close, unlist and release each of its ports. */
    method MonitorSession(sid: nat)
      requires Valid() && sid < |sessions|
      modifies this
      ensures Valid()
      ensures View() == Clean(old(View()), ByMonitor(sid))
      ensures var ports := set p | p in old(sessions)[sid].ports;
        listeners == old(listeners) - ports && usedPorts == old(usedPorts) - ports
    {
      CleanExact(View(), ByMonitor(sid));
      CleanOk(PoolRange(), View(), ByMonitor(sid));
      ForgetOk(PoolRange(), View(), sid);
      var ports := sessions[sid].ports;
      clients := clients - {sessions[sid].client};
      sessions := sessions[sid := sessions[sid].(monitored := true)];
      ghost var done := DoAll(View(), CleanupWork(ports));
      assert ports[0..] == ports;
      for i := 0 to |ports|
        invariant Valid() && DoAll(View(), CleanupWork(ports[i..])) == done
      {
        ghost var work := CleanupWork(ports[i..]);
        assert ports[i..][1..] == ports[i + 1..] && work[1..][1..] == CleanupWork(ports[i + 1..]);
        ghost var before := View();
        assert DoAll(before, work) == DoAll(Do(before, Unlink(ports[i])), work[1..]);
        if ports[i] in listeners {
          var l := listeners[ports[i]];
          if l < |sockets| {
            sockets := sockets[l := sockets[l].(open := false)];
          }
          listeners := listeners - {ports[i]};
        }
        assert View() == Do(before, Unlink(ports[i]));
        DoOk(PoolRange(), before, Unlink(ports[i]));
        ReleaseDynamicPort(ports[i]);
      }
      assert CleanupWork(ports[|ports|..]) == [];
    }
  }
}
