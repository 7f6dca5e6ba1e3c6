/**
 * The dynamic port pool: which port an allocation hands out, which ports a whole
 * setup asks for, and what any trace of allocations and releases leaves in use.
 * Whether net.Listen succeeds on a port is an oracle: the set of bindable ports.
 */
module PortPool {
  import opened Bytes

  datatype Option<+T> = None | Some(value: T)

  /** The inclusive bounds that GetDynamicPortRange computes. */
  datatype Range = Range(lo: int, hi: int)

  const DEFAULT_RANGE := Range(40000, 50000)

  function PortRange(configMin: int, configMax: int): (r: Range)
    ensures 1 <= r.lo <= r.hi
    ensures 0 < configMin <= configMax ==> r == Range(configMin, configMax)
    ensures 0 < configMax < configMin ==> r == Range(40000, 50000)
    ensures configMin <= 0 && configMax <= 0 ==> r == Range(40000, 50000)
    ensures configMin <= 0 < configMax ==> r == Range(40000, if 40000 <= configMax then configMax else 50000)
    ensures configMax <= 0 < configMin ==> r == Range(if configMin <= 50000 then configMin else 40000, 50000)
  {
    var lo := if configMin <= 0 then 40000 else configMin;
    var hi := if configMax <= 0 then 50000 else configMax;
    if lo > hi then DEFAULT_RANGE else Range(lo, hi)
  }

  /** May an allocation hand out this port? */
  predicate Free(r: Range, used: set<int>, bindable: set<int>, p: int) {
    r.lo <= p <= r.hi && p !in used && p in bindable
  }

  // ----- the free ports, in ascending order ------------------------------------

  function FreePorts(r: Range, used: set<int>, bindable: set<int>): seq<int>
    decreases r.hi - r.lo
  {
    if r.lo > r.hi then []
    else (if r.lo !in used && r.lo in bindable then [r.lo] else []) + FreePorts(Range(r.lo + 1, r.hi), used, bindable)
  }

  /** Strictly ascending, hence pairwise distinct, and exactly the free ports. */
  lemma {:induction false} FreePortsExact(r: Range, used: set<int>, bindable: set<int>)
    ensures forall i, j :: 0 <= i < j < |FreePorts(r, used, bindable)| ==>
      FreePorts(r, used, bindable)[i] < FreePorts(r, used, bindable)[j]
    ensures forall p :: p in FreePorts(r, used, bindable) <==> Free(r, used, bindable, p)
    decreases r.hi - r.lo
  {
    if r.lo <= r.hi {
      var rest := Range(r.lo + 1, r.hi);
      FreePortsExact(rest, used, bindable);
      assert forall p :: Free(r, used, bindable, p) <==>
        (p == r.lo && r.lo !in used && r.lo in bindable) || Free(rest, used, bindable, p);
      var tail := FreePorts(rest, used, bindable);
      forall i | 0 <= i < |tail| ensures tail[i] > r.lo {
        assert tail[i] in tail;
      }
    }
  }

  /** Using a port outside the range leaves the free list alone. */
  lemma {:induction false} FreePortsIgnore(r: Range, used: set<int>, bindable: set<int>, p: int)
    requires p < r.lo
    ensures FreePorts(r, used + {p}, bindable) == FreePorts(r, used, bindable)
    decreases r.hi - r.lo
  {
    if r.lo <= r.hi {
      FreePortsIgnore(Range(r.lo + 1, r.hi), used, bindable, p);
    }
  }

  /** Taking the least free port removes exactly the head of the free list. */
  lemma {:induction false} FreePortsTake(r: Range, used: set<int>, bindable: set<int>)
    requires FreePorts(r, used, bindable) != []
    ensures var free := FreePorts(r, used, bindable);
      FreePorts(r, used + {free[0]}, bindable) == free[1..]
    decreases r.hi - r.lo
  {
    var rest := Range(r.lo + 1, r.hi);
    if r.lo !in used && r.lo in bindable {
      FreePortsIgnore(rest, used, bindable, r.lo);
    } else {
      FreePortsTake(rest, used, bindable);
    }
  }

  /** The port an allocation hands out. */
  function LeastFree(r: Range, used: set<int>, bindable: set<int>): Option<int> {
    var free := FreePorts(r, used, bindable);
    if free == [] then None else Some(free[0])
  }

  /** A success is the least free port; exhaustion means that no port was free. */
  lemma LeastFreeExact(r: Range, used: set<int>, bindable: set<int>, p: int)
    ensures LeastFree(r, used, bindable) == Some(p) <==>
      Free(r, used, bindable, p) && forall q :: Free(r, used, bindable, q) ==> p <= q
    ensures LeastFree(r, used, bindable) == None <==> forall q :: !Free(r, used, bindable, q)
  {
    FreePortsExact(r, used, bindable);
    var free := FreePorts(r, used, bindable);
    if free != [] {
      assert free[0] in free;
      forall q | Free(r, used, bindable, q) ensures free[0] <= q {
        var i :| 0 <= i < |free| && free[i] == q;
      }
    }
  }

  /** A scan of the range that has reached port has passed over no free port. */
  ghost predicate Scanned(r: Range, used: set<int>, bindable: set<int>, port: int) {
    forall q :: Free(r, used, bindable, q) ==> port <= q
  }

  lemma ScanStep(r: Range, used: set<int>, bindable: set<int>, port: int)
    requires Scanned(r, used, bindable, port) && r.lo <= port <= r.hi
    ensures if port !in used && port in bindable then LeastFree(r, used, bindable) == Some(port)
            else Scanned(r, used, bindable, port + 1)
  {
    LeastFreeExact(r, used, bindable, port);
  }

  lemma ScanDone(r: Range, used: set<int>, bindable: set<int>)
    requires Scanned(r, used, bindable, r.hi + 1)
    ensures LeastFree(r, used, bindable) == None
  {
    LeastFreeExact(r, used, bindable, r.lo);
  }

  // ----- traces of allocations and releases ------------------------------------

  datatype PoolEvent = Allocate(bindable: set<int>) | Release(port: int)

  function Used(r: Range, trace: seq<PoolEvent>): set<int> {
    if trace == [] then {}
    else
      var before := Used(r, trace[..|trace| - 1]);
      match trace[|trace| - 1]
      case Release(p) => before - {p}
      case Allocate(bindable) =>
        match LeastFree(r, before, bindable)
        case None => before
        case Some(p) => before + {p}
  }

  /** The port that the i-th event of the trace hands out, if it does. */
  function Granted(r: Range, trace: seq<PoolEvent>, i: nat): Option<int>
    requires i < |trace|
  {
    if trace[i].Allocate? then LeastFree(r, Used(r, trace[..i]), trace[i].bindable) else None
  }

  /** Event i handed out p and no later event gives it back. */
  ghost predicate Outstanding(r: Range, trace: seq<PoolEvent>, p: int, i: int) {
    && 0 <= i < |trace|
    && Granted(r, trace, i) == Some(p)
    && forall k :: i < k < |trace| ==> trace[k] != Release(p)
  }

  lemma GrantedPrefix(r: Range, trace: seq<PoolEvent>, n: nat, i: nat)
    requires i < n <= |trace|
    ensures Granted(r, trace[..n], i) == Granted(r, trace, i)
  {
    assert trace[..n][..i] == trace[..i];
  }

  lemma OutstandingPrefix(r: Range, trace: seq<PoolEvent>, p: int, i: int)
    requires trace != [] && i < |trace| - 1
    ensures Outstanding(r, trace, p, i) <==>
      Outstanding(r, trace[..|trace| - 1], p, i) && trace[|trace| - 1] != Release(p)
  {
    if 0 <= i {
      GrantedPrefix(r, trace, |trace| - 1, i);
    }
  }

  lemma UsedSnoc(r: Range, trace: seq<PoolEvent>, p: int)
    requires trace != []
    ensures var n := |trace| - 1;
      p in Used(r, trace) <==> Granted(r, trace, n) == Some(p) || (p in Used(r, trace[..n]) && trace[n] != Release(p))
  {
  }

  /** The ports in use are exactly those handed out and not given back since. */
  lemma {:induction false} UsedIsOutstanding(r: Range, trace: seq<PoolEvent>, p: int)
    ensures p in Used(r, trace) <==> exists i :: Outstanding(r, trace, p, i)
  {
    if trace != [] {
      var n := |trace| - 1;
      UsedIsOutstanding(r, trace[..n], p);
      UsedSnoc(r, trace, p);
      forall i | i < n
        ensures Outstanding(r, trace, p, i) <==> Outstanding(r, trace[..n], p, i) && trace[n] != Release(p)
      {
        OutstandingPrefix(r, trace, p, i);
      }
      assert Outstanding(r, trace, p, n) <==> Granted(r, trace, n) == Some(p);
    }
  }

  /** Two allocations of one port always have a release of it between them. */
  lemma NoDoubleGrant(r: Range, trace: seq<PoolEvent>, p: int, i: nat, j: nat)
    requires i < j < |trace| && Granted(r, trace, i) == Some(p) == Granted(r, trace, j)
    ensures exists k :: i < k < j && trace[k] == Release(p)
  {
    var before := trace[..j];
    if forall k :: i < k < j ==> trace[k] != Release(p) {
      GrantedPrefix(r, trace, j, i);
      assert Outstanding(r, before, p, i);
      UsedIsOutstanding(r, before, p);
      LeastFreeExact(r, Used(r, before), trace[j].bindable, p);
      assert false;
    }
  }

  /** What every event of a trace hands out, in terms of the ports then in use. */
  lemma GrantExact(r: Range, trace: seq<PoolEvent>, i: nat)
    requires i < |trace| && trace[i].Allocate?
    ensures var used := Used(r, trace[..i]);
      match Granted(r, trace, i)
      case Some(p) => Free(r, used, trace[i].bindable, p) && forall q :: Free(r, used, trace[i].bindable, q) ==> p <= q
      case None => forall q :: r.lo <= q <= r.hi ==> q in used || q !in trace[i].bindable
  {
    var used := Used(r, trace[..i]);
    match Granted(r, trace, i)
    case Some(p) => LeastFreeExact(r, used, trace[i].bindable, p);
    case None =>
      LeastFreeExact(r, used, trace[i].bindable, 0);
      forall q | r.lo <= q <= r.hi ensures q in used || q !in trace[i].bindable {
        assert !Free(r, used, trace[i].bindable, q);
      }
  }

  lemma {:induction false} UsedInRange(r: Range, trace: seq<PoolEvent>)
    ensures forall p :: p in Used(r, trace) ==> r.lo <= p <= r.hi
  {
    forall p | p in Used(r, trace) ensures r.lo <= p <= r.hi {
      UsedIsOutstanding(r, trace, p);
      var i :| Outstanding(r, trace, p, i);
      LeastFreeExact(r, Used(r, trace[..i]), trace[i].bindable, p);
    }
  }

  // ----- a whole setup ------------------------------------------------------------

  /** A listener that setup spawns: a configured port, or one allocated for a request of 0. */
  datatype Spawn = Spawn(port: int, dynamic: bool)

  /** What setup spawns for these requests when these ports are free. */
  function Plan(requests: seq<int>, free: seq<int>): seq<Spawn> {
    if requests == [] then []
    else if requests[0] != 0 then [Spawn(requests[0], false)] + Plan(requests[1..], free)
    else if free == [] then Plan(requests[1..], free)
    else [Spawn(free[0], true)] + Plan(requests[1..], free[1..])
  }

  function DynamicCount(requests: seq<int>): nat {
    if requests == [] then 0 else (if requests[0] == 0 then 1 else 0) + DynamicCount(requests[1..])
  }

  function StaticPorts(requests: seq<int>): seq<int> {
    if requests == [] then [] else (if requests[0] != 0 then [requests[0]] else []) + StaticPorts(requests[1..])
  }

  /** The ports of one kind among the spawned listeners, in spawning order. */
  function Select(spawned: seq<Spawn>, dynamic: bool): seq<int> {
    if spawned == [] then []
    else (if spawned[0].dynamic == dynamic then [spawned[0].port] else []) + Select(spawned[1..], dynamic)
  }

  /** k requests and f free ports: the min(k, f) smallest free ports, in order, and every
      configured port unchanged. */
  lemma {:induction false} PlanExact(requests: seq<int>, free: seq<int>)
    ensures Select(Plan(requests, free), true) == free[..Min(DynamicCount(requests), |free|)]
    ensures Select(Plan(requests, free), false) == StaticPorts(requests)
  {
    if requests != [] {
      var plan, rest := Plan(requests, free), requests[1..];
      if requests[0] != 0 {
        PlanExact(rest, free);
        assert plan[1..] == Plan(rest, free);
      } else if free == [] {
        PlanExact(rest, free);
      } else {
        PlanExact(rest, free[1..]);
        assert plan[1..] == Plan(rest, free[1..]);
        var m := Min(DynamicCount(rest), |free| - 1);
        assert [free[0]] + free[1..][..m] == free[..m + 1];
      }
    }
  }

  /** While free ports last, the i-th spawned listener answers the i-th request. */
  lemma {:induction false} PlanInOrder(requests: seq<int>, free: seq<int>, i: nat)
    requires i < |requests| && DynamicCount(requests) <= |free|
    ensures |Plan(requests, free)| == |requests|
    ensures DynamicCount(requests[..i]) <= DynamicCount(requests)
    ensures requests[i] != 0 ==> Plan(requests, free)[i] == Spawn(requests[i], false)
    ensures requests[i] == 0 ==>
      (DynamicCount(requests[..i]) < |free| && Plan(requests, free)[i] == Spawn(free[DynamicCount(requests[..i])], true))
  {
    var rest := requests[1..];
    var left := if requests[0] == 0 then free[1..] else free;
    if i > 0 {
      PlanInOrder(rest, left, i - 1);
      assert requests[..i][1..] == rest[..i - 1];
    } else if rest != [] {
      PlanInOrder(rest, left, 0);
    }
  }

  /** One turn of the setup loop: the listeners it spawns and the ports then in use. */
  function Turn(r: Range, used: set<int>, bindable: set<int>, request: int): (seq<Spawn>, set<int>) {
    if request != 0 then ([Spawn(request, false)], used)
    else
      match LeastFree(r, used, bindable)
      case None => ([], used)
      case Some(p) => ([Spawn(p, true)], used + {p})
  }

  /** A setup under way: what is spawned and used so far completes to the plan. */
  ghost predicate OnPlan(r: Range, bindable: set<int>, plan: seq<Spawn>, used0: set<int>,
                         spawned: seq<Spawn>, used: set<int>, rest: seq<int>)
  {
    && plan == spawned + Plan(rest, FreePorts(r, used, bindable))
    && forall p :: p in used <==> p in used0 || Spawn(p, true) in spawned
  }

  lemma PlanTurn(r: Range, used: set<int>, bindable: set<int>, requests: seq<int>)
    requires requests != []
    ensures var t := Turn(r, used, bindable, requests[0]);
      Plan(requests, FreePorts(r, used, bindable)) == t.0 + Plan(requests[1..], FreePorts(r, t.1, bindable))
  {
    if FreePorts(r, used, bindable) != [] {
      FreePortsTake(r, used, bindable);
    }
  }

  lemma TurnOnPlan(r: Range, bindable: set<int>, plan: seq<Spawn>, used0: set<int>,
                   spawned: seq<Spawn>, used: set<int>, rest: seq<int>)
    requires rest != [] && OnPlan(r, bindable, plan, used0, spawned, used, rest)
    ensures var t := Turn(r, used, bindable, rest[0]);
      OnPlan(r, bindable, plan, used0, spawned + t.0, t.1, rest[1..])
  {
    PlanTurn(r, used, bindable, rest);
    var t := Turn(r, used, bindable, rest[0]);
    var tail := Plan(rest[1..], FreePorts(r, t.1, bindable));
    assert spawned + (t.0 + tail) == (spawned + t.0) + tail;
  }

  /** The same for the j-th port of one configuration entry. */
  lemma PortOnPlan(r: Range, bindable: set<int>, plan: seq<Spawn>, used0: set<int>,
                   spawned: seq<Spawn>, used: set<int>, ports: seq<int>, j: nat, later: seq<int>)
    requires j < |ports| && OnPlan(r, bindable, plan, used0, spawned, used, ports[j..] + later)
    ensures var t := Turn(r, used, bindable, ports[j]);
      OnPlan(r, bindable, plan, used0, spawned + t.0, t.1, ports[j + 1..] + later)
  {
    var rest := ports[j..] + later;
    assert rest[1..] == ports[j + 1..] + later;
    TurnOnPlan(r, bindable, plan, used0, spawned, used, rest);
  }

  lemma {:induction false} SelectMembers(spawned: seq<Spawn>, p: int)
    ensures p in Select(spawned, true) <==> Spawn(p, true) in spawned
  {
    if spawned != [] {
      SelectMembers(spawned[1..], p);
    }
  }

  /** The allocated ports of a plan are the smallest free ones, as many as were asked for. */
  lemma PlanAllocates(requests: seq<int>, free: seq<int>, p: int)
    ensures Spawn(p, true) in Plan(requests, free) <==> p in free[..Min(DynamicCount(requests), |free|)]
  {
    PlanExact(requests, free);
    SelectMembers(Plan(requests, free), p);
  }

  /** A setup that has served every request has spawned the plan and uses its ports. */
  lemma PlanDone(r: Range, bindable: set<int>, requests: seq<int>, used0: set<int>, spawned: seq<Spawn>, used: set<int>)
    requires OnPlan(r, bindable, Plan(requests, FreePorts(r, used0, bindable)), used0, spawned, used, [])
    ensures var free := FreePorts(r, used0, bindable);
      && spawned == Plan(requests, free)
      && used == used0 + (set p | p in free[..Min(DynamicCount(requests), |free|)])
  {
    var free := FreePorts(r, used0, bindable);
    assert spawned + [] == spawned;
    forall p
      ensures p in used <==> p in used0 || p in free[..Min(DynamicCount(requests), |free|)]
    {
      PlanAllocates(requests, free, p);
    }
  }
}
