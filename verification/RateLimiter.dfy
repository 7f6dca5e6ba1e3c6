/**
 * The rate limiter itself: a map of timestamp lists pruned in place by two loops.
 * time.Now is a nondecreasing argument; each method is one critical section, so a
 * run of the server is a sequence of calls in the order the mutex is taken.
 */
module RateLimiters {
  import opened SlidingWindow

  /** The pruning loop that both methods run. */
  method PruneList(times: seq<int>, cutoff: int) returns (valid: seq<int>)
    ensures valid == After(times, cutoff)
  {
    valid := [];
    for i := 0 to |times|
      invariant valid == After(times[..i], cutoff)
    {
      assert times[..i + 1][..i] == times[..i];
      if times[i] > cutoff {
        valid := valid + [times[i]];
      }
    }
    assert times[..|times|] == times;
  }

  class RateLimiter {
    var attempts: Table
    const policy: Policy
    ghost const start: int          // the clock when the limiter was made
    ghost var history: seq<Event>   // every call since
    ghost var clock: int            // when the last of them was

    ghost predicate Valid()
      reads this
    {
      Ordered(history, start, clock) && attempts == Run(policy, history)
    }

    constructor (limit: int, window: Duration, ghost now: int)
      ensures Valid() && policy == Policy(limit, window) && history == [] && clock == now
    {
      attempts := map[];
      policy := Policy(limit, window);
      start, history, clock := now, [], now;
    }

    /** Appends an event to the ghost history. */
    ghost method Record(e: Event, ip: Address)
      requires Ordered(history, start, clock) && clock <= e.at
      modifies this`history, this`clock
      ensures history == old(history) + [e] && clock == e.at && Ordered(history, start, clock)
      ensures Run(policy, history) == Apply(policy, Run(policy, old(history)), e)
      ensures Log(policy, history, ip) == Extend(policy, Log(policy, old(history), ip), e, ip)
    {
      RunSnoc(policy, history, e, ip);
      assert [e][1..] == [];
      OrderedJoin(history, [e], start, clock, e.at);
      history, clock := history + [e], e.at;
    }

    /** Admits the call exactly when fewer than limit accepted calls of ip lie in the last window. */
    method Allow(ip: Address, now: int) returns (ok: bool)
      requires Valid() && clock <= now
      modifies this
      ensures Valid() && history == old(history) + [Attempt(ip, now)] && clock == now
      ensures ok <==> |After(Log(policy, old(history), ip), now - policy.window)| < policy.limit
      ensures ok <==> Log(policy, history, ip) == Log(policy, old(history), ip) + [now]
      ensures ip in attempts && attempts[ip] == After(Log(policy, history, ip), now - policy.window)
      ensures attempts - {ip} == old(attempts) - {ip}
    {
      var cutoff := now - policy.window;
      var valid := PruneList(Lookup(attempts, ip), cutoff);
      OrderedUntil(history, start, clock, now);
      VerdictIsNaive(policy, history, ip, start, now);
      TableAfterAttempt(policy, history, ip, start, now);
      AttemptStores(policy, attempts, ip, now);
      Record(Attempt(ip, now), ip);
      if |valid| >= policy.limit {
        attempts := attempts[ip := valid];
        assert valid + [] == valid;
        return false;
      }
      attempts := attempts[ip := valid + [now]];
      return true;
    }

    /** The loop of a tick: each visited list is pruned in place, or its address forgotten. */
    method Sweep(cutoff: int)
      modifies this`attempts
      ensures attempts == Prune(old(attempts), cutoff)
      ensures forall ip :: ip in attempts <==> ip in old(attempts) && SomeAfter(old(attempts)[ip], cutoff)
    {
      ghost var before := attempts;
      var todo := attempts.Keys;
      while todo != {}
        invariant todo <= before.Keys && todo <= attempts.Keys <= before.Keys
        invariant forall ip :: ip in todo ==> attempts[ip] == before[ip]
        invariant forall ip :: ip in before && ip !in todo ==>
          if After(before[ip], cutoff) == [] then ip !in attempts
          else ip in attempts && attempts[ip] == After(before[ip], cutoff)
      {
        var ip :| ip in todo;
        todo := todo - {ip};
        var valid := PruneList(attempts[ip], cutoff);
        if |valid| == 0 {
          attempts := attempts - {ip};
        } else {
          attempts := attempts[ip := valid];
        }
      }
      forall ip ensures ip in Prune(before, cutoff) <==> ip in before && SomeAfter(before[ip], cutoff) {
        PruneExact(before, cutoff, ip);
      }
    }

    /** One tick of the background cleanup, whatever order it visits the addresses in. */
    method CleanupTick(now: int)
      requires Valid() && clock <= now
      modifies this
      ensures Valid() && history == old(history) + [Cleanup(now)] && clock == now
      ensures attempts == Prune(old(attempts), now - policy.window)
      ensures forall ip :: ip in attempts <==>
        ip in old(attempts) && SomeAfter(old(attempts)[ip], now - policy.window)
    {
      Sweep(now - policy.window);
      Record(Cleanup(now), Address(""));
    }
  }
}
