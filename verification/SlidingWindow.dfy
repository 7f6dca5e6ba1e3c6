/**
 * The sliding-window specification of the control-port rate limiter and the
 * theorems about whole runs of it. An event carries the value of the monotonic
 * clock when its critical section reads it.
 */
module SlidingWindow {
  import opened Bytes

  /** The cleanup ticker panics on a window that is not positive. */
  type Duration = d: int | d > 0 witness 1

  /** A remote IP as text; only equality of addresses matters here. */
  datatype Address = Address(text: string)

  datatype Policy = Policy(limit: int, window: Duration)

  datatype Event = Attempt(ip: Address, at: int) | Cleanup(at: int)

  type Table = map<Address, seq<int>>

  // ----- the limiter's own state -------------------------------------------

  /** The entries strictly after a cutoff, in order: what both pruning loops keep. */
  function After(times: seq<int>, cutoff: int): seq<int> {
    if times == [] then []
    else
      var last := times[|times| - 1];
      After(times[..|times| - 1], cutoff) + if last > cutoff then [last] else []
  }

  function Lookup(table: Table, ip: Address): seq<int> {
    if ip in table then table[ip] else []
  }

  predicate Allowed(p: Policy, table: Table, ip: Address, now: int) {
    |After(Lookup(table, ip), now - p.window)| < p.limit
  }

  /** A background cleanup: prune every list and forget the addresses left without entries. */
  function Prune(table: Table, cutoff: int): Table {
    map ip | ip in table && After(table[ip], cutoff) != [] :: After(table[ip], cutoff)
  }

  function Apply(p: Policy, table: Table, e: Event): Table {
    match e
    case Attempt(ip, now) =>
      table[ip := After(Lookup(table, ip), now - p.window) + if Allowed(p, table, ip, now) then [now] else []]
    case Cleanup(now) => Prune(table, now - p.window)
  }

  function RunFrom(p: Policy, table: Table, events: seq<Event>): Table
    decreases |events|
  {
    if events == [] then table else RunFrom(p, Apply(p, table, events[0]), events[1..])
  }

  function Run(p: Policy, events: seq<Event>): Table {
    RunFrom(p, map[], events)
  }

  /** Does the limiter admit this attempt, made after these events? */
  predicate Verdict(p: Policy, events: seq<Event>, ip: Address, now: int) {
    Allowed(p, Run(p, events), ip, now)
  }

  // ----- the naive log -------------------------------------------------------

  /** One event against the log: an attempt is accepted when fewer than limit earlier
      accepted ones lie strictly after now - window. */
  function Extend(p: Policy, log: seq<int>, e: Event, ip: Address): seq<int> {
    if e.Attempt? && e.ip == ip && |After(log, e.at - p.window)| < p.limit then log + [e.at] else log
  }

  function LogFrom(p: Policy, log: seq<int>, events: seq<Event>, ip: Address): seq<int>
    decreases |events|
  {
    if events == [] then log else LogFrom(p, Extend(p, log, events[0], ip), events[1..], ip)
  }

  /** The times of every attempt of ip ever accepted, never pruned. */
  function Log(p: Policy, events: seq<Event>, ip: Address): seq<int> {
    LogFrom(p, [], events, ip)
  }

  // ----- clocks ----------------------------------------------------------------

  /** A run between two readings of a nondecreasing clock. */
  predicate Ordered(events: seq<Event>, start: int, now: int) {
    if events == [] then start <= now
    else start <= events[0].at && Ordered(events[1..], events[0].at, now)
  }

  /** No entry is earlier than the one before it. */
  predicate Sorted(times: seq<int>) {
    |times| <= 1 || (times[|times| - 2] <= times[|times| - 1] && Sorted(times[..|times| - 1]))
  }

  ghost predicate NotAfter(times: seq<int>, now: int) {
    forall i :: 0 <= i < |times| ==> times[i] <= now
  }

  lemma OrderedFrom(events: seq<Event>, start: int, mid: int, now: int)
    requires start <= mid && Ordered(events, mid, now)
    ensures Ordered(events, start, now)
  {
  }

  lemma {:induction false} OrderedJoin(a: seq<Event>, b: seq<Event>, start: int, mid: int, now: int)
    requires Ordered(a, start, mid) && Ordered(b, mid, now)
    ensures Ordered(a + b, start, now)
  {
    if a == [] {
      assert a + b == b;
      OrderedFrom(b, start, mid, now);
    } else {
      assert (a + b)[1..] == a[1..] + b;
      OrderedJoin(a[1..], b, a[0].at, mid, now);
    }
  }

  lemma {:induction false} OrderedUntil(events: seq<Event>, start: int, mid: int, now: int)
    requires Ordered(events, start, mid) && mid <= now
    ensures Ordered(events, start, now)
  {
    if events != [] {
      OrderedUntil(events[1..], events[0].at, mid, now);
    }
  }

  lemma {:induction false} RunConcat(p: Policy, table: Table, a: seq<Event>, b: seq<Event>)
    ensures RunFrom(p, table, a + b) == RunFrom(p, RunFrom(p, table, a), b)
    decreases |a|
  {
    if a == [] {
      assert a + b == b;
    } else {
      assert (a + b)[1..] == a[1..] + b;
      RunConcat(p, Apply(p, table, a[0]), a[1..], b);
    }
  }

  lemma {:induction false} LogConcat(p: Policy, log: seq<int>, a: seq<Event>, b: seq<Event>, ip: Address)
    ensures LogFrom(p, log, a + b, ip) == LogFrom(p, LogFrom(p, log, a, ip), b, ip)
    decreases |a|
  {
    if a == [] {
      assert a + b == b;
    } else {
      assert (a + b)[1..] == a[1..] + b;
      LogConcat(p, Extend(p, log, a[0], ip), a[1..], b, ip);
    }
  }

  /** One more event, seen by the table and by the log. */
  lemma RunSnoc(p: Policy, events: seq<Event>, e: Event, ip: Address)
    ensures Run(p, events + [e]) == Apply(p, Run(p, events), e)
    ensures Log(p, events + [e], ip) == Extend(p, Log(p, events, ip), e, ip)
  {
    RunConcat(p, map[], events, [e]);
    LogConcat(p, [], events, [e], ip);
    assert [e][1..] == [];
  }

  // ----- facts about After -------------------------------------------------------

  lemma {:induction false} AfterConcat(a: seq<int>, b: seq<int>, cutoff: int)
    ensures After(a + b, cutoff) == After(a, cutoff) + After(b, cutoff)
  {
    if b == [] {
      assert a + b == a;
    } else {
      var init := b[..|b| - 1];
      assert (a + b)[..|a + b| - 1] == a + init;
      AfterConcat(a, init, cutoff);
    }
  }

  /** Pruning twice is pruning at the later cutoff. */
  lemma {:induction false} AfterAfter(times: seq<int>, c: int, c': int)
    requires c <= c'
    ensures After(After(times, c), c') == After(times, c')
  {
    if times != [] {
      var init, last := times[..|times| - 1], times[|times| - 1];
      AfterAfter(init, c, c');
      AfterConcat(After(init, c), if last > c then [last] else [], c');
    }
  }

  /** How many entries pruning drops. */
  function Dropped(times: seq<int>, cutoff: int): int {
    |times| - |After(times, cutoff)|
  }

  lemma {:induction false} AfterShrinks(times: seq<int>, cutoff: int)
    ensures Dropped(times, cutoff) >= 0
  {
    if times != [] {
      AfterShrinks(times[..|times| - 1], cutoff);
    }
  }

  lemma {:induction false} AfterNone(times: seq<int>, cutoff: int)
    requires NotAfter(times, cutoff)
    ensures After(times, cutoff) == []
  {
    if times != [] {
      AfterNone(times[..|times| - 1], cutoff);
    }
  }

  lemma {:induction false} LastIsLatest(times: seq<int>)
    requires Sorted(times) && times != []
    ensures NotAfter(times, times[|times| - 1])
  {
    if |times| > 1 {
      LastIsLatest(times[..|times| - 1]);
    }
  }

  lemma {:induction false} AfterKeepsBound(times: seq<int>, cutoff: int, bound: int)
    requires NotAfter(times, bound)
    ensures NotAfter(After(times, cutoff), bound)
  {
    if times != [] {
      AfterKeepsBound(times[..|times| - 1], cutoff, bound);
    }
  }

  lemma {:induction false} AfterSorted(times: seq<int>, cutoff: int)
    requires Sorted(times)
    ensures Sorted(After(times, cutoff))
  {
    if times != [] {
      var init, last := times[..|times| - 1], times[|times| - 1];
      AfterSorted(init, cutoff);
      LastIsLatest(times);
      AfterKeepsBound(init, cutoff, last);
      var kept := After(init, cutoff);
      assert (kept + [last])[..|kept|] == kept;
      assert kept != [] ==> kept[|kept| - 1] <= last;
      assert kept + [] == kept;
    }
  }

  /** Of a sorted list, pruning drops a prefix and nothing else. */
  lemma {:induction false} AfterIsSuffix(times: seq<int>, cutoff: int)
    requires Sorted(times)
    ensures Dropped(times, cutoff) >= 0
    ensures forall i :: 0 <= i < |After(times, cutoff)| ==> After(times, cutoff)[i] == times[Dropped(times, cutoff) + i]
    ensures forall i :: 0 <= i < |times| ==> (times[i] <= cutoff <==> i < Dropped(times, cutoff))
  {
    if times != [] {
      var init, last := times[..|times| - 1], times[|times| - 1];
      AfterIsSuffix(init, cutoff);
      LastIsLatest(times);
      if last <= cutoff {
        AfterNone(times, cutoff);
      }
    }
  }

  // ----- the run invariant ---------------------------------------------------------

  /** Accepted attempts are limit apart by at least one window. */
  ghost predicate Spaced(p: Policy, log: seq<int>) {
    && (p.limit <= 0 ==> log == [])
    && (p.limit > 0 ==> forall i, j :: 0 <= i && j == i + p.limit && j < |log| ==> log[j] - log[i] >= p.window)
  }

  ghost predicate Shape(p: Policy, log: seq<int>, now: int) {
    Sorted(log) && Spaced(p, log) && NotAfter(log, now)
  }

  lemma ExtendKeepsShape(p: Policy, log: seq<int>, start: int, e: Event, ip: Address)
    requires Shape(p, log, start) && start <= e.at
    ensures Shape(p, Extend(p, log, e, ip), e.at)
  {
    AfterIsSuffix(log, e.at - p.window);
    assert (log + [e.at])[..|log|] == log;
  }

  lemma {:induction false} ShapeFrom(p: Policy, log: seq<int>, events: seq<Event>, ip: Address, start: int, now: int)
    requires Shape(p, log, start) && Ordered(events, start, now)
    ensures Shape(p, LogFrom(p, log, events, ip), now)
    decreases |events|
  {
    if events != [] {
      ExtendKeepsShape(p, log, start, events[0], ip);
      ShapeFrom(p, Extend(p, log, events[0], ip), events[1..], ip, events[0].at, now);
    }
  }

  lemma LogSorted(p: Policy, events: seq<Event>, ip: Address, start: int, now: int)
    requires Ordered(events, start, now)
    ensures Sorted(Log(p, events, ip))
  {
    ShapeFrom(p, [], events, ip, start, now);
  }

  lemma AcceptedSurvives(log: seq<int>, now: int, window: Duration)
    ensures After(log + [now], now - window) == After(log, now - window) + [now]
  {
    AfterConcat(log, [now], now - window);
    assert After([now], now - window) == [now];
  }

  /** One step of log and table: the stored list stays the log pruned at some cutoff. */
  lemma StepKeepsLog(p: Policy, table: Table, log: seq<int>, e: Event, ip: Address, c: int)
    requires Lookup(table, ip) == After(log, c) && c <= e.at - p.window
    ensures var c' := if e.Cleanup? || e.ip == ip then e.at - p.window else c;
      Lookup(Apply(p, table, e), ip) == After(Extend(p, log, e, ip), c')
  {
    AfterAfter(log, c, e.at - p.window);
    if e.Attempt? {
      AcceptedSurvives(log, e.at, p.window);
    }
  }

  /** The stored list stays the full log pruned at a cutoff that is not later than now - window. */
  lemma {:induction false} KeepsFrom(p: Policy, table: Table, log: seq<int>, events: seq<Event>, ip: Address,
                                     c: int, start: int, now: int) returns (c': int)
    requires Lookup(table, ip) == After(log, c) && c <= start - p.window && Ordered(events, start, now)
    ensures c' <= now - p.window
    ensures Lookup(RunFrom(p, table, events), ip) == After(LogFrom(p, log, events, ip), c')
    decreases |events|
  {
    c' := c;
    if events != [] {
      var e := events[0];
      StepKeepsLog(p, table, log, e, ip, c);
      c' := if e.Cleanup? || e.ip == ip then e.at - p.window else c;
      c' := KeepsFrom(p, Apply(p, table, e), Extend(p, log, e, ip), events[1..], ip, c', e.at, now);
    }
  }

  lemma TableKeepsLog(p: Policy, events: seq<Event>, ip: Address, start: int, now: int) returns (c: int)
    requires Ordered(events, start, now)
    ensures c <= now - p.window && Lookup(Run(p, events), ip) == After(Log(p, events, ip), c)
  {
    c := KeepsFrom(p, map[], [], events, ip, start - p.window, start, now);
  }

  /** The stored list, pruned now, is the log pruned now. */
  lemma PrunedAlike(p: Policy, events: seq<Event>, ip: Address, start: int, now: int)
    requires Ordered(events, start, now)
    ensures After(Lookup(Run(p, events), ip), now - p.window) == After(Log(p, events, ip), now - p.window)
  {
    var c := TableKeepsLog(p, events, ip, start, now);
    AfterAfter(Log(p, events, ip), c, now - p.window);
  }

  lemma StepBounded(p: Policy, table: Table, e: Event, ip: Address)
    requires |Lookup(table, ip)| <= Max(p.limit, 0)
    ensures |Lookup(Apply(p, table, e), ip)| <= Max(p.limit, 0)
  {
    AfterShrinks(Lookup(table, ip), e.at - p.window);
  }

  lemma {:induction false} StoredBounded(p: Policy, table: Table, events: seq<Event>, ip: Address)
    requires |Lookup(table, ip)| <= Max(p.limit, 0)
    ensures |Lookup(RunFrom(p, table, events), ip)| <= Max(p.limit, 0)
    decreases |events|
  {
    if events != [] {
      StepBounded(p, table, events[0], ip);
      StoredBounded(p, Apply(p, table, events[0]), events[1..], ip);
    }
  }

  // ----- theorems ------------------------------------------------------------------

  /** Refinement: the pruned table answers exactly as the full log does. */
  lemma VerdictIsNaive(p: Policy, events: seq<Event>, ip: Address, start: int, now: int)
    requires Ordered(events, start, now)
    ensures Verdict(p, events, ip, now) <==> |After(Log(p, events, ip), now - p.window)| < p.limit
  {
    PrunedAlike(p, events, ip, start, now);
  }

  lemma SuffixOf(log: seq<int>, c: int)
    requires Sorted(log)
    ensures |After(log, c)| <= |log| && After(log, c) == log[|log| - |After(log, c)|..]
  {
    AfterIsSuffix(log, c);
  }

  /** Each stored list is sorted, at most limit long, and a suffix of the accepted attempts. */
  lemma StoredShape(p: Policy, events: seq<Event>, ip: Address, start: int, now: int) returns (kept: nat)
    requires Ordered(events, start, now)
    ensures var stored, log := Lookup(Run(p, events), ip), Log(p, events, ip);
      && Sorted(stored) && |stored| == kept <= Max(p.limit, 0)
      && kept <= |log| && stored == log[|log| - kept..]
  {
    var c := TableKeepsLog(p, events, ip, start, now);
    kept := |After(Log(p, events, ip), c)|;
    StoredBounded(p, map[], events, ip);
    LogSorted(p, events, ip, start, now);
    AfterSorted(Log(p, events, ip), c);
    SuffixOf(Log(p, events, ip), c);
  }

  // ----- the whole table -----------------------------------------------------------

  /** Is some entry later than the cutoff? */
  ghost predicate SomeAfter(times: seq<int>, cutoff: int) {
    exists i :: 0 <= i < |times| && times[i] > cutoff
  }

  lemma {:induction false} AfterEmpty(times: seq<int>, cutoff: int)
    ensures After(times, cutoff) != [] <==> SomeAfter(times, cutoff)
  {
    if times != [] {
      var init, last := times[..|times| - 1], times[|times| - 1];
      AfterEmpty(init, cutoff);
      if SomeAfter(init, cutoff) {
        var i :| 0 <= i < |init| && init[i] > cutoff;
        assert times[i] > cutoff;
      }
    }
  }

  /** A cleanup forgets exactly the addresses that have no entry left, and prunes the others. */
  lemma PruneExact(table: Table, cutoff: int, ip: Address)
    ensures ip in Prune(table, cutoff) <==> ip in table && SomeAfter(table[ip], cutoff)
    ensures ip in Prune(table, cutoff) ==> Prune(table, cutoff)[ip] == After(table[ip], cutoff)
  {
    if ip in table {
      AfterEmpty(table[ip], cutoff);
    }
  }

  lemma OrderedSnoc(events: seq<Event>, start: int, now: int, e: Event)
    requires Ordered(events, start, now) && now <= e.at
    ensures Ordered(events + [e], start, e.at)
  {
    assert [e][1..] == [];
    OrderedJoin(events, [e], start, now, e.at);
  }

  /** Right after a cleanup an address is in the table exactly when some accepted call of its log lies after
      now - window, and its list is then exactly those calls. */
  lemma TableAfterCleanup(p: Policy, events: seq<Event>, ip: Address, start: int, now: int)
    requires Ordered(events, start, now)
    ensures var table, log := Run(p, events + [Cleanup(now)]), Log(p, events, ip);
      && (ip in table <==> SomeAfter(log, now - p.window))
      && (ip in table ==> table[ip] == After(log, now - p.window))
  {
    RunSnoc(p, events, Cleanup(now), ip);
    PrunedAlike(p, events, ip, start, now);
    AfterEmpty(Log(p, events, ip), now - p.window);
    PruneExact(Run(p, events), now - p.window, ip);
    if ip in Run(p, events) {
      AfterEmpty(Run(p, events)[ip], now - p.window);
    }
  }

  /** What a call leaves of the log's window. */
  lemma ExtendPruned(p: Policy, log: seq<int>, ip: Address, now: int)
    ensures var kept := After(log, now - p.window);
      After(Extend(p, log, Attempt(ip, now), ip), now - p.window) == kept + if |kept| < p.limit then [now] else []
  {
    AcceptedSurvives(log, now, p.window);
    var kept := After(log, now - p.window);
    assert kept + [] == kept;
  }

  lemma OthersStay(table: Table, ip: Address, times: seq<int>)
    ensures table[ip := times] - {ip} == table - {ip}
  {
  }

  lemma AttemptStores(p: Policy, table: Table, ip: Address, now: int)
    ensures var kept := After(Lookup(table, ip), now - p.window);
      Apply(p, table, Attempt(ip, now)) == table[ip := kept + if |kept| < p.limit then [now] else []]
  {
  }

  /** Right after a call of ip, admitted or not, its list is exactly the accepted calls after now - window, this
      one included if it was admitted; the rest of the table is as it was. */
  lemma TableAfterAttempt(p: Policy, events: seq<Event>, ip: Address, start: int, now: int)
    requires Ordered(events, start, now)
    ensures var before, table := Run(p, events), Run(p, events + [Attempt(ip, now)]);
      && ip in table && table[ip] == After(Log(p, events + [Attempt(ip, now)], ip), now - p.window)
      && table - {ip} == before - {ip}
  {
    RunSnoc(p, events, Attempt(ip, now), ip);
    PrunedAlike(p, events, ip, start, now);
    ExtendPruned(p, Log(p, events, ip), ip, now);
    AttemptStores(p, Run(p, events), ip, now);
    var kept := After(Log(p, events, ip), now - p.window);
    OthersStay(Run(p, events), ip, kept + if |kept| < p.limit then [now] else []);
  }

  /** Accepted calls in the half-open interval (x, y]. */
  function CountIn(times: seq<int>, x: int, y: int): nat {
    if times == [] then 0
    else
      var last := times[|times| - 1];
      CountIn(times[..|times| - 1], x, y) + if x < last <= y then 1 else 0
  }

  lemma {:induction false} CountIsDifference(times: seq<int>, x: int, y: int)
    requires x <= y
    ensures CountIn(times, x, y) == |After(times, x)| - |After(times, y)|
  {
    if times != [] {
      CountIsDifference(times[..|times| - 1], x, y);
    }
  }

  lemma {:induction false} SpacedApart(p: Policy, log: seq<int>, i: nat, k: nat, quota: nat, span: nat)
    requires p.limit > 0 && Spaced(p, log)
    requires quota == k * p.limit && span == k * p.window && i + quota < |log|
    ensures log[i + quota] >= log[i] + span
  {
    if k > 0 {
      assert quota == (k - 1) * p.limit + p.limit && span == (k - 1) * p.window + p.window;
      var j := i + (quota - p.limit);
      SpacedApart(p, log, i, k - 1, quota - p.limit, span - p.window);
      assert log[j + p.limit] - log[j] >= p.window;
    }
  }

  lemma SpacedCount(log: seq<int>, x: int, span: nat, quota: nat)
    requires Sorted(log)
    requires var i := Dropped(log, x); 0 <= i && i + quota < |log| ==> log[i + quota] >= log[i] + span
    ensures CountIn(log, x, x + span) <= quota
  {
    CountIsDifference(log, x, x + span);
    AfterIsSuffix(log, x);
    AfterIsSuffix(log, x + span);
  }

  lemma WindowBoundOf(p: Policy, log: seq<int>, x: int, k: nat)
    requires Sorted(log) && Spaced(p, log)
    ensures CountIn(log, x, x + k * p.window) <= k * Max(p.limit, 0)
  {
    var span, quota := k * p.window, k * Max(p.limit, 0);
    assert span >= 0 && quota >= 0;
    var i := Dropped(log, x);
    AfterShrinks(log, x);
    if i + quota < |log| {
      SpacedApart(p, log, i, k, quota, span);
    }
    SpacedCount(log, x, span, quota);
  }

  /** Any interval (x, x + k * window] holds at most k * limit accepted calls of an IP. */
  lemma WindowBound(p: Policy, events: seq<Event>, ip: Address, start: int, now: int, x: int, k: nat)
    requires Ordered(events, start, now)
    ensures CountIn(Log(p, events, ip), x, x + k * p.window) <= k * Max(p.limit, 0)
  {
    ShapeFrom(p, [], events, ip, start, now);
    WindowBoundOf(p, Log(p, events, ip), x, k);
  }

  /** The case k == 1: no window ever holds more than limit accepted calls. */
  lemma OneWindowBound(p: Policy, events: seq<Event>, ip: Address, start: int, now: int, x: int)
    requires Ordered(events, start, now)
    ensures CountIn(Log(p, events, ip), x, x + p.window) <= Max(p.limit, 0)
  {
    WindowBound(p, events, ip, start, now, x, 1);
  }

  /** The limiter that the server creates: 20 calls a minute, in nanoseconds. */
  const SERVER_POLICY := Policy(20, 60_000_000_000)

  /** No address gets more than 20 control connections past the limiter in any minute, nor more
      than 1200 in any hour. */
  lemma ServerLimit(events: seq<Event>, ip: Address, start: int, now: int, x: int)
    requires Ordered(events, start, now)
    ensures CountIn(Log(SERVER_POLICY, events, ip), x, x + 60_000_000_000) <= 20
    ensures CountIn(Log(SERVER_POLICY, events, ip), x, x + 3_600_000_000_000) <= 1200
  {
    WindowBound(SERVER_POLICY, events, ip, start, now, x, 1);
    WindowBound(SERVER_POLICY, events, ip, start, now, x, 60);
  }

  lemma LogNotAfter(p: Policy, events: seq<Event>, ip: Address, start: int, now: int)
    requires Ordered(events, start, now)
    ensures NotAfter(Log(p, events, ip), now)
  {
    ShapeFrom(p, [], events, ip, start, now);
  }

  /** It refuses a call exactly when 20 accepted ones lie in the minute before it: a twentieth is admitted. */
  lemma ServerRefuses(events: seq<Event>, ip: Address, start: int, now: int)
    requires Ordered(events, start, now)
    ensures !Verdict(SERVER_POLICY, events, ip, now) <==>
      CountIn(Log(SERVER_POLICY, events, ip), now - 60_000_000_000, now) == 20
  {
    var log := Log(SERVER_POLICY, events, ip);
    VerdictIsNaive(SERVER_POLICY, events, ip, start, now);
    ServerLimit(events, ip, start, now, now - 60_000_000_000);
    CountIsDifference(log, now - 60_000_000_000, now);
    LogNotAfter(SERVER_POLICY, events, ip, start, now);
    AfterNone(log, now);
  }

  /** Is this event, made after these events, one that ip's quota never sees? */
  predicate Invisible(p: Policy, before: seq<Event>, e: Event, ip: Address) {
    e.Cleanup? || e.ip != ip || !Verdict(p, before, ip, e.at)
  }

  lemma LogIgnores(p: Policy, a: seq<Event>, e: Event, ip: Address, start: int)
    requires Ordered(a, start, e.at) && Invisible(p, a, e, ip)
    ensures Log(p, a + [e], ip) == Log(p, a, ip)
  {
    RunSnoc(p, a, e, ip);
    VerdictIsNaive(p, a, ip, start, e.at);
  }

  /** Non-interference: deleting a cleanup, a rejected call or another IP's call from a run
      changes no later answer. */
  lemma LaterAnswersUnchanged(p: Policy, a: seq<Event>, e: Event, b: seq<Event>, ip: Address, start: int, now: int)
    requires Ordered(a, start, e.at) && Ordered(b, e.at, now) && Invisible(p, a, e, ip)
    ensures Verdict(p, a + [e] + b, ip, now) == Verdict(p, a + b, ip, now)
  {
    LogIgnores(p, a, e, ip, start);
    LogConcat(p, [], a + [e], b, ip);
    LogConcat(p, [], a, b, ip);
    OrderedJoin(a, b, start, e.at, now);
    assert [e][1..] == [];
    OrderedJoin(a, [e], start, e.at, e.at);
    OrderedJoin(a + [e], b, start, e.at, now);
    VerdictIsNaive(p, a + [e] + b, ip, start, now);
    VerdictIsNaive(p, a + b, ip, start, now);
  }

  /** No attempt of ip in these events is made at or after a given time. */
  predicate AllBefore(events: seq<Event>, ip: Address, until: int) {
    events != [] ==>
      (events[0].Attempt? && events[0].ip == ip ==> events[0].at < until) && AllBefore(events[1..], ip, until)
  }

  /** A full, sorted list admits the next call exactly one window after its limit-th last entry. */
  lemma FullUntil(p: Policy, log: seq<int>, now: int)
    requires p.limit >= 1 && Sorted(log) && |log| >= p.limit
    ensures |After(log, now - p.window)| < p.limit <==> now >= log[|log| - p.limit] + p.window
  {
    AfterIsSuffix(log, now - p.window);
  }

  /** While ip makes no call from v0 + window on, its log does not grow. */
  lemma {:induction false} FrozenLog(p: Policy, log: seq<int>, events: seq<Event>, ip: Address)
    requires p.limit >= 1 && Sorted(log) && |log| >= p.limit
    requires AllBefore(events, ip, log[|log| - p.limit] + p.window)
    ensures LogFrom(p, log, events, ip) == log
  {
    if events != [] {
      FullUntil(p, log, events[0].at);
      FrozenLog(p, log, events[1..], ip);
    }
  }

  /** A full list of survivors starts at the limit-th last entry of the log. */
  lemma FullStart(p: Policy, log: seq<int>, cutoff: int)
    requires Sorted(log) && p.limit >= 1
    ensures |After(log, cutoff)| == p.limit ==> |log| >= p.limit && After(log, cutoff)[0] == log[|log| - p.limit]
  {
    AfterIsSuffix(log, cutoff);
  }

  /** A denied attempt prunes the stored list, finds it full, and leaves the log as it was. */
  lemma DenialPrunes(p: Policy, before: seq<Event>, ip: Address, start: int, denied: int)
    requires p.limit >= 1 && Ordered(before, start, denied)
    requires !Verdict(p, before, ip, denied)
    ensures var stored, log := Lookup(Run(p, before + [Attempt(ip, denied)]), ip), Log(p, before, ip);
      && |stored| == p.limit && stored == After(log, denied - p.window)
      && Log(p, before + [Attempt(ip, denied)], ip) == log
  {
    RunSnoc(p, before, Attempt(ip, denied), ip);
    PrunedAlike(p, before, ip, start, denied);
    StoredBounded(p, map[], before, ip);
    StepBounded(p, Run(p, before), Attempt(ip, denied), ip);
  }

  /** What the log looks like when its limit-th last entry is v0, and what it answers later. */
  lemma AnswerAfter(p: Policy, log: seq<int>, cutoff: int, after: seq<Event>, ip: Address, now: int)
    requires p.limit >= 1 && Sorted(log) && |After(log, cutoff)| == p.limit
    requires AllBefore(after, ip, After(log, cutoff)[0] + p.window)
    ensures |After(LogFrom(p, log, after, ip), now - p.window)| < p.limit <==> now >= After(log, cutoff)[0] + p.window
  {
    FullStart(p, log, cutoff);
    FrozenLog(p, log, after, ip);
    FullUntil(p, log, now);
  }

  /** A later answer, in terms of the log up to some event. */
  lemma LaterVerdict(p: Policy, before: seq<Event>, e: Event, after: seq<Event>, ip: Address, start: int, now: int)
    requires Ordered(before, start, e.at) && Ordered(after, e.at, now)
    ensures Verdict(p, before + [e] + after, ip, now) <==>
      |After(LogFrom(p, Log(p, before + [e], ip), after, ip), now - p.window)| < p.limit
  {
    assert [e][1..] == [];
    OrderedJoin(before, [e], start, e.at, e.at);
    OrderedJoin(before + [e], after, start, e.at, now);
    VerdictIsNaive(p, before + [e] + after, ip, start, now);
    LogConcat(p, [], before + [e], after, ip);
  }

  /**
   * Retry time: when an attempt is denied, the stored list is full; let v0 be its oldest entry.
   * Every later attempt before v0 + window is denied, and the first one from then on is accepted,
   * whatever cleanups and other clients' calls lie in between.
   */
  lemma RetryAfterDenial(p: Policy, before: seq<Event>, ip: Address, denied: int, after: seq<Event>, start: int, now: int)
    requires p.limit >= 1
    requires Ordered(before, start, denied) && Ordered(after, denied, now)
    requires !Verdict(p, before, ip, denied)
    ensures var stored := Lookup(Run(p, before + [Attempt(ip, denied)]), ip);
      && |stored| == p.limit
      && (AllBefore(after, ip, stored[0] + p.window) ==>
            (Verdict(p, before + [Attempt(ip, denied)] + after, ip, now) <==> now >= stored[0] + p.window))
  {
    DenialPrunes(p, before, ip, start, denied);
    LogSorted(p, before, ip, start, denied);
    LaterVerdict(p, before, Attempt(ip, denied), after, ip, start, now);
    if AllBefore(after, ip, After(Log(p, before, ip), denied - p.window)[0] + p.window) {
      AnswerAfter(p, Log(p, before, ip), denied - p.window, after, ip, now);
    }
  }
}
