/**
 * The shared shutdown of UDP forwarding: two loops over two connections, a closing
 * function that runs at most once, and a caller that waits for both loops. Closing is
 * two steps, and whoever calls it while it runs waits for it to end.
 */
module Shutdown {
  datatype Party = UdpToTcp | TcpToUdp | Caller

  datatype Conn = Udp | Tcp

  /** Working: at one of a loop's three operations, or waiting for the loops; Deferred: at the
      deferred call of the closing function. */
  datatype Pc = Working(op: nat) | Deferred | Finished

  /** The once-only closing function: not called, being run by a party, or done. */
  datatype Once = Idle | Running(runner: Party, udpClosed: bool) | Done

  /** empty: the header that the second loop has read last announces a frame without data. */
  datatype State = State(
    udpToTcp: Pc,
    tcpToUdp: Pc,
    caller: Pc,
    once: Once,
    udpCloses: nat,
    tcpCloses: nat,
    empty: bool
  )

  const INITIAL := State(Working(0), Working(0), Working(0), Idle, 0, 0, false)

  datatype Step =
    | Operate(party: Party, ok: bool, empty: bool)   // a loop's current read or write returns
    | Advance(party: Party)                          // a party's own next move in shutting down

  function PcOf(st: State, p: Party): Pc {
    match p
    case UdpToTcp => st.udpToTcp
    case TcpToUdp => st.tcpToUdp
    case Caller => st.caller
  }

  function Set(st: State, p: Party, pc: Pc): State {
    match p
    case UdpToTcp => st.(udpToTcp := pc)
    case TcpToUdp => st.(tcpToUdp := pc)
    case Caller => st.(caller := pc)
  }

  /** The connection that a loop's operation uses: read, write, write or read, read, write. */
  function Uses(p: Party, op: nat): Conn {
    if p.UdpToTcp? then (if op == 0 then Udp else Tcp) else (if op == 2 then Udp else Tcp)
  }

  predicate IsOpen(st: State, c: Conn) {
    if c.Udp? then st.udpCloses == 0 else st.tcpCloses == 0
  }

  /** Is this party about to read the data of an empty frame? A full read of no bytes does not touch the
      connection. */
  predicate ReadsNothing(st: State, p: Party) {
    p.TcpToUdp? && st.tcpToUdp == Working(1) && st.empty
  }

  /** A read of no bytes succeeds. Any other operation fails on a closed connection, and may do either on
      an open one. */
  predicate Enabled(st: State, step: Step) {
    match step
    case Operate(p, ok, _) =>
      && !p.Caller? && PcOf(st, p).Working?
      && if ReadsNothing(st, p) then ok else ok ==> IsOpen(st, Uses(p, PcOf(st, p).op))
    case Advance(p) =>
      match PcOf(st, p)
      case Working(_) => p.Caller? && st.udpToTcp.Finished? && st.tcpToUdp.Finished?
      case Deferred => !st.once.Running? || st.once.runner == p
      case Finished => false
  }

  function Next(st: State, step: Step): State {
    if !Enabled(st, step) then st
    else
      match step
      case Operate(p, ok, empty) =>
        var st' := if p.TcpToUdp? && PcOf(st, p).op == 0 then st.(empty := empty) else st;
        Set(st', p, if ok then Working((PcOf(st, p).op + 1) % 3) else Deferred)
      case Advance(p) =>
        if PcOf(st, p).Working? then Set(st, p, Deferred)
        else
          match st.once
          case Idle => st.(once := Running(p, false))
          case Running(_, false) => st.(once := Running(p, true), udpCloses := st.udpCloses + 1)
          case Running(_, true) => st.(once := Done, tcpCloses := st.tcpCloses + 1)
          case Done => Set(st, p, Finished)
  }

  function Exec(st: State, steps: seq<Step>): State
    decreases |steps|
  {
    if steps == [] then st else Exec(Next(st, steps[0]), steps[1..])
  }

  ghost predicate Inv(st: State) {
    && st.udpCloses == (if st.once.Done? || (st.once.Running? && st.once.udpClosed) then 1 else 0)
    && st.tcpCloses == (if st.once.Done? then 1 else 0)
    && (st.once.Running? ==> PcOf(st, st.once.runner).Deferred?)
    && (st.udpToTcp.Finished? || st.tcpToUdp.Finished? ==> st.once.Done?)
    && (!st.caller.Working? ==> st.udpToTcp.Finished? && st.tcpToUdp.Finished?)
    && (st.udpToTcp.Working? ==> st.udpToTcp.op < 3) && (st.tcpToUdp.Working? ==> st.tcpToUdp.op < 3)
  }

  function PcRank(pc: Pc): nat {
    match pc
    case Working(_) => 2
    case Deferred => 1
    case Finished => 0
  }

  function OnceRank(o: Once): nat {
    match o
    case Idle => 3
    case Running(_, udpClosed) => if udpClosed then 1 else 2
    case Done => 0
  }

  /** How many moves are left besides successful operations. */
  function Rank(st: State): nat {
    PcRank(st.udpToTcp) + PcRank(st.tcpToUdp) + PcRank(st.caller) + OnceRank(st.once)
  }

  /** One step: a taken move costs one unit of rank, a successful operation none. */
  lemma StepRank(st: State, step: Step)
    requires Inv(st)
    ensures Inv(Next(st, step))
    ensures Rank(st) - Rank(Next(st, step)) == if Enabled(st, step) && !(step.Operate? && step.ok) then 1 else 0
  {
  }

  lemma {:induction false} EveryRun(st: State, steps: seq<Step>)
    requires Inv(st)
    ensures Inv(Exec(st, steps))
    decreases |steps|
  {
    if steps != [] {
      StepRank(st, steps[0]);
      EveryRun(Next(st, steps[0]), steps[1..]);
    }
  }

  // ----- bounded shutdown ------------------------------------------------------------

  /** The moves of a run that are taken and are not successful operations. */
  function Moves(st: State, steps: seq<Step>): nat
    decreases |steps|
  {
    if steps == [] then 0
    else
      (if Enabled(st, steps[0]) && !(steps[0].Operate? && steps[0].ok) then 1 else 0)
      + Moves(Next(st, steps[0]), steps[1..])
  }

  /** Every failure, close and return uses up exactly one unit of rank; successful operations use none. */
  lemma {:induction false} MovesAreRank(st: State, steps: seq<Step>)
    requires Inv(st)
    ensures Moves(st, steps) == Rank(st) - Rank(Exec(st, steps))
    decreases |steps|
  {
    if steps != [] {
      StepRank(st, steps[0]);
      MovesAreRank(Next(st, steps[0]), steps[1..]);
    }
  }

  /** Each connection is closed at most once in every run, the UDP one first, and exactly once when forwarding
      returns. */
  lemma ClosedOnce(steps: seq<Step>)
    ensures var st := Exec(INITIAL, steps);
      && st.tcpCloses <= st.udpCloses <= 1
      && (st.caller.Finished? ==> st.udpCloses == 1 && st.tcpCloses == 1
                                  && st.udpToTcp.Finished? && st.tcpToUdp.Finished?)
  {
    EveryRun(INITIAL, steps);
  }

  /** Has a direction failed? */
  predicate Failed(st: State) {
    !st.udpToTcp.Working? || !st.tcpToUdp.Working?
  }

  // ----- after both closes -------------------------------------------------------------

  /** The steps of a run that are taken. */
  function Taken(st: State, steps: seq<Step>): nat
    decreases |steps|
  {
    if steps == [] then 0 else (if Enabled(st, steps[0]) then 1 else 0) + Taken(Next(st, steps[0]), steps[1..])
  }

  /** How many operations can still succeed once both connections are closed. */
  function Last(st: State): nat {
    if ReadsNothing(st, TcpToUdp) then 1 else 0
  }

  lemma ClosedStep(st: State, step: Step)
    requires Inv(st) && st.once.Done?
    ensures Next(st, step).once.Done?
    ensures Rank(st) + Last(st) - Rank(Next(st, step)) - Last(Next(st, step)) == if Enabled(st, step) then 1 else 0
  {
    StepRank(st, step);
  }

  /** With both connections closed, every step that is taken brings the end one step closer. */
  lemma {:induction false} ClosedRun(st: State, steps: seq<Step>)
    requires Inv(st) && st.once.Done?
    ensures Taken(st, steps) == Rank(st) + Last(st) - Rank(Exec(st, steps)) - Last(Exec(st, steps))
    decreases |steps|
  {
    if steps != [] {
      StepRank(st, steps[0]);
      ClosedStep(st, steps[0]);
      ClosedRun(Next(st, steps[0]), steps[1..]);
    }
  }

  /**
   * After a failure no run takes more than eight further moves besides successful operations. Once both
   * connections are closed at most five such moves are left, and no operation succeeds but the read of an
   * empty frame's data, at most once: at most six steps of any kind, and five if that read is not due.
   */
  lemma BoundedAfterFailure(before: seq<Step>, after: seq<Step>)
    requires Failed(Exec(INITIAL, before))
    ensures var st := Exec(INITIAL, before);
      && Moves(st, after) <= 8
      && (st.once.Done? ==> Moves(st, after) <= 5 && Taken(st, after) <= 5 + Last(st) <= 6)
      && (st.once.Done? ==> forall p, empty :: Enabled(st, Operate(p, true, empty)) <==> ReadsNothing(st, p))
  {
    EveryRun(INITIAL, before);
    MovesAreRank(Exec(INITIAL, before), after);
    if Exec(INITIAL, before).once.Done? {
      ClosedRun(Exec(INITIAL, before), after);
    }
  }

  lemma {:induction false} ExecSnoc(st: State, steps: seq<Step>, step: Step)
    ensures Exec(st, steps + [step]) == Next(Exec(st, steps), step)
    decreases |steps|
  {
    if steps == [] {
      assert [] + [step] == [step] && [step][1..] == [];
    } else {
      assert (steps + [step])[1..] == steps[1..] + [step];
      ExecSnoc(Next(st, steps[0]), steps[1..], step);
    }
  }

  /** The second loop has read the header of an empty frame when the first fails and closes both connections. */
  lemma ClosedAtEmptyFrame() returns (before: seq<Step>)
    ensures Exec(INITIAL, before) == State(Deferred, Working(1), Working(0), Done, 1, 1, true)
  {
    ExecSnoc(INITIAL, [], Operate(TcpToUdp, true, true));
    before := [] + [Operate(TcpToUdp, true, true)];
    ExecSnoc(INITIAL, before, Operate(UdpToTcp, false, false));
    before := before + [Operate(UdpToTcp, false, false)];
    ExecSnoc(INITIAL, before, Advance(UdpToTcp));
    before := before + [Advance(UdpToTcp)];
    ExecSnoc(INITIAL, before, Advance(UdpToTcp));
    before := before + [Advance(UdpToTcp)];
    ExecSnoc(INITIAL, before, Advance(UdpToTcp));
    before := before + [Advance(UdpToTcp)];
  }

  /** All six steps can happen after both closes, and one of them is an operation that succeeds. */
  lemma SixAfterClose() returns (before: seq<Step>, after: seq<Step>)
    ensures Exec(INITIAL, before).once.Done? && Failed(Exec(INITIAL, before))
    ensures |after| == 6 && after[0] == Operate(TcpToUdp, true, false) && Taken(Exec(INITIAL, before), after) == 6
    ensures Exec(Exec(INITIAL, before), after).caller.Finished?
  {
    before := ClosedAtEmptyFrame();
    var st := Exec(INITIAL, before);
    var rest := [Advance(TcpToUdp), Advance(UdpToTcp), Advance(Caller), Advance(Caller)];
    after := [Operate(TcpToUdp, true, false), Operate(TcpToUdp, false, false)] + rest;
    EveryRun(INITIAL, before);
    ClosedRun(st, after);
    var st2 := Next(Next(st, after[0]), after[1]);
    assert after[1..][1..] == rest && Exec(st, after) == Exec(st2, rest);
    assert rest[1..][1..] == [Advance(Caller), Advance(Caller)] && rest[1..][1..][1..] == [Advance(Caller)];
    assert [Advance(Caller)][1..] == [];
  }

  /** Between the two closes: no datagram is received or delivered any more, while the stream can still be read and
      written. */
  lemma BetweenCloses(st: State, p: Party, op: nat, empty: bool)
    requires Inv(st) && st.udpCloses == 1 && st.tcpCloses == 0 && PcOf(st, p) == Working(op) && !p.Caller?
    ensures Enabled(st, Operate(p, true, empty)) <==> if p.UdpToTcp? then op == 1 || op == 2 else op == 0 || op == 1
  {
  }

  // ----- never stuck ---------------------------------------------------------------------

  /** A move that needs no peer: a party's own, the failure of an operation on a closed connection, or the
      success of a read of no bytes. */
  predicate NeedsNoPeer(st: State, step: Step) {
    && Enabled(st, step)
    && (step.Operate? ==> step.ok == ReadsNothing(st, step.party))
    && (step.Operate? && !step.ok ==> !IsOpen(st, Uses(step.party, PcOf(st, step.party).op)))
  }

  lemma OwnMove(st: State) returns (step: Step)
    requires Inv(st) && Failed(st) && !st.caller.Finished?
    ensures NeedsNoPeer(st, step)
  {
    if st.once.Running? {
      step := Advance(st.once.runner);
    } else if st.udpToTcp.Deferred? {
      step := Advance(UdpToTcp);
    } else if st.tcpToUdp.Deferred? {
      step := Advance(TcpToUdp);
    } else if st.udpToTcp.Working? {
      step := Operate(UdpToTcp, false, false);
    } else if st.tcpToUdp.Working? {
      step := Operate(TcpToUdp, ReadsNothing(st, TcpToUdp), false);
    } else {
      step := Advance(Caller);
    }
  }

  /** Until forwarding has returned, a failed direction always leaves a move that needs no peer. */
  lemma NeverStuck(steps: seq<Step>) returns (step: Step)
    requires Failed(Exec(INITIAL, steps)) && !Exec(INITIAL, steps).caller.Finished?
    ensures NeedsNoPeer(Exec(INITIAL, steps), step)
  {
    EveryRun(INITIAL, steps);
    step := OwnMove(Exec(INITIAL, steps));
  }

  /** Every step of the run is a move that needs no peer. */
  predicate OnlyOwnMoves(st: State, steps: seq<Step>)
    decreases |steps|
  {
    steps == [] || (NeedsNoPeer(st, steps[0]) && OnlyOwnMoves(Next(st, steps[0]), steps[1..]))
  }

  lemma OwnMoveCounts(st: State, step: Step)
    requires Inv(st) && Failed(st) && NeedsNoPeer(st, step)
    ensures Inv(Next(st, step)) && Failed(Next(st, step))
    ensures Rank(Next(st, step)) + Last(Next(st, step)) < Rank(st) + Last(st)
  {
    StepRank(st, step);
  }

  /** From every state after a failure such moves alone, at most nine, bring forwarding to its return. */
  lemma {:induction false} Returns(st: State) returns (steps: seq<Step>)
    requires Inv(st) && Failed(st)
    ensures |steps| <= Rank(st) + Last(st) && OnlyOwnMoves(st, steps) && Exec(st, steps).caller.Finished?
    decreases Rank(st) + Last(st)
  {
    steps := [];
    if !st.caller.Finished? {
      var step := OwnMove(st);
      OwnMoveCounts(st, step);
      var rest := Returns(Next(st, step));
      steps := [step] + rest;
      assert steps[1..] == rest;
    }
  }

  lemma FailedRank(st: State)
    requires Inv(st) && Failed(st)
    ensures Rank(st) + Last(st) <= 9
  {
  }

  /** After every run in which a direction has failed, forwarding can return by at most nine such moves. */
  lemma AlwaysReturns(before: seq<Step>) returns (after: seq<Step>)
    requires Failed(Exec(INITIAL, before))
    ensures |after| <= 9 && OnlyOwnMoves(Exec(INITIAL, before), after)
    ensures Exec(Exec(INITIAL, before), after).caller.Finished?
  {
    EveryRun(INITIAL, before);
    FailedRank(Exec(INITIAL, before));
    after := Returns(Exec(INITIAL, before));
  }
}
