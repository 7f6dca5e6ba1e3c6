/**
 * The junk handshake: each side sends a random number of random bytes behind a length
 * byte and discards the peer's. The random draws are inputs.
 */
module Junk {
  import opened Bytes
  import opened Stream

  const MAX_JUNK_SIZE := 256

  /** How many junk bytes a random size byte asks for: 1 to 256. */
  function JunkLen(draw: byte): nat {
    draw % MAX_JUNK_SIZE + 1
  }

  /** The junk on the wire: its length, cut to a byte, and its filling. */
  function JunkBytes(draw: byte, fill: seq<byte>): seq<byte> {
    [ByteOf(JunkLen(draw))] + fill
  }

  /** Is there enough of a stream to discard junk from? */
  predicate CanSkip(input: seq<byte>) {
    |input| >= 1 && |input| >= 1 + (input[0] as int)
  }

  /** What ReadJunk leaves of a stream. */
  function Skip(input: seq<byte>): seq<byte>
    requires CanSkip(input)
  {
    input[1 + input[0]..]
  }

  /** What stays in front of the peer's data: nothing, unless the length byte has wrapped to 0. */
  function Stray(draw: byte, fill: seq<byte>): seq<byte> {
    if draw == 255 then fill else []
  }

  /** Discarding junk leaves the data exactly in place if and only if the draw is not 255; a draw of
      255 leaves exactly 256 stray bytes in front. */
  lemma SkipJunk(draw: byte, fill: seq<byte>, data: seq<byte>)
    requires |fill| == JunkLen(draw)
    ensures CanSkip(JunkBytes(draw, fill) + data)
    ensures Skip(JunkBytes(draw, fill) + data) == Stray(draw, fill) + data
    ensures Skip(JunkBytes(draw, fill) + data) == data <==> draw != 255
    ensures |Skip(JunkBytes(draw, fill) + data)| == |data| + if draw == 255 then 256 else 0
  {
    var wire := JunkBytes(draw, fill) + data;
    assert wire == [ByteOf(JunkLen(draw))] + (fill + data);
  }

  /** On the wire, for every draw: draw + 1 bytes of junk, 1 to 256, behind a byte that says so and is 0 for 256. */
  lemma JunkOnTheWire(draw: byte, fill: seq<byte>)
    requires |fill| == JunkLen(draw)
    ensures |fill| == draw + 1 && |JunkBytes(draw, fill)| == draw + 2
    ensures JunkBytes(draw, fill)[0] == (if draw == 255 then 0 else draw + 1) && JunkBytes(draw, fill)[1..] == fill
  {
  }

  // ----- the sequential code -------------------------------------------------------

  method WriteJunk(conn: Conn<byte>, draw: byte, random: seq<byte>) returns (ok: bool)
    requires |random| == JunkLen(draw)
    modifies conn`outbound, conn`credit
    ensures ok <==> old(conn.credit) > 0
    ensures conn.outbound == old(conn.outbound) + if ok then JunkBytes(draw, random) else []
    ensures |random| == draw + 1
    ensures ok ==> conn.outbound == old(conn.outbound) + ([if draw == 255 then 0 else draw + 1] + random)
  {
    var junkLen := draw % MAX_JUNK_SIZE + 1;
    var junk := new byte[1 + junkLen];
    junk[0] := junkLen % 256;
    forall i | 0 <= i < junkLen {
      junk[1 + i] := random[i];
    }
    assert junk[..] == JunkBytes(draw, random);
    ok := conn.Write(junk[..]);
  }

  method ReadJunk(conn: Conn<byte>) returns (ok: bool)
    modifies conn`inbound
    ensures ok <==> CanSkip(old(conn.Pending()))
    ensures ok ==> conn.Pending() == Skip(old(conn.Pending()))
  {
    ghost var input := conn.Pending();
    var sizeBuf := new byte[1];
    ok := conn.ReadFull(sizeBuf);
    if !ok {
      return;
    }
    assert sizeBuf[..] == input[..1];
    var junkLen := sizeBuf[0] as int;
    if junkLen > 0 {
      var discardBuf := new byte[junkLen];
      ok := conn.ReadFull(discardBuf);
    }
  }

  method PerformClientHandshake(conn: Conn<byte>, draw: byte, random: seq<byte>) returns (ok: bool)
    requires |random| == JunkLen(draw)
    modifies conn
    ensures ok <==> old(conn.credit) > 0 && CanSkip(old(conn.Pending()))
    ensures ok ==> conn.Pending() == Skip(old(conn.Pending()))
    ensures conn.outbound == old(conn.outbound) + if old(conn.credit) > 0 then JunkBytes(draw, random) else []
  {
    ok := WriteJunk(conn, draw, random);
    if ok {
      ok := ReadJunk(conn);
    }
  }

  method PerformServerHandshake(conn: Conn<byte>, draw: byte, random: seq<byte>) returns (ok: bool)
    requires |random| == JunkLen(draw)
    modifies conn
    ensures ok <==> old(conn.credit) > 0 && CanSkip(old(conn.Pending()))
    ensures ok ==> conn.Pending() == Skip(old(conn.Pending()))
    ensures conn.outbound == old(conn.outbound)
      + if old(conn.credit) > 0 && CanSkip(old(conn.Pending())) then JunkBytes(draw, random) else []
  {
    ok := ReadJunk(conn);
    if ok {
      ok := WriteJunk(conn, draw, random);
    }
  }
}

/**
 * Both handshakes at once, in every interleaving and fragmentation, over a link that buffers a limited
 * number of bytes in each direction. A write goes on while there is room or the peer is reading.
 */
module JunkRuns {
  import opened Bytes
  import opened Junk

  datatype Role = Client | Server

  /** Send: that much of its junk is still to be written. */
  datatype Pc = Send(left: nat) | Header | Body(left: nat) | Through

  /** A side: its place in the code, all it has written, what of that is application data, and how much of
      the peer's bytes it has read. */
  datatype Side = Side(pc: Pc, out: seq<byte>, said: seq<byte>, taken: nat)

  datatype State = State(client: Side, server: Side)

  /** Each side's random draw and filling, and how many bytes the link buffers for its peer. */
  datatype Inputs = Inputs(draw: byte, fill: seq<byte>, room: nat)

  datatype Params = Params(client: Inputs, server: Inputs)

  ghost predicate Wellformed(p: Params) {
    |p.client.fill| == JunkLen(p.client.draw) && |p.server.fill| == JunkLen(p.server.draw)
  }

  function JunkOf(inputs: Inputs): seq<byte> {
    JunkBytes(inputs.draw, inputs.fill)
  }

  function Initial(p: Params): State {
    State(Side(Send(|JunkOf(p.client)|), [], [], 0), Side(Header, [], [], 0))
  }

  datatype Step =
    | Move(role: Role, n: nat)              // a read or a write moves n bytes
    | Talk(role: Role, data: seq<byte>)     // the application behind a finished handshake writes

  function InputsOf(p: Params, r: Role): Inputs {
    if r.Client? then p.client else p.server
  }

  function Me(s: State, r: Role): Side {
    if r.Client? then s.client else s.server
  }

  function Peer(r: Role): Role {
    if r.Client? then Server else Client
  }

  function With(s: State, r: Role, side: Side): State {
    if r.Client? then s.(client := side) else s.(server := side)
  }

  /** How many bytes a side is waiting to read. */
  function Wants(pc: Pc): nat {
    match pc
    case Header => 1
    case Body(left) => left
    case _ => 0
  }

  /** Does the link take n more bytes from a side? */
  predicate Fits(me: Side, peer: Side, room: nat, n: nat) {
    |me.out| + n <= peer.taken + Wants(peer.pc) + room
  }

  predicate CanMove(me: Side, peer: Side, room: nat, n: nat) {
    match me.pc
    case Send(left) => 1 <= n <= left && Fits(me, peer, room, n)
    case Header => n == 1 && me.taken + 1 <= |peer.out|
    case Body(left) => 1 <= n <= left && me.taken + n <= |peer.out|
    case Through => false
  }

  predicate Enabled(p: Params, s: State, step: Step) {
    var me, peer, room := Me(s, step.role), Me(s, Peer(step.role)), InputsOf(p, step.role).room;
    match step
    case Move(_, n) => CanMove(me, peer, room, n)
    case Talk(_, data) => me.pc.Through? && Fits(me, peer, room, |data|)
  }

  /** The client writes, then reads; the server reads, then writes. */
  function AfterSend(r: Role): Pc {
    if r.Client? then Header else Through
  }

  function AfterRead(r: Role, inputs: Inputs): Pc {
    if r.Client? then Through else Send(|JunkOf(inputs)|)
  }

  function MoveOf(r: Role, me: Side, inputs: Inputs, peerOut: seq<byte>, n: nat): Side {
    match me.pc
    case Send(left) =>
      var junk := JunkOf(inputs);
      if n <= left <= |junk|
      then me.(out := me.out + junk[|junk| - left..|junk| - left + n],
               pc := if n < left then Send(left - n) else AfterSend(r))
      else me
    case Header =>
      if me.taken < |peerOut|
      then me.(taken := me.taken + 1,
               pc := if peerOut[me.taken] == 0 then AfterRead(r, inputs) else Body(peerOut[me.taken]))
      else me
    case Body(left) => me.(taken := me.taken + n, pc := if n < left then Body(left - n) else AfterRead(r, inputs))
    case Through => me
  }

  /** A step that is not enabled changes nothing, so every sequence of steps is a run. */
  function Next(p: Params, s: State, step: Step): State {
    var r := step.role;
    var me := Me(s, r);
    if !Enabled(p, s, step) then s
    else
      match step
      case Move(_, n) => With(s, r, MoveOf(r, me, InputsOf(p, r), Me(s, Peer(r)).out, n))
      case Talk(_, data) => With(s, r, me.(out := me.out + data, said := me.said + data))
  }

  function Exec(p: Params, s: State, steps: seq<Step>): State
    decreases |steps|
  {
    if steps == [] then s else Exec(p, Next(p, s, steps[0]), steps[1..])
  }

  function LengthByte(inputs: Inputs): byte {
    ByteOf(JunkLen(inputs.draw))
  }

  // ----- what every interleaving keeps ---------------------------------------------------

  /** What a side has written, by its place in the code. */
  ghost predicate OutInv(r: Role, me: Side, inputs: Inputs) {
    var junk := JunkOf(inputs);
    && (!me.pc.Through? ==> me.said == [])
    && match me.pc
       case Send(left) => 1 <= left <= |junk| && me.out == junk[..|junk| - left]
       case Through => me.out == junk + me.said
       case _ => me.out == if r.Client? then junk else []
  }

  /** What a side has read, by its place in the code and the peer's length byte. */
  ghost predicate InInv(r: Role, me: Side, peer: Inputs, peerOut: seq<byte>) {
    var size := LengthByte(peer);
    && me.taken <= |peerOut|
    && match me.pc
       case Send(_) => me.taken == if r.Client? then 0 else 1 + size
       case Header => me.taken == 0
       case Body(left) => 1 <= left <= size && me.taken == 1 + size - left
       case Through => me.taken == 1 + size
  }

  /** The link has never taken more than its room and what the peer's handshake reads. */
  ghost predicate RoomInv(me: Side, inputs: Inputs) {
    |me.out| <= inputs.room + 1 + LengthByte(inputs)
  }

  ghost predicate SideInv(r: Role, me: Side, inputs: Inputs, peer: Inputs, peerOut: seq<byte>) {
    OutInv(r, me, inputs) && InInv(r, me, peer, peerOut) && RoomInv(me, inputs)
  }

  ghost predicate Inv(p: Params, s: State) {
    && SideInv(Client, s.client, p.client, p.server, s.server.out)
    && SideInv(Server, s.server, p.server, p.client, s.client.out)
  }

  /** What a side reads first is the peer's length byte. */
  lemma FirstByte(r: Role, me: Side, inputs: Inputs)
    requires OutInv(r, me, inputs) && me.out != []
    ensures me.out[0] == LengthByte(inputs)
  {
    assert JunkOf(inputs)[0] == LengthByte(inputs);
  }

  lemma TakeMore(junk: seq<byte>, from: nat, n: nat)
    requires from + n <= |junk|
    ensures junk[..from] + junk[from..from + n] == junk[..from + n]
    ensures from + n == |junk| ==> junk[..from + n] == junk == junk + []
  {
  }

  lemma SendKeepsOut(r: Role, me: Side, inputs: Inputs, peerOut: seq<byte>, n: nat)
    requires OutInv(r, me, inputs) && me.pc.Send? && 1 <= n <= me.pc.left
    ensures var me' := MoveOf(r, me, inputs, peerOut, n);
      OutInv(r, me', inputs) && |me'.out| == |me.out| + n
  {
    TakeMore(JunkOf(inputs), |JunkOf(inputs)| - me.pc.left, n);
  }

  lemma SendKeepsInv(r: Role, me: Side, inputs: Inputs, peer: Side, peerInputs: Inputs, n: nat)
    requires SideInv(r, me, inputs, peerInputs, peer.out) && InInv(Peer(r), peer, inputs, me.out)
    requires me.pc.Send? && CanMove(me, peer, inputs.room, n)
    ensures var me' := MoveOf(r, me, inputs, peer.out, n);
      SideInv(r, me', inputs, peerInputs, peer.out) && |me.out| <= |me'.out|
  {
    SendKeepsOut(r, me, inputs, peer.out, n);
  }

  lemma ReadKeepsInv(r: Role, me: Side, inputs: Inputs, peer: Side, peerInputs: Inputs, n: nat)
    requires SideInv(r, me, inputs, peerInputs, peer.out) && OutInv(Peer(r), peer, peerInputs)
    requires (me.pc.Header? || me.pc.Body?) && CanMove(me, peer, inputs.room, n)
    ensures SideInv(r, MoveOf(r, me, inputs, peer.out, n), inputs, peerInputs, peer.out)
    ensures MoveOf(r, me, inputs, peer.out, n).out == me.out
  {
    FirstByte(Peer(r), peer, peerInputs);
    assert JunkOf(inputs) + [] == JunkOf(inputs);
    assert JunkOf(inputs)[..0] == [];
  }

  lemma TalkKeepsInv(r: Role, me: Side, inputs: Inputs, peer: Side, peerInputs: Inputs, data: seq<byte>)
    requires SideInv(r, me, inputs, peerInputs, peer.out) && InInv(Peer(r), peer, inputs, me.out)
    requires me.pc.Through? && Fits(me, peer, inputs.room, |data|)
    ensures SideInv(r, me.(out := me.out + data, said := me.said + data), inputs, peerInputs, peer.out)
  {
    assert JunkOf(inputs) + (me.said + data) == (JunkOf(inputs) + me.said) + data;
  }

  /** A peer that has written more finds its reader as it was. */
  lemma MoreToRead(r: Role, me: Side, inputs: Inputs, peer: Inputs, before: seq<byte>, after: seq<byte>)
    requires SideInv(r, me, inputs, peer, before) && |before| <= |after|
    ensures SideInv(r, me, inputs, peer, after)
  {
  }

  lemma StepKeepsInv(p: Params, s: State, step: Step)
    requires Wellformed(p) && Inv(p, s)
    ensures Inv(p, Next(p, s, step))
  {
    if Enabled(p, s, step) {
      var r := step.role;
      var me, peer, mine, theirs := Me(s, r), Me(s, Peer(r)), InputsOf(p, r), InputsOf(p, Peer(r));
      match step
      case Talk(_, data) =>
        TalkKeepsInv(r, me, mine, peer, theirs, data);
        MoreToRead(Peer(r), peer, theirs, mine, me.out, me.out + data);
      case Move(_, n) =>
        if me.pc.Send? {
          SendKeepsInv(r, me, mine, peer, theirs, n);
        } else {
          ReadKeepsInv(r, me, mine, peer, theirs, n);
        }
        MoreToRead(Peer(r), peer, theirs, mine, me.out, MoveOf(r, me, mine, peer.out, n).out);
    }
  }

  lemma {:induction false} RunKeepsInv(p: Params, s: State, steps: seq<Step>)
    requires Wellformed(p) && Inv(p, s)
    ensures Inv(p, Exec(p, s, steps))
    decreases |steps|
  {
    if steps != [] {
      StepKeepsInv(p, s, steps[0]);
      RunKeepsInv(p, Next(p, s, steps[0]), steps[1..]);
    }
  }

  // ----- when both handshakes complete ------------------------------------------------------

  /** Neither handshake can move. */
  ghost predicate Stopped(p: Params, s: State) {
    forall r, n :: !Enabled(p, s, Move(r, n))
  }

  /** The peer's handshake reads all the junk of this side, or the link has room for what it leaves. */
  predicate Roomy(inputs: Inputs) {
    inputs.draw != 255 || inputs.room >= 256
  }

  lemma JunkSize(inputs: Inputs)
    requires |inputs.fill| == JunkLen(inputs.draw)
    ensures |JunkOf(inputs)| == 1 + LengthByte(inputs) + if inputs.draw == 255 then 256 else 0
  {
  }

  lemma ThroughNeedsRoom(r: Role, me: Side, inputs: Inputs)
    requires |inputs.fill| == JunkLen(inputs.draw) && OutInv(r, me, inputs) && RoomInv(me, inputs) && me.pc.Through?
    ensures Roomy(inputs)
  {
    JunkSize(inputs);
  }

  /** With room for what the server leaves, a client that cannot move is through or waits for the server. */
  lemma ClientMoves(p: Params, s: State)
    requires Wellformed(p) && Inv(p, s) && Roomy(p.client) && !s.client.pc.Through?
    ensures s.client.pc.Send? ==> Enabled(p, s, Move(Client, 1)) || Enabled(p, s, Move(Server, 1))
    ensures !s.client.pc.Send? ==> Enabled(p, s, Move(Client, 1)) || |s.server.out| <= s.client.taken
  {
    JunkSize(p.client);
  }

  /** With room for what the client leaves, a server that is not through can move, or the client can read. */
  lemma ServerMoves(p: Params, s: State)
    requires Wellformed(p) && Inv(p, s) && Roomy(p.server) && !s.client.pc.Send?
    ensures !s.server.pc.Through? ==> Enabled(p, s, Move(Server, 1)) || Enabled(p, s, Move(Client, 1))
    ensures s.server.pc.Through? && !s.client.pc.Through? ==> |s.server.out| > s.client.taken
  {
    JunkSize(p.client);
    JunkSize(p.server);
  }

  /**
   * A run that stops has completed both handshakes exactly when for each side the draw is not 255 or the link
   * has room for the 256 bytes that its peer leaves unread.
   */
  lemma CompleteExactly(p: Params, s: State)
    requires Wellformed(p) && Inv(p, s) && Stopped(p, s)
    ensures s.client.pc.Through? && s.server.pc.Through? <==> Roomy(p.client) && Roomy(p.server)
  {
    if s.client.pc.Through? && s.server.pc.Through? {
      ThroughNeedsRoom(Client, s.client, p.client);
      ThroughNeedsRoom(Server, s.server, p.server);
    }
    if Roomy(p.client) && Roomy(p.server) {
      assert !Enabled(p, s, Move(Client, 1)) && !Enabled(p, s, Move(Server, 1));
      if !s.client.pc.Through? {
        ClientMoves(p, s);
      }
      if !s.client.pc.Send? {
        ServerMoves(p, s);
      }
    }
  }

  // ----- what is left for the peer ------------------------------------------------------------

  /** What a side still has to read. */
  function Unread(s: State, r: Role): seq<byte> {
    var out, taken := Me(s, Peer(r)).out, Me(s, r).taken;
    if taken <= |out| then out[taken..] else []
  }

  lemma UnreadIs(r: Role, me: Side, peer: Side, inputs: Inputs)
    requires |inputs.fill| == JunkLen(inputs.draw) && me.pc.Through? && peer.pc.Through?
    requires OutInv(Peer(r), peer, inputs) && InInv(r, me, inputs, peer.out)
    ensures me.taken <= |peer.out| && peer.out[me.taken..] == Stray(inputs.draw, inputs.fill) + peer.said
    ensures peer.out[me.taken..] == peer.said <==> inputs.draw != 255
  {
    SkipJunk(inputs.draw, inputs.fill, peer.said);
  }

  lemma InitialInv(p: Params)
    requires Wellformed(p)
    ensures Inv(p, Initial(p))
  {
    assert JunkOf(p.client)[..0] == [];
  }

  /**
   * A run that stops has completed both handshakes exactly when each side draws no 255 or the link buffers
   * 256 bytes for it. Each side then finds the peer's application data behind the peer's stray bytes: exactly
   * in place on both sides if and only if neither draw was 255.
   */
  lemma HandshakeExact(p: Params, steps: seq<Step>)
    requires Wellformed(p)
    ensures var s := Exec(p, Initial(p), steps);
      && (Stopped(p, s) ==> (s.client.pc.Through? && s.server.pc.Through? <==> Roomy(p.client) && Roomy(p.server)))
      && (s.client.pc.Through? && s.server.pc.Through? ==>
            && Unread(s, Server) == Stray(p.client.draw, p.client.fill) + s.client.said
            && Unread(s, Client) == Stray(p.server.draw, p.server.fill) + s.server.said
            && ((Unread(s, Server) == s.client.said && Unread(s, Client) == s.server.said)
                <==> (p.client.draw != 255 && p.server.draw != 255)))
  {
    var s := Exec(p, Initial(p), steps);
    InitialInv(p);
    RunKeepsInv(p, Initial(p), steps);
    if Stopped(p, s) {
      CompleteExactly(p, s);
    }
    if s.client.pc.Through? && s.server.pc.Through? {
      UnreadIs(Server, s.server, s.client, p.client);
      UnreadIs(Client, s.client, s.server, p.server);
    }
  }

  // ----- bounded runs -----------------------------------------------------------------------------

  function SideRank(r: Role, pc: Pc): nat {
    match pc
    case Send(left) => left + if r.Client? then 256 else 0
    case Header => if r.Client? then 256 else 513
    case Body(left) => left + if r.Client? then 0 else 257
    case Through => 0
  }

  function Rank(s: State): nat {
    SideRank(Client, s.client.pc) + SideRank(Server, s.server.pc)
  }

  /** How many of these steps are moves of a handshake that are taken. */
  function Taken(p: Params, s: State, steps: seq<Step>): nat
    decreases |steps|
  {
    if steps == [] then 0
    else (if steps[0].Move? && Enabled(p, s, steps[0]) then 1 else 0) + Taken(p, Next(p, s, steps[0]), steps[1..])
  }

  lemma MoveLowersRank(r: Role, me: Side, inputs: Inputs, peer: Side, n: nat)
    requires CanMove(me, peer, inputs.room, n) && |JunkOf(inputs)| <= 257
    requires me.pc.Send? ==> me.pc.left <= |JunkOf(inputs)|
    ensures SideRank(r, MoveOf(r, me, inputs, peer.out, n).pc) < SideRank(r, me.pc)
  {
  }

  lemma StepLowersRank(p: Params, s: State, step: Step)
    requires Wellformed(p) && Inv(p, s)
    ensures Rank(Next(p, s, step)) <= Rank(s) - if step.Move? && Enabled(p, s, step) then 1 else 0
  {
    if step.Move? && Enabled(p, s, step) {
      var r := step.role;
      JunkSize(InputsOf(p, r));
      MoveLowersRank(r, Me(s, r), InputsOf(p, r), Me(s, Peer(r)), step.n);
    }
  }

  lemma {:induction false} TakenBounded(p: Params, s: State, steps: seq<Step>)
    requires Wellformed(p) && Inv(p, s)
    ensures Taken(p, s, steps) <= Rank(s)
    decreases |steps|
  {
    if steps != [] {
      StepKeepsInv(p, s, steps[0]);
      StepLowersRank(p, s, steps[0]);
      TakenBounded(p, Next(p, s, steps[0]), steps[1..]);
    }
  }

  /** No two handshakes, however fragmented, take more than 1026 moves. */
  lemma RunsAreBounded(p: Params, steps: seq<Step>)
    requires Wellformed(p)
    ensures Taken(p, Initial(p), steps) <= 1026
  {
    InitialInv(p);
    JunkSize(p.client);
    TakenBounded(p, Initial(p), steps);
  }
}
