/**
 * Both sides of the handshake running at once over two byte queues. A read takes any
 * nonempty fragment of what has arrived, the two sides interleave freely, and either
 * may fail on a broken connection at any point.
 */
module AuthRuns {
  import opened Bytes
  import opened Auth

  /** One handshake: who takes part, with which tokens and which nonce. */
  datatype Params = Params(mac: Mac, nonce: seq<byte>, id: seq<byte>, clientToken: seq<byte>, serverToken: seq<byte>)

  ghost predicate Wellformed(p: Params) {
    IsMac(p.mac) && |p.nonce| == NONCE_LEN
  }

  datatype ServerPc =
    | SendNonce
    | ReadHeader
    | ReadBody(idLen: nat, got: seq<byte>)
    | Accepted(id: seq<byte>)
    | Rejected
    | ServerFailed

  datatype ClientPc =
    | ReadNonce(got: seq<byte>)
    | SendPacket(nonce: seq<byte>)
    | ReadAck
    | Authenticated
    | Refused
    | BadId
    | ClientFailed

  /** down and up are all bytes written so far towards the client and the server; the peer has
      read the first downRead and upRead of them. */
  datatype State = State(server: ServerPc, client: ClientPc, down: seq<byte>, downRead: nat, up: seq<byte>, upRead: nat)

  const INITIAL := State(SendNonce, ReadNonce([]), [], 0, [], 0)

  datatype Step =
    | ServerMove(n: nat)   // the server's next write, or a read that obtains n bytes
    | ClientMove(n: nat)
    | ServerFault
    | ClientFault

  /** The number of bytes a side still wants from its current read; 0 when it is not reading. */
  function ServerWants(pc: ServerPc): int {
    match pc
    case ReadHeader => 1
    case ReadBody(idLen, got) => idLen + TAG_LEN - |got|
    case _ => 0
  }

  function ClientWants(pc: ClientPc): int {
    match pc
    case ReadNonce(got) => NONCE_LEN - |got|
    case ReadAck => 1
    case _ => 0
  }

  predicate ServerDone(pc: ServerPc) {
    pc.Accepted? || pc.Rejected? || pc.ServerFailed?
  }

  predicate ClientDone(pc: ClientPc) {
    pc.Authenticated? || pc.Refused? || pc.BadId? || pc.ClientFailed?
  }

  predicate Enabled(s: State, step: Step) {
    match step
    case ServerMove(n) =>
      if s.server.SendNonce? then n == 0 else 1 <= n <= ServerWants(s.server) && s.upRead + n <= |s.up|
    case ClientMove(n) =>
      if s.client.SendPacket? then n == 0 else 1 <= n <= ClientWants(s.client) && s.downRead + n <= |s.down|
    case ServerFault => !ServerDone(s.server)
    case ClientFault => !ClientDone(s.client)
  }

  /** The server has the whole body: verify, then acknowledge. */
  function Verify(p: Params, s: State, idLen: nat, body: seq<byte>): State
    requires idLen <= |body|
  {
    var id, tag := body[..idLen], body[idLen..];
    if tag == Tag(p.mac, p.serverToken, p.nonce, id)
    then s.(server := Accepted(id), down := s.down + [1])
    else s.(server := Rejected, down := s.down + [0])
  }

  function ServerNext(p: Params, s: State, n: nat): State
    requires Enabled(s, ServerMove(n))
  {
    match s.server
    case SendNonce => s.(server := ReadHeader, down := s.down + p.nonce)
    case ReadHeader =>
      var idLen := s.up[s.upRead];
      if idLen == 0 then s.(server := Rejected, down := s.down + [0], upRead := s.upRead + 1)
      else s.(server := ReadBody(idLen, []), upRead := s.upRead + 1)
    case ReadBody(idLen, got) =>
      var body := got + s.up[s.upRead..s.upRead + n];
      var s' := s.(upRead := s.upRead + n);
      if |body| < idLen + TAG_LEN then s'.(server := ReadBody(idLen, body)) else Verify(p, s', idLen, body)
    case _ => s
  }

  function ClientNext(p: Params, s: State, n: nat): State
    requires Enabled(s, ClientMove(n))
  {
    match s.client
    case ReadNonce(got) =>
      var nonce := got + s.down[s.downRead..s.downRead + n];
      s.(downRead := s.downRead + n,
         client := if |nonce| < NONCE_LEN then ReadNonce(nonce) else if GoodId(p.id) then SendPacket(nonce) else BadId)
    case SendPacket(nonce) =>
      if GoodId(p.id) then s.(client := ReadAck, up := s.up + Packet(p.id, Tag(p.mac, p.clientToken, nonce, p.id))) else s
    case ReadAck =>
      s.(downRead := s.downRead + 1, client := if s.down[s.downRead] == 1 then Authenticated else Refused)
    case _ => s
  }

  /** A step that is not enabled changes nothing, so every sequence of steps is a run. */
  function Next(p: Params, s: State, step: Step): State {
    if !Enabled(s, step) then s
    else
      match step
      case ServerMove(n) => ServerNext(p, s, n)
      case ClientMove(n) => ClientNext(p, s, n)
      case ServerFault => s.(server := ServerFailed)
      case ClientFault => s.(client := ClientFailed)
  }

  function Exec(p: Params, s: State, steps: seq<Step>): State
    decreases |steps|
  {
    if steps == [] then s else Exec(p, Next(p, s, steps[0]), steps[1..])
  }

  // ----- what every interleaving keeps -----------------------------------------------

  function TheTag(p: Params): seq<byte> {
    Tag(p.mac, p.clientToken, p.nonce, p.id)
  }

  function ThePacket(p: Params): seq<byte> {
    if GoodId(p.id) then Packet(p.id, TheTag(p)) else []
  }

  /** Does the client's tag verify under the server's token? With equal tokens it does. */
  predicate TagsAgree(p: Params) {
    TheTag(p) == Tag(p.mac, p.serverToken, p.nonce, p.id)
  }

  /** What the server has written, and what it has read of the packet. */
  ghost predicate ServerInv(p: Params, s: State) {
    match s.server
    case SendNonce => s.down == [] && s.upRead == 0
    case ReadHeader => s.down == p.nonce && s.upRead == 0
    case ReadBody(idLen, got) =>
      && s.down == p.nonce && s.up == ThePacket(p) && GoodId(p.id) && idLen == |p.id|
      && 1 <= s.upRead <= |s.up| && got == s.up[1..s.upRead] && |got| < idLen + TAG_LEN
    case Accepted(id) =>
      s.down == p.nonce + [1] && s.up == ThePacket(p) && GoodId(p.id) && id == p.id && TagsAgree(p)
    case Rejected =>
      s.down == p.nonce + [0] && s.up == ThePacket(p) && GoodId(p.id) && !TagsAgree(p)
    case ServerFailed => s.down == [] || s.down == p.nonce
  }

  /** What the client has read, and what it has written. */
  ghost predicate ClientInv(p: Params, s: State) {
    && s.downRead <= |s.down|
    && match s.client
       case ReadNonce(got) => got == s.down[..s.downRead] && |got| < NONCE_LEN && s.up == []
       case SendPacket(nonce) => nonce == p.nonce && s.downRead == NONCE_LEN && GoodId(p.id) && s.up == []
       case ReadAck => s.downRead == NONCE_LEN && GoodId(p.id) && s.up == ThePacket(p)
       case Authenticated => s.downRead == NONCE_LEN + 1 && s.down[NONCE_LEN] == 1 && GoodId(p.id) && s.up == ThePacket(p)
       case Refused => s.downRead == NONCE_LEN + 1 && s.down[NONCE_LEN] != 1 && GoodId(p.id) && s.up == ThePacket(p)
       case BadId => s.downRead == NONCE_LEN && !GoodId(p.id) && s.up == []
       case ClientFailed => s.up == [] || (GoodId(p.id) && s.up == ThePacket(p))
  }

  ghost predicate Inv(p: Params, s: State) {
    ServerInv(p, s) && ClientInv(p, s)
  }

  lemma PacketParts(p: Params)
    requires Wellformed(p) && GoodId(p.id)
    ensures var packet := ThePacket(p);
      && |packet| == 1 + |p.id| + TAG_LEN && packet[0] == |p.id|
      && packet[1..][..|p.id|] == p.id && packet[1..][|p.id|..] == TheTag(p)
  {
  }

  lemma BodyKeepsInv(p: Params, s: State, n: nat)
    requires Wellformed(p) && Inv(p, s) && Enabled(s, ServerMove(n)) && s.server.ReadBody?
    ensures ServerInv(p, ServerNext(p, s, n))
  {
    PacketParts(p);
    var body := s.server.got + s.up[s.upRead..s.upRead + n];
    assert body == s.up[1..s.upRead + n];
    if |body| == s.server.idLen + TAG_LEN {
      assert body == s.up[1..];
    }
  }

  lemma ServerKeepsInv(p: Params, s: State, n: nat)
    requires Wellformed(p) && Inv(p, s) && Enabled(s, ServerMove(n))
    ensures Inv(p, ServerNext(p, s, n))
  {
    if s.server.ReadBody? {
      BodyKeepsInv(p, s, n);
    } else if GoodId(p.id) {
      PacketParts(p);
    }
  }

  lemma ClientKeepsInv(p: Params, s: State, n: nat)
    requires Wellformed(p) && Inv(p, s) && Enabled(s, ClientMove(n))
    ensures Inv(p, ClientNext(p, s, n))
  {
    match s.client
    case ReadNonce(got) =>
      assert s.down[..s.downRead + n] == got + s.down[s.downRead..s.downRead + n];
    case _ =>
  }

  lemma StepKeepsInv(p: Params, s: State, step: Step)
    requires Wellformed(p) && Inv(p, s)
    ensures Inv(p, Next(p, s, step))
  {
    if Enabled(s, step) {
      match step
      case ServerMove(n) => ServerKeepsInv(p, s, n);
      case ClientMove(n) => ClientKeepsInv(p, s, n);
      case _ =>
    }
  }

  lemma {:induction false} EveryInterleaving(p: Params, s: State, steps: seq<Step>)
    requires Wellformed(p) && Inv(p, s)
    ensures Inv(p, Exec(p, s, steps))
    decreases |steps|
  {
    if steps != [] {
      StepKeepsInv(p, s, steps[0]);
      EveryInterleaving(p, Next(p, s, steps[0]), steps[1..]);
    }
  }

  /** Agreement, in every interleaving, fragmentation and pattern of faults: a client that succeeds has
      a server that accepted that client's ID, under a tag that both tokens produce; and whatever ID a
      server accepts is the client's. */
  lemma Agreement(p: Params, steps: seq<Step>)
    requires Wellformed(p)
    ensures var s := Exec(p, INITIAL, steps);
      && (s.client.Authenticated? ==> s.server == Accepted(p.id) && GoodId(p.id) && TagsAgree(p))
      && (s.server.Accepted? ==> s.server.id == p.id && GoodId(p.id) && TagsAgree(p))
  {
    EveryInterleaving(p, INITIAL, steps);
  }

  // ----- termination ----------------------------------------------------------------------

  function ServerRank(pc: ServerPc): int {
    match pc
    case SendNonce => 290
    case ReadHeader => 289
    case ReadBody(idLen, got) => 1 + idLen + TAG_LEN - |got|
    case _ => 0
  }

  function ClientRank(pc: ClientPc): int {
    match pc
    case ReadNonce(got) => 3 + NONCE_LEN - |got|
    case SendPacket(_) => 2
    case ReadAck => 1
    case _ => 0
  }

  function Rank(s: State): int {
    ServerRank(s.server) + ClientRank(s.client)
  }

  /** The steps of a run that do something. */
  function Taken(p: Params, s: State, steps: seq<Step>): nat
    decreases |steps|
  {
    if steps == [] then 0
    else (if Enabled(s, steps[0]) then 1 else 0) + Taken(p, Next(p, s, steps[0]), steps[1..])
  }

  lemma StepDecreases(p: Params, s: State, step: Step)
    requires Wellformed(p) && Inv(p, s) && Enabled(s, step)
    ensures 0 <= Rank(Next(p, s, step)) < Rank(s)
  {
  }

  lemma {:induction false} TakenBounded(p: Params, s: State, steps: seq<Step>)
    requires Wellformed(p) && Inv(p, s)
    ensures Taken(p, s, steps) <= Rank(s)
    decreases |steps|
  {
    if steps != [] {
      StepKeepsInv(p, s, steps[0]);
      var s' := Next(p, s, steps[0]);
      if Enabled(s, steps[0]) {
        StepDecreases(p, s, steps[0]);
      }
      TakenBounded(p, s', steps[1..]);
    }
  }

  /** No run, however fragmented, takes more than 325 steps. */
  lemma RunsAreBounded(p: Params, steps: seq<Step>)
    requires Wellformed(p)
    ensures Taken(p, INITIAL, steps) <= 325
  {
    TakenBounded(p, INITIAL, steps);
  }

  /** No side can move: each is done, or waits for bytes that are not there. */
  ghost predicate Stopped(s: State) {
    forall n :: !Enabled(s, ServerMove(n)) && !Enabled(s, ClientMove(n))
  }

  predicate NoFaults(steps: seq<Step>) {
    forall i :: 0 <= i < |steps| ==> !steps[i].ServerFault? && !steps[i].ClientFault?
  }

  lemma {:induction false} NobodyFailed(p: Params, s: State, steps: seq<Step>)
    requires NoFaults(steps) && !s.server.ServerFailed? && !s.client.ClientFailed?
    ensures !Exec(p, s, steps).server.ServerFailed? && !Exec(p, s, steps).client.ClientFailed?
    decreases |steps|
  {
    if steps != [] {
      NobodyFailed(p, Next(p, s, steps[0]), steps[1..]);
    }
  }

  lemma StoppedMeans(p: Params, s: State)
    requires Wellformed(p) && Inv(p, s) && Stopped(s)
    requires !s.server.ServerFailed? && !s.client.ClientFailed?
    ensures GoodId(p.id) && TagsAgree(p) ==> s.server == Accepted(p.id) && s.client.Authenticated?
    ensures GoodId(p.id) && !TagsAgree(p) ==> s.server.Rejected? && s.client.Refused?
    ensures !GoodId(p.id) ==> s.server.ReadHeader? && s.client.BadId?
  {
    assert !Enabled(s, ServerMove(0)) && !Enabled(s, ServerMove(1));
    assert !Enabled(s, ClientMove(0)) && !Enabled(s, ClientMove(1));
    if GoodId(p.id) {
      PacketParts(p);
    }
  }

  /**
   * How every run over a faithful channel ends, exactly: with a 1 to 255 byte ID both sides finish, in
   * success if the tags agree and in rejection otherwise; with any other ID the client gives up after
   * the nonce and the server is left waiting for the first byte of the packet.
   */
  lemma Outcome(p: Params, steps: seq<Step>)
    requires Wellformed(p) && NoFaults(steps) && Stopped(Exec(p, INITIAL, steps))
    ensures var s := Exec(p, INITIAL, steps);
      && (GoodId(p.id) && TagsAgree(p) ==> s.server == Accepted(p.id) && s.client.Authenticated?)
      && (GoodId(p.id) && !TagsAgree(p) ==> s.server.Rejected? && s.client.Refused?)
      && (!GoodId(p.id) ==> s.server.ReadHeader? && s.client.BadId?)
  {
    var s := Exec(p, INITIAL, steps);
    EveryInterleaving(p, INITIAL, steps);
    NobodyFailed(p, INITIAL, steps);
    StoppedMeans(p, s);
  }

  /** With equal tokens and a 1 to 255 byte ID, every run that stops has succeeded on both sides. */
  lemma EqualTokensSucceed(p: Params, steps: seq<Step>)
    requires Wellformed(p) && p.clientToken == p.serverToken && GoodId(p.id)
    requires NoFaults(steps) && Stopped(Exec(p, INITIAL, steps))
    ensures Exec(p, INITIAL, steps).server == Accepted(p.id) && Exec(p, INITIAL, steps).client.Authenticated?
  {
    Outcome(p, steps);
  }

  lemma JudgePacket(p: Params)
    requires Wellformed(p) && GoodId(p.id)
    ensures Judge(p.mac, p.serverToken, p.nonce, ThePacket(p)) == if TagsAgree(p) then Accept(p.id) else BadSignature
  {
    var packet := ThePacket(p);
    assert packet[1..1 + |p.id|] == p.id && packet[1 + |p.id|..1 + |p.id| + TAG_LEN] == TheTag(p);
  }

  /** Unless the mac takes the two for each other, tokens decide: equal ones end in success on both sides, different
      ones in rejection and refusal, in every run that stops. */
  lemma TokensDecide(p: Params, steps: seq<Step>)
    requires Wellformed(p) && GoodId(p.id) && NoFaults(steps) && Stopped(Exec(p, INITIAL, steps))
    requires Distinct(p.mac, p.clientToken, p.nonce + p.id, p.serverToken, p.nonce + p.id)
    ensures var s := Exec(p, INITIAL, steps);
      if p.clientToken == p.serverToken then s.server == Accepted(p.id) && s.client.Authenticated?
      else s.server.Rejected? && s.client.Refused?
  {
    TagExact(p.mac, p.clientToken, p.nonce, p.id, p.serverToken, p.nonce, p.id);
    Outcome(p, steps);
  }

  /** Both interleaved sides end, and have sent, what the sequential ones do on the bytes they were sent. */
  lemma InterleavedIsSequential(p: Params, steps: seq<Step>)
    requires Wellformed(p) && NoFaults(steps) && Stopped(Exec(p, INITIAL, steps)) && GoodId(p.id)
    ensures var s := Exec(p, INITIAL, steps);
      var verdict := Judge(p.mac, p.serverToken, p.nonce, s.up);
      && s.server == (match verdict
                      case Accept(id) => Accepted(id)
                      case _ => Rejected)
      && s.down == p.nonce + StatusByte(verdict)
      && s.up == [|p.id|] + p.id + p.mac(p.clientToken, s.down[..32] + p.id)
      && (s.client.Authenticated? <==> Acknowledged(s.down)) && (s.client.Refused? <==> !Acknowledged(s.down))
  {
    var s := Exec(p, INITIAL, steps);
    Outcome(p, steps);
    EveryInterleaving(p, INITIAL, steps);
    PacketParts(p);
    JudgePacket(p);
    assert s.down[..32] == p.nonce;
  }
}
