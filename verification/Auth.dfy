/**
 * The challenge-response handshake, as its two sequential functions run over a
 * connection with any segmentation. HMAC-SHA256 is an arbitrary function with a
 * 32-byte result, the nonce an arbitrary input.
 */
module Auth {
  import opened Bytes
  import opened Stream

  /** mac(key, message). */
  type Mac = (seq<byte>, seq<byte>) -> seq<byte>

  const TAG_LEN := 32
  const NONCE_LEN := 32

  ghost predicate IsMac(mac: Mac) {
    forall k, m :: |mac(k, m)| == TAG_LEN
  }

  predicate GoodId(id: seq<byte>) {
    1 <= |id| <= 255
  }

  /** The client's message: length, ID, tag. */
  function Packet(id: seq<byte>, tag: seq<byte>): seq<byte>
    requires GoodId(id)
  {
    [|id|] + id + tag
  }

  function Tag(mac: Mac, token: seq<byte>, nonce: seq<byte>, id: seq<byte>): seq<byte> {
    mac(token, nonce + id)
  }

  /** Two tokens, nonces and IDs that the mac does not take for each other. A function with 32-byte results
      cannot tell apart all of them. */
  ghost predicate Distinct(mac: Mac, token: seq<byte>, message: seq<byte>, token': seq<byte>, message': seq<byte>) {
    mac(token, message) == mac(token', message') ==> token == token' && message == message'
  }

  /** A tag depends on token, nonce and ID: unless the mac takes the two for each other, tags under nonces of
      equal length are equal exactly when all three are. */
  lemma TagExact(mac: Mac, token: seq<byte>, nonce: seq<byte>, id: seq<byte>,
                 token': seq<byte>, nonce': seq<byte>, id': seq<byte>)
    requires |nonce| == |nonce'| && Distinct(mac, token, nonce + id, token', nonce' + id')
    ensures Tag(mac, token, nonce, id) == Tag(mac, token', nonce', id') <==>
      token == token' && nonce == nonce' && id == id'
  {
    if nonce + id == nonce' + id' {
      assert (nonce + id)[..|nonce|] == nonce && (nonce' + id')[..|nonce'|] == nonce';
      assert (nonce + id)[|nonce|..] == id && (nonce' + id')[|nonce'|..] == id';
    }
  }

  /** On the wire: one byte of length, the ID, and 32 bytes that are the mac of nonce and ID under the token. */
  lemma PacketLayout(mac: Mac, token: seq<byte>, nonce: seq<byte>, id: seq<byte>)
    requires IsMac(mac) && GoodId(id)
    ensures 1 <= |id| <= 255
    ensures var packet := Packet(id, Tag(mac, token, nonce, id));
      && |packet| == 33 + |id| && packet[0] == |id|
      && packet[1..1 + |id|] == id && packet[1 + |id|..] == mac(token, nonce + id)
  {
  }

  // ----- the server's side ----------------------------------------------------------

  datatype Verdict = Incomplete | BadLength | BadSignature | Accept(id: seq<byte>)

  /** What the server makes of the bytes a client sends. */
  function Judge(mac: Mac, token: seq<byte>, nonce: seq<byte>, input: seq<byte>): Verdict {
    if input == [] then Incomplete
    else if input[0] == 0 then BadLength
    else if |input| < 1 + input[0] + TAG_LEN then Incomplete
    else
      var id := input[1..1 + input[0]];
      if input[1 + input[0]..1 + input[0] + TAG_LEN] == Tag(mac, token, nonce, id) then Accept(id) else BadSignature
  }

  /** The server accepts an ID exactly when the stream starts with that ID's packet, signed under its token. */
  lemma JudgeAccepts(mac: Mac, token: seq<byte>, nonce: seq<byte>, input: seq<byte>, id: seq<byte>)
    requires IsMac(mac)
    ensures Judge(mac, token, nonce, input) == Accept(id) <==>
      GoodId(id) && Packet(id, Tag(mac, token, nonce, id)) <= input
    ensures Judge(mac, token, nonce, input) == Accept(id) <==>
      1 <= |id| <= 255 && [|id|] + id + mac(token, nonce + id) <= input
  {
    if GoodId(id) {
      var tag := Tag(mac, token, nonce, id);
      var packet := Packet(id, tag);
      assert packet[1..1 + |id|] == id && packet[1 + |id|..] == tag;
      if packet <= input {
        assert input[..|packet|] == packet;
        assert input[1..1 + |id|] == id;
        assert input[1 + |id|..1 + |id| + TAG_LEN] == tag;
      }
      if Judge(mac, token, nonce, input) == Accept(id) {
        assert input[..|packet|] == [input[0]] + input[1..1 + |id|] + input[1 + |id|..1 + |id| + TAG_LEN];
      }
    }
  }

  /** Each verdict by the bytes themselves: a length of 0, a whole packet whose tag is wrong, or too few bytes. */
  lemma JudgeRefuses(mac: Mac, token: seq<byte>, nonce: seq<byte>, input: seq<byte>)
    ensures var v := Judge(mac, token, nonce, input);
      && (v == BadLength <==> input != [] && input[0] == 0)
      && (v == Incomplete <==> input == [] || (input[0] != 0 && |input| < 33 + input[0] as int))
      && (v == BadSignature <==>
            && input != [] && input[0] != 0 && |input| >= 33 + input[0] as int
            && input[1 + input[0]..33 + input[0] as int] != mac(token, nonce + input[1..1 + input[0]]))
  {
  }

  datatype Error = IoError | InvalidIdLength | InvalidSignature | RejectedByServer

  datatype Result<+T> = Success(value: T) | Failure(error: Error)

  /** The status byte the server ends with, if it gets that far. */
  function StatusByte(v: Verdict): seq<byte> {
    match v
    case Incomplete => []
    case Accept(_) => [1]
    case _ => [0]
  }

  /** Has a nonce arrived, and a status byte of 1 behind it? */
  predicate Acknowledged(input: seq<byte>) {
    |input| >= 33 && input[32] == 1
  }

  /** A client that is fed what the server sends, whatever bytes the server was sent, is acknowledged exactly
      when the server accepted an ID, and refused exactly when the server found fault with them. */
  lemma StatusTells(mac: Mac, token: seq<byte>, nonce: seq<byte>, input: seq<byte>)
    requires |nonce| == NONCE_LEN
    ensures var verdict := Judge(mac, token, nonce, input);
      var answer := nonce + StatusByte(verdict);
      && (Acknowledged(answer) <==> exists id :: verdict == Accept(id))
      && (|answer| > 32 && !Acknowledged(answer) <==> verdict == BadLength || verdict == BadSignature)
  {
    var verdict := Judge(mac, token, nonce, input);
    if verdict.Accept? {
      assert verdict == Accept(verdict.id);
    }
  }

  /** The whole exchange: a client whose packet the server judges is acknowledged exactly when both sides
      compute the same tag, and then the server has its ID. */
  lemma ExchangeExact(mac: Mac, clientToken: seq<byte>, serverToken: seq<byte>, nonce: seq<byte>, id: seq<byte>)
    requires IsMac(mac) && |nonce| == NONCE_LEN && GoodId(id)
    ensures var verdict := Judge(mac, serverToken, nonce, Packet(id, Tag(mac, clientToken, nonce, id)));
      && (Acknowledged(nonce + StatusByte(verdict)) <==> verdict == Accept(id))
      && (verdict == Accept(id) <==> mac(clientToken, nonce + id) == mac(serverToken, nonce + id))
  {
    var packet := Packet(id, Tag(mac, clientToken, nonce, id));
    PacketLayout(mac, clientToken, nonce, id);
    assert packet[1 + |id|..] == packet[1 + |id|..33 + |id|];
    StatusTells(mac, serverToken, nonce, packet);
    JudgeRefuses(mac, serverToken, nonce, packet);
  }

  lemma TwoParts(input: seq<byte>, body: seq<byte>, idLen: nat)
    requires 33 + idLen <= |input| && body == input[1..][..idLen + 32]
    ensures body[..idLen] == input[1..1 + idLen] && body[idLen..] == input[1 + idLen..33 + idLen]
  {
  }

  method ServerAuthenticate(conn: Conn<byte>, mac: Mac, expectedToken: seq<byte>, nonce: array<byte>)
    returns (r: Result<seq<byte>>)
    requires IsMac(mac) && nonce.Length == NONCE_LEN
    modifies conn
    ensures var verdict := Judge(mac, expectedToken, nonce[..], old(conn.Pending()));
      && (forall id :: r == Success(id) <==> verdict == Accept(id) && old(conn.credit) >= 2)
      && (r == Failure(InvalidIdLength) <==> verdict == BadLength && old(conn.credit) >= 1)
      && (r == Failure(InvalidSignature) <==> verdict == BadSignature && old(conn.credit) >= 1)
      && conn.outbound == old(conn.outbound)
           + (if old(conn.credit) >= 1 then nonce[..] else [])
           + (if old(conn.credit) >= 2 then StatusByte(verdict) else [])
    ensures var input := old(conn.Pending());
      r.Success? <==>
        && old(conn.credit) >= 2 && input != [] && input[0] != 0 && |input| >= 33 + input[0] as int
        && input[1 + input[0]..33 + input[0] as int] == mac(expectedToken, nonce[..] + input[1..1 + input[0]])
    ensures r.Success? ==> r.value == old(conn.Pending())[1..1 + old(conn.Pending())[0]]
    ensures r.Success? ==> conn.outbound == old(conn.outbound) + nonce[..] + [1]
    ensures r == Failure(InvalidIdLength) || r == Failure(InvalidSignature) ==>
      conn.outbound == old(conn.outbound) + nonce[..] + if old(conn.credit) >= 2 then [0] else []
  {
    ghost var input := conn.Pending();
    var ok := conn.Write(nonce[..]);
    if !ok {
      return Failure(IoError);
    }
    var header := new byte[1];
    ok := conn.ReadFull(header);
    if !ok {
      return Failure(IoError);
    }
    assert header[..] == input[..1];
    var idLen := header[0] as int;
    if idLen == 0 {
      ok := conn.Write([0]);
      return Failure(InvalidIdLength);
    }
    var buf := new byte[idLen + 32];
    ok := conn.ReadFull(buf);
    if !ok {
      return Failure(IoError);
    }
    TwoParts(input, buf[..], idLen);
    var clientID := buf[..idLen];
    var clientHMAC := buf[idLen..];
    assert clientID == buf[..][..idLen] && clientHMAC == buf[..][idLen..];
    if clientHMAC != mac(expectedToken, nonce[..] + clientID) {
      ok := conn.Write([0]);
      return Failure(InvalidSignature);
    }
    ok := conn.Write([1]);
    if !ok {
      return Failure(IoError);
    }
    return Success(clientID);
  }

  // ----- the client's side -------------------------------------------------------------

  /** Builds the packet in place. */
  method BuildPacket(idBytes: seq<byte>, clientHMAC: seq<byte>) returns (packet: array<byte>)
    requires GoodId(idBytes) && |clientHMAC| == TAG_LEN
    ensures fresh(packet) && packet[..] == Packet(idBytes, clientHMAC)
  {
    packet := new byte[1 + |idBytes| + 32];
    packet[0] := |idBytes|;
    forall i | 0 <= i < |idBytes| {
      packet[1 + i] := idBytes[i];
    }
    forall i | 0 <= i < |clientHMAC| {
      packet[1 + |idBytes| + i] := clientHMAC[i];
    }
  }

  method ClientAuthenticate(conn: Conn<byte>, mac: Mac, clientID: seq<byte>, token: seq<byte>) returns (r: Result<()>)
    requires IsMac(mac)
    modifies conn
    ensures var input, id := old(conn.Pending()), clientID;
      var asked := |input| >= NONCE_LEN && GoodId(id) && old(conn.credit) >= 1;
      && conn.outbound == old(conn.outbound)
           + (if asked then Packet(id, Tag(mac, token, input[..NONCE_LEN], id)) else [])
      && (r.Success? <==> asked && |input| > NONCE_LEN && input[NONCE_LEN] == 1)
      && (r == Failure(InvalidIdLength) <==> |input| >= NONCE_LEN && !GoodId(id))
      && (r == Failure(RejectedByServer) <==> asked && |input| > NONCE_LEN && input[NONCE_LEN] != 1)
    ensures r.Success? ==> Acknowledged(old(conn.Pending())) && 1 <= |clientID| <= 255
    ensures r.Success? ==>
      conn.outbound == old(conn.outbound) + ([|clientID|] + clientID + mac(token, old(conn.Pending())[..32] + clientID))
  {
    ghost var input := conn.Pending();
    var nonce := new byte[32];
    var ok := conn.ReadFull(nonce);
    if !ok {
      return Failure(IoError);
    }
    if |clientID| == 0 || |clientID| > 255 {
      return Failure(InvalidIdLength);
    }
    var packet := BuildPacket(clientID, mac(token, nonce[..] + clientID));
    ok := conn.Write(packet[..]);
    if !ok {
      return Failure(IoError);
    }
    var ack := new byte[1];
    ok := conn.ReadFull(ack);
    if !ok {
      return Failure(IoError);
    }
    assert ack[..] == input[NONCE_LEN..][..1];
    if ack[0] != 1 {
      return Failure(RejectedByServer);
    }
    return Success(());
  }
}
