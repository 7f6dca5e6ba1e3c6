/**
 * The control path's own challenge: the server sends a nonce and takes one Read of the
 * reply; the client sends "id:" and its tag in hexadecimal. The two ends encode the
 * tag differently, and the theorems say exactly what each of them accepts and sends.
 */
module ControlReply {
  import opened Bytes
  import opened PortPool
  import opened Stream
  import opened Auth

  const COLON: byte := 58

  // ----- hexadecimal ------------------------------------------------------------

  function HexDigit(n: nat): byte
    requires n < 16
  {
    if n < 10 then 48 + n else 87 + n
  }

  function Hex(bytes: seq<byte>): (r: seq<byte>)
    ensures |r| == 2 * |bytes|
  {
    if bytes == [] then [] else [HexDigit(bytes[0] / 16), HexDigit(bytes[0] % 16)] + Hex(bytes[1..])
  }

  lemma HexDigitInjective(a: byte, b: byte)
    requires HexDigit(a / 16) == HexDigit(b / 16) && HexDigit(a % 16) == HexDigit(b % 16)
    ensures a == b
  {
  }

  /** Comparing two hexadecimal texts is comparing the bytes. */
  lemma {:induction false} HexInjective(a: seq<byte>, b: seq<byte>)
    ensures Hex(a) == Hex(b) <==> a == b
  {
    if |a| == |b| && a != [] && Hex(a) == Hex(b) {
      assert Hex(a)[0] == Hex(b)[0] && Hex(a)[1] == Hex(b)[1];
      HexDigitInjective(a[0], b[0]);
      assert Hex(a)[2..] == Hex(a[1..]) && Hex(b)[2..] == Hex(b[1..]);
      HexInjective(a[1..], b[1..]);
      assert a == [a[0]] + a[1..] && b == [b[0]] + b[1..];
    }
  }

  /** A hexadecimal digit is one of 0 to 9 and a to f, and tells its value. */
  lemma HexDigitExact(n: nat)
    requires n < 16
    ensures HexDigit(n) == "0123456789abcdef"[n] as int
  {
  }

  /** Two digits for each byte, the high half first. */
  lemma {:induction false} HexAt(bytes: seq<byte>, i: nat)
    requires i < |bytes|
    ensures Hex(bytes)[2 * i] == "0123456789abcdef"[bytes[i] / 16] as int
    ensures Hex(bytes)[2 * i + 1] == "0123456789abcdef"[bytes[i] % 16] as int
  {
    if i == 0 {
      HexDigitExact(bytes[0] / 16);
      HexDigitExact(bytes[0] % 16);
    } else {
      HexAt(bytes[1..], i - 1);
    }
  }

  // ----- what the server accepts ---------------------------------------------------

  /** The index of the first colon, or the length of the message. */
  function FirstColon(msg: seq<byte>): (i: nat)
    ensures i <= |msg| && COLON !in msg[..i]
    ensures i < |msg| ==> msg[i] == COLON
  {
    if msg == [] || msg[0] == COLON then 0
    else
      var i := 1 + FirstColon(msg[1..]);
      assert msg[..i] == [msg[0]] + msg[1..][..i - 1];
      i
  }

  /** The MAC check on a received message: the ID before the first colon, if what follows is its tag. */
  function Check(mac: Mac, secret: seq<byte>, nonce: seq<byte>, msg: seq<byte>): Option<seq<byte>> {
    var i := FirstColon(msg);
    if i == |msg| then None
    else if Hex(msg[i + 1..]) == Hex(Tag(mac, secret, nonce, msg[..i])) then Some(msg[..i])
    else None
  }

  lemma {:induction false} FirstColonIs(msg: seq<byte>, i: nat)
    requires i <= |msg| && COLON !in msg[..i] && (i < |msg| ==> msg[i] == COLON)
    ensures FirstColon(msg) == i
  {
    if i > 0 {
      assert msg[0] in msg[..i];
      assert msg[1..][..i - 1] == msg[..i][1..];
      FirstColonIs(msg[1..], i - 1);
    }
  }

  lemma {:induction false} FirstColonAtMost(msg: seq<byte>, j: nat)
    requires j < |msg| && msg[j] == COLON
    ensures FirstColon(msg) <= j
  {
    if j > 0 && msg[0] != COLON {
      FirstColonAtMost(msg[1..], j - 1);
    }
  }

  lemma FirstColonOf(id: seq<byte>, rest: seq<byte>)
    requires COLON !in id
    ensures FirstColon(id + [COLON] + rest) == |id|
  {
    var msg := id + [COLON] + rest;
    assert msg[..|id|] == id;
    FirstColonIs(msg, |id|);
  }

  /** A message passes exactly when everything after its first colon is the 32-byte tag of nonce and prefix. */
  lemma CheckExactly(mac: Mac, secret: seq<byte>, nonce: seq<byte>, msg: seq<byte>, id: seq<byte>)
    ensures Check(mac, secret, nonce, msg) == Some(id) <==>
      COLON !in id && msg == id + [COLON] + Tag(mac, secret, nonce, id)
  {
    var i := FirstColon(msg);
    if i < |msg| {
      HexInjective(msg[i + 1..], Tag(mac, secret, nonce, msg[..i]));
      assert msg == msg[..i] + [COLON] + msg[i + 1..];
    }
    if COLON !in id && msg == id + [COLON] + Tag(mac, secret, nonce, id) {
      FirstColonOf(id, Tag(mac, secret, nonce, id));
      assert msg[..|id|] == id && msg[|id| + 1..] == Tag(mac, secret, nonce, id);
    }
  }

  /** The same in terms of the mac: what follows the first colon, byte 58, is the mac of nonce and prefix under the
      server's own secret. */
  lemma CheckUnderSecret(mac: Mac, secret: seq<byte>, nonce: seq<byte>, msg: seq<byte>, id: seq<byte>)
    ensures Check(mac, secret, nonce, msg) == Some(id) <==>
      58 !in id && msg == id + [58] + mac(secret, nonce + id)
  {
    CheckExactly(mac, secret, nonce, msg, id);
  }

  /** Unless the mac takes the two for each other, a message tagged under a token and nonce passes exactly when they
      are the server's own. */
  lemma ForeignTagFails(mac: Mac, secret: seq<byte>, nonce: seq<byte>,
                        token: seq<byte>, nonce': seq<byte>, id: seq<byte>)
    requires COLON !in id && |nonce| == |nonce'| && Distinct(mac, secret, nonce + id, token, nonce' + id)
    ensures Check(mac, secret, nonce, id + [COLON] + Tag(mac, token, nonce', id)).Some? <==>
      token == secret && nonce' == nonce
  {
    var msg := id + [COLON] + Tag(mac, token, nonce', id);
    FirstColonOf(id, Tag(mac, token, nonce', id));
    assert msg[..|id|] == id && msg[|id| + 1..] == Tag(mac, token, nonce', id);
    HexInjective(msg[|id| + 1..], Tag(mac, secret, nonce, id));
    TagExact(mac, secret, nonce, id, token, nonce', id);
  }

  // ----- what the client sends --------------------------------------------------------

  function Reply(mac: Mac, token: seq<byte>, nonce: seq<byte>, id: seq<byte>): seq<byte> {
    id + [COLON] + Hex(Tag(mac, token, nonce, id))
  }

  /** Delivered whole, the client's reply fails for every token, nonce and ID: what follows the first
      colon is at least 64 bytes long. */
  lemma WholeReplyFails(mac: Mac, secret: seq<byte>, token: seq<byte>, nonce: seq<byte>, id: seq<byte>)
    requires IsMac(mac)
    ensures Check(mac, secret, nonce, Reply(mac, token, nonce, id)) == None
  {
    var msg := Reply(mac, token, nonce, id);
    var r := Check(mac, secret, nonce, msg);
    FirstColonAtMost(msg, |id|);
    if r.Some? {
      CheckExactly(mac, secret, nonce, msg, r.value);
      FirstColonOf(r.value, Tag(mac, secret, nonce, r.value));
    }
  }

  /** A Read of the first k bytes passes exactly when it stops 32 bytes after the first colon and those
      bytes happen to be the tag itself. */
  lemma PartialReply(mac: Mac, secret: seq<byte>, token: seq<byte>, nonce: seq<byte>, id: seq<byte>, k: nat)
    requires IsMac(mac) && k <= |Reply(mac, token, nonce, id)|
    ensures var reply := Reply(mac, token, nonce, id);
      var c := FirstColon(reply);
      && c <= |id| && (COLON !in id ==> c == |id|)
      && (Check(mac, secret, nonce, reply[..k]).Some? <==>
            k == c + 1 + TAG_LEN && reply[c + 1..k] == Tag(mac, secret, nonce, reply[..c]))
  {
    var reply := Reply(mac, token, nonce, id);
    var c := FirstColon(reply);
    FirstColonAtMost(reply, |id|);
    if COLON !in id {
      FirstColonOf(id, Hex(Tag(mac, token, nonce, id)));
    }
    var msg := reply[..k];
    if k > c {
      assert msg[..c] == reply[..c];
      FirstColonIs(msg, c);
      assert msg[c + 1..] == reply[c + 1..k];
      HexInjective(msg[c + 1..], Tag(mac, secret, nonce, msg[..c]));
    } else {
      assert msg == reply[..c][..k];
      FirstColonIs(msg, k);
    }
  }

  // ----- the two functions -----------------------------------------------------------------

  /** No configured clients means that any client is valid. */
  predicate ValidClient(configured: seq<seq<byte>>, id: seq<byte>) {
    configured == [] || id in configured
  }

  method ValidateClientConfig(configured: seq<seq<byte>>, clientID: seq<byte>) returns (ok: bool)
    ensures ok <==> ValidClient(configured, clientID)
    ensures ok <==> |configured| == 0 || exists i :: 0 <= i < |configured| && configured[i] == clientID
  {
    if |configured| == 0 {
      return true;
    }
    for i := 0 to |configured|
      invariant clientID !in configured[..i]
    {
      if configured[i] == clientID {
        return true;
      }
    }
    assert configured[..|configured|] == configured;
    return false;
  }

  /** The bytes that the server's one Read obtains. */
  function FirstRead(inbound: seq<seq<byte>>): seq<byte>
    requires inbound != []
  {
    inbound[0][..Min(512, |inbound[0]|)]
  }

  method SplitAtColon(msg: seq<byte>) returns (i: nat)
    ensures i == FirstColon(msg)
  {
    i := 0;
    while i < |msg| && msg[i] != COLON
      invariant i <= |msg| && COLON !in msg[..i]
    {
      i := i + 1;
    }
    FirstColonIs(msg, i);
  }

  method CheckReply(mac: Mac, token: seq<byte>, nonce: seq<byte>, msg: seq<byte>)
    returns (clientID: seq<byte>, ok: bool)
    ensures ok <==> Check(mac, token, nonce, msg) == Some(clientID)
    ensures ok ==> msg == clientID + [58] + mac(token, nonce + clientID)
    ensures !ok ==> Check(mac, token, nonce, msg) == None
  {
    var i := SplitAtColon(msg);
    if i == |msg| {
      return [], false;
    }
    clientID := msg[..i];
    var clientHmac := msg[i + 1..];
    var expectedHmac := mac(token, nonce + clientID);
    CheckUnderSecret(mac, token, nonce, msg, clientID);
    ok := Hex(clientHmac) == Hex(expectedHmac);
  }

  method AuthenticateStream(conn: Conn<byte>, mac: Mac, nonce: array<byte>, token: seq<byte>,
                            configured: seq<seq<byte>>)
    returns (clientID: seq<byte>, ok: bool)
    requires nonce.Length == NONCE_LEN
    modifies conn
    ensures ok <==> old(conn.credit) > 0 && old(conn.inbound) != []
                    && Check(mac, token, nonce[..], FirstRead(old(conn.inbound))) == Some(clientID)
                    && ValidClient(configured, clientID)
    ensures ok ==>
      old(conn.inbound)[0][..Min(512, |old(conn.inbound)[0]|)] == clientID + [58] + mac(token, nonce[..] + clientID)
    ensures conn.outbound == old(conn.outbound) + if old(conn.credit) > 0 then nonce[..] else []
  {
    ghost var inbound := conn.inbound;
    clientID := [];
    ok := conn.Write(nonce[..]);
    if !ok {
      return;
    }
    var buf := new byte[512];
    var n;
    n, ok := conn.Read(buf, 0);
    if !ok {
      return;
    }
    assert buf[..n] == FirstRead(inbound);
    clientID, ok := CheckReply(mac, token, nonce[..], buf[..n]);
    if ok {
      ok := ValidateClientConfig(configured, clientID);
    }
  }

  method PerformHMACAuth(conn: Conn<byte>, mac: Mac, clientID: seq<byte>, token: seq<byte>) returns (ok: bool)
    modifies conn
    ensures ok <==> |old(conn.Pending())| >= NONCE_LEN && old(conn.credit) > 0
    ensures conn.outbound == old(conn.outbound)
      + if ok then Reply(mac, token, old(conn.Pending())[..NONCE_LEN], clientID) else []
    ensures ok ==>
      conn.outbound == old(conn.outbound) + (clientID + [58] + Hex(mac(token, old(conn.Pending())[..32] + clientID)))
  {
    var nonce := new byte[32];
    ok := conn.ReadFull(nonce);
    if !ok {
      return;
    }
    var tag := mac(token, nonce[..] + clientID);
    ok := conn.Write(clientID + [COLON] + Hex(tag));
  }
}
