/**
 * UDP over TCP: each datagram travels as a two-byte big-endian length and its bytes.
 * The decoder is specified on the byte stream alone; the loops are proved against it
 * for every segmentation of that stream.
 */
module Datagrams {
  import opened Bytes
  import opened Stream

  const MAX_DATAGRAM := 65535

  type Datagram = d: seq<byte> | |d| <= MAX_DATAGRAM

  function Header(n: nat): seq<byte>
    requires n <= MAX_DATAGRAM
  {
    [n / 256, n % 256]
  }

  function LengthOf(header: seq<byte>): nat
    requires |header| == 2
  {
    256 * (header[0] as int) + header[1]
  }

  function Frame(d: Datagram): seq<byte> {
    Header(|d|) + d
  }

  function Encode(ds: seq<Datagram>): seq<byte> {
    if ds == [] then [] else Frame(ds[0]) + Encode(ds[1..])
  }

  /** How many bytes the first frame of a stream takes, once its header is there. */
  function FrameSize(wire: seq<byte>): nat
    requires |wire| >= 2
  {
    2 + LengthOf(wire[..2])
  }

  predicate HasFrame(wire: seq<byte>) {
    |wire| >= 2 && |wire| >= FrameSize(wire)
  }

  /** The complete datagrams at the front of a stream, as many as there are. */
  function Complete(wire: seq<byte>): seq<Datagram>
    decreases |wire|
  {
    if HasFrame(wire) then [wire[2..FrameSize(wire)]] + Complete(wire[FrameSize(wire)..]) else []
  }

  /** What follows them: an incomplete frame, or nothing. */
  function Leftover(wire: seq<byte>): seq<byte>
    decreases |wire|
  {
    if HasFrame(wire) then Leftover(wire[FrameSize(wire)..]) else wire
  }

  /** On the wire: the length of the data, at most 65535, in two bytes with the high one first, and the data. */
  lemma FrameBytes(d: Datagram)
    ensures |d| <= 65535 && |Frame(d)| == 2 + |d|
    ensures Frame(d)[0] == |d| / 256 && Frame(d)[1] == |d| % 256 && Frame(d)[2..] == d
  {
  }

  lemma HeaderReads(n: nat)
    requires n <= MAX_DATAGRAM
    ensures LengthOf(Header(n)) == n
  {
  }

  lemma FrameReads(d: Datagram, rest: seq<byte>)
    ensures var wire := Frame(d) + rest;
      && HasFrame(wire) && FrameSize(wire) == 2 + |d|
      && wire[2..2 + |d|] == d && wire[2 + |d|..] == rest
  {
    HeaderReads(|d|);
    assert (Frame(d) + rest)[..2] == Header(|d|);
  }

  lemma FrameComplete(d: Datagram, rest: seq<byte>)
    ensures Complete(Frame(d) + rest) == [d] + Complete(rest)
    ensures Leftover(Frame(d) + rest) == Leftover(rest)
  {
    FrameReads(d, rest);
  }

  /** Any data of up to 65535 bytes makes a frame. */
  lemma AnyLength(data: seq<byte>)
    requires |data| <= 65535
    ensures Complete([|data| / 256, |data| % 256] + data) == [data]
  {
    FrameComplete(data, []);
    assert Frame(data) + [] == [|data| / 256, |data| % 256] + data;
  }

  /** Header bytes h and l announce 256 * h + l bytes of data. */
  lemma LengthBytes(h: byte, l: byte)
    ensures LengthOf([h, l]) == 256 * (h as int) + l
    ensures LengthOf([0, 1]) == 1 && LengthOf([1, 0]) == 256
  {
  }

  lemma HeaderWrites(header: seq<byte>)
    requires |header| == 2
    ensures LengthOf(header) <= MAX_DATAGRAM && Header(LengthOf(header)) == header
  {
  }

  /** Decoding what was encoded, with anything appended, yields it back first. */
  lemma {:induction false} CompleteEncode(ds: seq<Datagram>, rest: seq<byte>)
    ensures Complete(Encode(ds) + rest) == ds + Complete(rest)
    ensures Leftover(Encode(ds) + rest) == Leftover(rest)
  {
    if ds == [] {
      assert Encode(ds) + rest == rest;
    } else {
      var more := Encode(ds[1..]) + rest;
      assert Encode(ds) + rest == Frame(ds[0]) + more;
      FrameComplete(ds[0], more);
      CompleteEncode(ds[1..], rest);
      assert ds == [ds[0]] + ds[1..];
    }
  }

  /** Any sequence of datagrams survives encoding and decoding. */
  lemma {:induction false} RoundTrip(ds: seq<Datagram>)
    ensures Complete(Encode(ds)) == ds && Leftover(Encode(ds)) == []
  {
    assert Encode(ds) + [] == Encode(ds);
    CompleteEncode(ds, []);
  }

  lemma FrameOf(wire: seq<byte>)
    requires HasFrame(wire)
    ensures Frame(wire[2..FrameSize(wire)]) == wire[..FrameSize(wire)]
  {
    HeaderWrites(wire[..2]);
  }

  lemma Glue(head: seq<byte>, a: seq<byte>, b: seq<byte>, rest: seq<byte>, wire: seq<byte>)
    requires a + b == rest && head + rest == wire
    ensures (head + a) + b == wire
  {
  }

  lemma FirstFrame(wire: seq<byte>)
    requires HasFrame(wire)
    ensures Encode(Complete(wire)) == wire[..FrameSize(wire)] + Encode(Complete(wire[FrameSize(wire)..]))
  {
    FrameOf(wire);
    var ds := Complete(wire);
    assert ds[1..] == Complete(wire[FrameSize(wire)..]);
  }

  /** Decoding loses nothing: every stream is its complete datagrams, encoded, and a rest that holds no frame. */
  lemma {:induction false} DecodeExact(wire: seq<byte>)
    ensures Encode(Complete(wire)) + Leftover(wire) == wire
    ensures !HasFrame(Leftover(wire))
    decreases |wire|
  {
    if HasFrame(wire) {
      var head, rest := wire[..FrameSize(wire)], wire[FrameSize(wire)..];
      FirstFrame(wire);
      DecodeExact(rest);
      Glue(head, Encode(Complete(rest)), Leftover(rest), rest, wire);
    }
  }

  lemma {:induction false} EncodeConcat(a: seq<Datagram>, b: seq<Datagram>)
    ensures Encode(a + b) == Encode(a) + Encode(b)
  {
    if a == [] {
      assert a + b == b;
    } else {
      assert (a + b)[1..] == a[1..] + b;
      EncodeConcat(a[1..], b);
    }
  }

  /** A proper prefix of a frame holds no frame. */
  lemma PartialFrame(d: Datagram, wire: seq<byte>)
    requires wire <= Frame(d) && wire != Frame(d)
    ensures !HasFrame(wire)
  {
    HeaderReads(|d|);
    if |wire| >= 2 {
      assert wire[..2] == Header(|d|);
    }
  }

  lemma EncodeTake(ds: seq<Datagram>, m: nat)
    requires m < |ds|
    ensures Encode(ds[..m + 1]) == Frame(ds[0]) + Encode(ds[1..][..m])
  {
    assert ds[..m + 1][1..] == ds[1..][..m];
  }

  /** A truncated wire yields exactly the datagrams whose last byte has arrived. */
  lemma {:induction false} Truncated(ds: seq<Datagram>, k: nat) returns (m: nat)
    requires k <= |Encode(ds)|
    ensures m <= |ds| && Complete(Encode(ds)[..k]) == ds[..m]
    ensures |Encode(ds[..m])| <= k
    ensures m < |ds| ==> k < |Encode(ds[..m + 1])|
  {
    if ds == [] {
      m := 0;
    } else {
      var d, wire := ds[0], Encode(ds)[..k];
      var n := |Frame(d)|;
      if k < n {
        m := 0;
        assert wire == Frame(d)[..k];
        PartialFrame(d, wire);
        EncodeTake(ds, 0);
      } else {
        var rest := Encode(ds[1..])[..k - n];
        assert wire == Frame(d) + rest;
        FrameComplete(d, rest);
        var m' := Truncated(ds[1..], k - n);
        m := m' + 1;
        EncodeTake(ds, m');
        assert ds[..m] == [d] + ds[1..][..m'];
        if m < |ds| {
          EncodeTake(ds, m);
        }
      }
    }
  }

  /** Unique decodability: one stream is a prefix of another exactly when its datagrams are. */
  lemma PrefixExactly(a: seq<Datagram>, b: seq<Datagram>)
    ensures Encode(a) <= Encode(b) <==> a <= b
  {
    if a <= b {
      assert b == a + b[|a|..];
      EncodeConcat(a, b[|a|..]);
    }
    if Encode(a) <= Encode(b) {
      var rest := Encode(b)[|Encode(a)|..];
      assert Encode(b) == Encode(a) + rest;
      CompleteEncode(a, rest);
      RoundTrip(b);
      assert b == a + Complete(rest);
    }
  }

  // ----- the two loops ---------------------------------------------------------------

  /** A UDP socket: datagrams still to arrive before it fails, and those written to it. */
  class UdpConn {
    var incoming: seq<Datagram>
    var delivered: seq<Datagram>
    var credit: nat   // Writes that still succeed

    constructor (incoming: seq<Datagram>, credit: nat)
      ensures this.incoming == incoming && delivered == [] && this.credit == credit
    {
      this.incoming, delivered, this.credit := incoming, [], credit;
    }

    method ReadFrom(buf: array<byte>) returns (n: nat, ok: bool)
      requires buf.Length == MAX_DATAGRAM
      modifies this`incoming, buf
      ensures ok <==> old(incoming) != []
      ensures ok ==> n == |old(incoming)[0]| && buf[..n] == old(incoming)[0] && incoming == old(incoming)[1..]
      ensures !ok ==> incoming == [] && n == 0
    {
      if incoming == [] {
        return 0, false;
      }
      var d := incoming[0];
      n, ok := |d|, true;
      forall i | 0 <= i < n {
        buf[i] := d[i];
      }
      incoming := incoming[1..];
    }

    method Write(d: Datagram) returns (ok: bool)
      modifies this`delivered, this`credit
      ensures ok <==> old(credit) > 0
      ensures delivered == if ok then old(delivered) + [d] else old(delivered)
      ensures credit == if ok then old(credit) - 1 else 0
    {
      if credit == 0 {
        return false;
      }
      delivered, credit, ok := delivered + [d], credit - 1, true;
    }
  }

  /** What reaches the wire when the connection takes a given number of Writes. */
  function Sent(ds: seq<Datagram>, credit: nat): seq<byte> {
    if ds == [] || credit == 0 then []
    else if credit == 1 then Header(|ds[0]|)
    else Frame(ds[0]) + Sent(ds[1..], credit - 2)
  }

  /** The wire always carries a prefix of the encoding, and all of it when no Write fails. */
  lemma {:induction false} SentIsPrefix(ds: seq<Datagram>, credit: nat)
    ensures Sent(ds, credit) <= Encode(ds)
    ensures credit >= 2 * |ds| ==> Sent(ds, credit) == Encode(ds)
  {
    if ds != [] && credit >= 2 {
      SentIsPrefix(ds[1..], credit - 2);
    }
  }

  /** Each datagram takes two Writes: after an odd number the last thing on the wire is a header. */
  lemma {:induction false} SentExact(ds: seq<Datagram>, credit: nat)
    requires credit / 2 < |ds|
    ensures var k := credit / 2;
      Sent(ds, credit) == Encode(ds[..k]) + if credit % 2 == 0 then [] else [|ds[k]| / 256, |ds[k]| % 256]
  {
    if credit >= 2 {
      var k, rest := credit / 2, ds[1..];
      SentExact(rest, credit - 2);
      assert ds[..k][1..] == rest[..k - 1] && ds[k] == rest[k - 1];
      var last := if credit % 2 == 0 then [] else [|ds[k]| / 256, |ds[k]| % 256];
      assert Frame(ds[0]) + (Encode(rest[..k - 1]) + last) == Frame(ds[0]) + Encode(rest[..k - 1]) + last;
    }
  }

  /** How many datagrams a receiver sees of them. The header of an empty datagram is a whole frame. */
  function SentWhole(ds: seq<Datagram>, credit: nat): (m: nat)
    ensures m <= |ds|
    ensures credit >= 2 * |ds| ==> m == |ds|
    ensures credit < 2 * |ds| ==> credit <= 2 * m + 1 && 2 * m <= credit + 1
  {
    if ds == [] || credit == 0 then 0
    else if credit == 1 then (if ds[0] == [] then 1 else 0)
    else 1 + SentWhole(ds[1..], credit - 2)
  }

  lemma LoneHeader(d: Datagram)
    ensures Complete(Header(|d|)) == if d == [] then [d] else []
  {
    HeaderReads(|d|);
    assert Header(|d|)[..2] == Header(|d|);
    if d == [] {
      FrameReads(d, []);
      assert Frame(d) + [] == Header(0);
    }
  }

  /** End to end: a receiver decodes a prefix of the datagrams; it is all of them when no Write fails,
      and otherwise those with both Writes done, plus an empty one whose header got out. */
  lemma {:induction false} SentDelivers(ds: seq<Datagram>, credit: nat)
    ensures Complete(Sent(ds, credit)) == ds[..SentWhole(ds, credit)]
  {
    if ds != [] {
      if credit == 1 {
        LoneHeader(ds[0]);
      } else if credit > 1 {
        var rest := Sent(ds[1..], credit - 2);
        FrameComplete(ds[0], rest);
        SentDelivers(ds[1..], credit - 2);
        assert ds == [ds[0]] + ds[1..];
      }
    }
  }

  lemma {:induction false} SentWholeIs(ds: seq<Datagram>, credit: nat)
    ensures var k := credit / 2;
      SentWhole(ds, credit) == if k >= |ds| then |ds| else if credit % 2 == 1 && ds[k] == [] then k + 1 else k
  {
    if ds != [] && credit >= 2 {
      SentWholeIs(ds[1..], credit - 2);
      assert credit / 2 < |ds| ==> ds[1..][credit / 2 - 1] == ds[credit / 2];
    }
  }

  /** End to end, by the number of Writes that got through: two for each datagram delivered, and one is enough for an
      empty one. */
  lemma DeliveredExact(ds: seq<Datagram>, credit: nat)
    ensures var k := credit / 2;
      Complete(Sent(ds, credit)) ==
        if k >= |ds| then ds else if credit % 2 == 1 && ds[k] == [] then ds[..k + 1] else ds[..k]
  {
    SentDelivers(ds, credit);
    SentWholeIs(ds, credit);
    assert ds[..|ds|] == ds;
  }

  /** The UDP to TCP loop. */
  method UdpToTcp(udp: UdpConn, tcp: Conn<byte>)
    modifies udp`incoming, tcp`outbound, tcp`credit
    ensures tcp.outbound == old(tcp.outbound) + Sent(old(udp.incoming), old(tcp.credit))
  {
    var buf := new byte[MAX_DATAGRAM];
    ghost var ds, written, credit := udp.incoming, tcp.outbound, tcp.credit;
    ghost var goal := written + Sent(ds, credit);
    while true
      invariant fresh(buf)
      invariant tcp.outbound + Sent(udp.incoming, tcp.credit) == goal
      decreases |udp.incoming|
    {
      ghost var todo, left, out := udp.incoming, tcp.credit, tcp.outbound;
      var n, ok := udp.ReadFrom(buf);
      if !ok {
        break;
      }
      var sent := tcp.Write([n / 256, n % 256]);
      if !sent {
        break;
      }
      sent := tcp.Write(buf[..n]);
      if !sent {
        break;
      }
      assert out + Sent(todo, left) == (out + Header(n) + todo[0]) + Sent(todo[1..], left - 2);
    }
  }

  /** Reads one frame: its two-byte length, then that many bytes. */
  method ReadFrame(tcp: Conn<byte>, lengthBuf: array<byte>) returns (data: array<byte>, ok: bool)
    requires lengthBuf.Length == 2
    modifies tcp`inbound, lengthBuf
    ensures fresh(data)
    ensures var wire := old(tcp.Pending());
      && (ok <==> HasFrame(wire))
      && (ok ==> data[..] == wire[2..FrameSize(wire)] && tcp.Pending() == wire[FrameSize(wire)..])
  {
    ghost var wire := tcp.Pending();
    data := new byte[0];
    ok := tcp.ReadFull(lengthBuf);
    if !ok {
      return;
    }
    var length := 256 * (lengthBuf[0] as int) + lengthBuf[1];
    assert lengthBuf[..] == wire[..2];
    data := new byte[length];
    ok := tcp.ReadFull(data);
  }

  /** At most the first n datagrams. */
  function FirstOf(ds: seq<Datagram>, n: nat): seq<Datagram> {
    ds[..Min(|ds|, n)]
  }

  lemma FirstOfStep(out: seq<Datagram>, wire: seq<byte>, credit: nat)
    requires HasFrame(wire)
    ensures var d, rest := wire[2..FrameSize(wire)], wire[FrameSize(wire)..];
      out + FirstOf(Complete(wire), credit) ==
        if credit == 0 then out else (out + [d]) + FirstOf(Complete(rest), credit - 1)
  {
  }

  lemma FirstOfNone(out: seq<Datagram>, wire: seq<byte>, credit: nat)
    requires !HasFrame(wire)
    ensures out + FirstOf(Complete(wire), credit) == out
  {
  }

  /** The TCP to UDP loop delivers exactly the complete datagrams of the stream, in order and for
      every segmentation of it, until a Write to the socket fails. */
  method TcpToUdp(tcp: Conn<byte>, udp: UdpConn)
    modifies tcp`inbound, udp`delivered, udp`credit
    ensures udp.delivered == old(udp.delivered) + FirstOf(Complete(old(tcp.Pending())), old(udp.credit))
  {
    ghost var goal := udp.delivered + FirstOf(Complete(tcp.Pending()), udp.credit);
    var lengthBuf := new byte[2];
    var ok := true;
    while ok
      invariant fresh(lengthBuf)
      invariant ok ==> udp.delivered + FirstOf(Complete(tcp.Pending()), udp.credit) == goal
      invariant !ok ==> udp.delivered == goal
      decreases ok, |tcp.Pending()|
    {
      ghost var wire, left := tcp.Pending(), udp.credit;
      var data;
      data, ok := ReadFrame(tcp, lengthBuf);
      if !ok {
        FirstOfNone(udp.delivered, wire, left);
      } else {
        FirstOfStep(udp.delivered, wire, left);
        ok := udp.Write(data[..]);
      }
    }
  }
}
