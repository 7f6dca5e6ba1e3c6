/**
 * The XOR wrapper that client and server put around a connection. Each Read and each
 * Write restarts the key, so what survives the wire depends on where the calls cut it.
 */
module XorStream {
  import opened Bytes
  import opened Stream

  // ----- a transform that every call restarts -----------------------------------

  /** The lengths of consecutive calls. */
  type Cuts = seq<nat>

  function Total(cuts: Cuts): nat {
    if cuts == [] then 0 else cuts[0] + Total(cuts[1..])
  }

  /** Where the call that covers position p starts. */
  function StartOf(cuts: Cuts, p: nat): (start: nat)
    requires p < Total(cuts)
    ensures start <= p
  {
    if p < cuts[0] then 0 else cuts[0] + StartOf(cuts[1..], p - cuts[0])
  }

  /** One call: the i-th byte of the buffer becomes f(byte, i). */
  function Apply<T>(f: (T, nat) -> T, data: seq<T>): seq<T> {
    seq(|data|, i requires 0 <= i < |data| => f(data[i], i))
  }

  /** Consecutive calls with these lengths over a stream. */
  function Pieces<T>(f: (T, nat) -> T, data: seq<T>, cuts: Cuts): (r: seq<T>)
    requires Total(cuts) == |data|
    ensures |r| == |data|
  {
    if cuts == [] then [] else Apply(f, data[..cuts[0]]) + Pieces(f, data[cuts[0]..], cuts[1..])
  }

  /** A byte is transformed by its offset within the call that covers it. */
  lemma {:induction false} PiecesAt<T>(f: (T, nat) -> T, data: seq<T>, cuts: Cuts, p: nat)
    requires Total(cuts) == |data| && p < |data|
    ensures Pieces(f, data, cuts)[p] == f(data[p], p - StartOf(cuts, p))
  {
    var n := cuts[0];
    var head, tail := Apply(f, data[..n]), Pieces(f, data[n..], cuts[1..]);
    assert Pieces(f, data, cuts) == head + tail;
    if p >= n {
      PiecesAt(f, data[n..], cuts[1..], p - n);
      assert (head + tail)[p] == tail[p - n];
    } else {
      assert (head + tail)[p] == head[p];
    }
  }

  /** What a reader sees of what a writer wrote, each cutting the stream for itself. */
  function Received<T>(f: (T, nat) -> T, data: seq<T>, sent: Cuts, got: Cuts): (r: seq<T>)
    requires Total(sent) == |data| == Total(got)
    ensures |r| == |data|
  {
    Pieces(f, Pieces(f, data, sent), got)
  }

  lemma ReceivedAt<T>(f: (T, nat) -> T, data: seq<T>, sent: Cuts, got: Cuts, p: nat)
    requires Total(sent) == |data| == Total(got) && p < |data|
    ensures Received(f, data, sent, got)[p] == f(f(data[p], p - StartOf(sent, p)), p - StartOf(got, p))
  {
    PiecesAt(f, data, sent, p);
    PiecesAt(f, Pieces(f, data, sent), got, p);
  }

  // ----- the XOR mask ---------------------------------------------------------------

  type octet = bv8

  /** A key of sixteen different bytes. */
  ghost predicate IsKey(key: seq<octet>) {
    |key| == 16 && forall i, j :: 0 <= i < j < 16 ==> key[i] != key[j]
  }

  const KEY: seq<octet> := [
    0xFA, 0xCE, 0x11, 0x99, 0x55, 0xAA, 0x33, 0x77, 0xBB, 0xCC, 0xDD, 0xEE, 0x12, 0x34, 0x56, 0x78]

  /** The wrapper's own key qualifies, so the theorems below hold of it. */
  lemma KeyQualifies()
    ensures IsKey(KEY)
    ensures KEY == [0xFA, 0xCE, 0x11, 0x99, 0x55, 0xAA, 0x33, 0x77, 0xBB, 0xCC, 0xDD, 0xEE, 0x12, 0x34, 0x56, 0x78]
  {
  }

  /** Byte i of a buffer meets key byte i mod 16. */
  function Mask(key: seq<octet>): (octet, nat) -> octet
    requires |key| == 16
  {
    (b: octet, i: nat) => b ^ key[i % 16]
  }

  lemma XorCancels(b: octet, k: octet)
    ensures (b ^ k) ^ b == k && 0 ^ k == k
  {
  }

  /** What a mask does to each byte: the difference between the two is the key byte at its offset mod 16. */
  lemma MaskExact(key: seq<octet>, data: seq<octet>, i: nat)
    requires |key| == 16 && i < |data|
    ensures Apply(Mask(key), data)[i] ^ data[i] == key[i % 16]
  {
    XorCancels(data[i], key[i % 16]);
  }

  /** Sixteen zero bytes come out as the key itself. */
  lemma ZerosShowKey(key: seq<octet>)
    requires |key| == 16
    ensures Apply(Mask(key), seq(16, _ => 0)) == key
  {
    var zeros: seq<octet> := seq(16, _ => 0);
    forall i | 0 <= i < 16 ensures Apply(Mask(key), zeros)[i] == key[i] {
      XorCancels(0, key[i]);
    }
  }

  lemma XorTwice(b: octet, k: octet, k': octet)
    ensures (b ^ k) ^ k' == b <==> k == k'
  {
  }

  /** Masking undoes itself exactly where both calls use the same key byte. */
  ghost predicate UndoneBySameByte(f: (octet, nat) -> octet, key: seq<octet>)
    requires |key| == 16
  {
    forall b, i: nat, j: nat :: f(f(b, i), j) == b <==> key[i % 16] == key[j % 16]
  }

  lemma MaskTwice(key: seq<octet>)
    requires |key| == 16
    ensures UndoneBySameByte(Mask(key), key)
  {
    var f := Mask(key);
    forall b, i: nat, j: nat
      ensures f(f(b, i), j) == b <==> key[i % 16] == key[j % 16]
    {
      XorTwice(b, key[i % 16], key[j % 16]);
    }
  }

  lemma Congruent(p: nat, w: nat, r: nat)
    requires w <= p && r <= p
    ensures (p - w) % 16 == (p - r) % 16 <==> w % 16 == r % 16
  {
  }

  lemma SameKeyByte(key: seq<octet>, i: nat, j: nat)
    requires IsKey(key) && i < 16 && j < 16
    ensures key[i] == key[j] <==> i == j
  {
  }

  /** Do the Write and the Read that cover byte p start at congruent positions mod 16? */
  predicate InPhase(sent: Cuts, got: Cuts, p: nat)
    requires p < Total(sent) && p < Total(got)
  {
    StartOf(sent, p) % 16 == StartOf(got, p) % 16
  }

  lemma RecoveredBy(f: (octet, nat) -> octet, key: seq<octet>, data: seq<octet>, sent: Cuts, got: Cuts, p: nat)
    requires IsKey(key) && UndoneBySameByte(f, key)
    requires Total(sent) == |data| == Total(got) && p < |data|
    ensures Received(f, data, sent, got)[p] == data[p] <==> InPhase(sent, got, p)
  {
    ReceivedAt(f, data, sent, got, p);
    var w, r := StartOf(sent, p), StartOf(got, p);
    SameKeyByte(key, (p - w) % 16, (p - r) % 16);
    Congruent(p, w, r);
  }

  /** Byte p is recovered exactly when its Write and its Read start at congruent positions mod 16. */
  lemma RecoveredExactly(key: seq<octet>, data: seq<octet>, sent: Cuts, got: Cuts, p: nat)
    requires IsKey(key) && Total(sent) == |data| == Total(got) && p < |data|
    ensures Received(Mask(key), data, sent, got)[p] == data[p] <==> InPhase(sent, got, p)
  {
    MaskTwice(key);
    RecoveredBy(Mask(key), key, data, sent, got, p);
  }

  /** The whole stream arrives intact exactly when every byte's two calls start congruently. */
  lemma IntactExactly(key: seq<octet>, data: seq<octet>, sent: Cuts, got: Cuts)
    requires IsKey(key) && Total(sent) == |data| == Total(got)
    ensures Received(Mask(key), data, sent, got) == data <==> forall p :: 0 <= p < |data| ==> InPhase(sent, got, p)
  {
    var received := Received(Mask(key), data, sent, got);
    forall p | 0 <= p < |data| ensures received[p] == data[p] <==> InPhase(sent, got, p) {
      RecoveredExactly(key, data, sent, got, p);
    }
  }

  /** Every call but the last moves a multiple of 16 bytes. */
  ghost predicate Aligned(cuts: Cuts) {
    forall i :: 0 <= i < |cuts| - 1 ==> cuts[i] % 16 == 0
  }

  lemma {:induction false} AlignedStarts(cuts: Cuts, p: nat)
    requires Aligned(cuts) && p < Total(cuts)
    ensures StartOf(cuts, p) % 16 == 0
  {
    if p >= cuts[0] {
      assert |cuts| > 1 && cuts[0] % 16 == 0;
      AlignedStarts(cuts[1..], p - cuts[0]);
    }
  }

  /** One Read per Write, or aligned calls on both sides, deliver the stream intact. */
  lemma RoundTrips(key: seq<octet>, data: seq<octet>, sent: Cuts, got: Cuts)
    requires IsKey(key) && Total(sent) == |data| == Total(got)
    requires got == sent || (Aligned(sent) && Aligned(got))
    ensures Received(Mask(key), data, sent, got) == data
  {
    IntactExactly(key, data, sent, got);
    if got != sent {
      forall p | 0 <= p < |data| ensures InPhase(sent, got, p) {
        AlignedStarts(sent, p);
        AlignedStarts(got, p);
      }
    }
  }

  /** Sixteen bytes written in one call and read as 8 + 8 are not recovered. */
  lemma SplitReadGarbles(key: seq<octet>, data: seq<octet>)
    requires IsKey(key) && |data| == 16
    ensures Total([16]) == 16 == Total([8, 8]) && Received(Mask(key), data, [16], [8, 8]) != data
  {
    assert [8, 8][1..] == [8] && [8][1..] == [] && [16][1..] == [];
    assert Total([8]) == 8;
    RecoveredExactly(key, data, [16], [8, 8], 8);
    assert StartOf([8], 0) == 0;
  }

  // ----- the wrapper -------------------------------------------------------------------

  class ObfuscatedConn {
    const conn: Conn<octet>
    const xorKey: seq<octet>

    ghost predicate Valid() {
      IsKey(xorKey)
    }

    constructor (conn: Conn<octet>)
      ensures Valid() && this.conn == conn && xorKey == KEY
      ensures xorKey == [0xFA, 0xCE, 0x11, 0x99, 0x55, 0xAA, 0x33, 0x77, 0xBB, 0xCC, 0xDD, 0xEE, 0x12, 0x34, 0x56, 0x78]
    {
      this.conn := conn;
      xorKey := KEY;
      new;
      KeyQualifies();
    }

    /** The loop of both calls: masks the first n bytes of a buffer in place. */
    method MaskPrefix(b: array<octet>, n: nat)
      requires Valid() && n <= b.Length
      modifies b
      ensures b[..n] == Apply(Mask(xorKey), old(b[..n]))
      ensures b[n..] == old(b[n..])
      ensures forall i :: 0 <= i < n ==> b[i] ^ old(b[i]) == xorKey[i % 16]
    {
      ghost var f := Mask(xorKey);
      for i := 0 to n
        invariant forall j :: 0 <= j < i ==> b[j] == f(old(b[j]), j)
        invariant forall j :: i <= j < b.Length ==> b[j] == old(b[j])
      {
        b[i] := b[i] ^ xorKey[i % |xorKey|];
      }
      forall i | 0 <= i < n ensures b[i] ^ old(b[i]) == xorKey[i % 16] {
        MaskExact(xorKey, old(b[..n]), i);
      }
    }

    /** Decodes in place the n bytes that this Read obtained. A connection may report an error along with the
        last bytes it delivers; those are passed on undecoded. */
    method Read(b: array<octet>, fails: bool) returns (n: nat, ok: bool)
      requires Valid()
      modifies conn`inbound, b
      ensures ok <==> old(conn.inbound) != [] && !fails
      ensures old(conn.inbound) == [] ==> n == 0 && conn.inbound == []
      ensures old(conn.inbound) != [] ==>
        n == Min(b.Length, |old(conn.inbound)[0]|) && conn.inbound == AfterRead(old(conn.inbound), n)
      ensures n <= |old(conn.Pending())| && conn.Pending() == old(conn.Pending())[n..]
      ensures b[..n] == if ok then Apply(Mask(xorKey), old(conn.Pending())[..n]) else old(conn.Pending())[..n]
      ensures ok ==> forall i :: 0 <= i < n ==> b[i] ^ old(conn.Pending())[i] == xorKey[i % 16]
      ensures b[n..] == old(b[n..])
    {
      ghost var wire := conn.Pending();
      ghost var segment := if conn.inbound == [] then [] else conn.inbound[0];
      n, ok := conn.Read(b, 0);
      assert b[..n] == segment[..n] == wire[..n];
      if !ok || fails {
        ok := false;
        return;
      }
      MaskPrefix(b, n);
    }

    /** Sends an encoded copy; the caller's buffer keeps its contents. */
    method Write(b: array<octet>) returns (ok: bool)
      requires Valid()
      modifies conn`outbound, conn`credit
      ensures ok <==> old(conn.credit) > 0
      ensures conn.credit == if ok then old(conn.credit) - 1 else 0
      ensures conn.outbound == old(conn.outbound) + if ok then Apply(Mask(xorKey), b[..]) else []
      ensures ok ==> forall i :: 0 <= i < b.Length ==>
        conn.outbound[|old(conn.outbound)| + i] ^ b[i] == xorKey[i % 16]
      ensures b[..] == old(b[..])
    {
      var buf := new octet[b.Length];
      forall i | 0 <= i < b.Length {
        buf[i] := b[i];
      }
      assert buf[..buf.Length] == b[..];
      MaskPrefix(buf, buf.Length);
      assert buf[..] == buf[..buf.Length];
      ok := conn.Write(buf[..]);
    }
  }

  // ----- sequences of calls ------------------------------------------------------------------

  lemma {:induction false} TotalSnoc(cuts: Cuts, n: nat)
    ensures Total(cuts + [n]) == Total(cuts) + n
  {
    if cuts == [] {
      assert [n][1..] == [];
    } else {
      assert (cuts + [n])[1..] == cuts[1..] + [n];
      TotalSnoc(cuts[1..], n);
    }
  }

  /** One more call. */
  lemma {:induction false} PiecesSnoc<T>(f: (T, nat) -> T, data: seq<T>, cuts: Cuts, next: seq<T>)
    requires Total(cuts) == |data|
    ensures Total(cuts + [|next|]) == |data + next|
    ensures Pieces(f, data + next, cuts + [|next|]) == Pieces(f, data, cuts) + Apply(f, next)
    decreases |cuts|
  {
    TotalSnoc(cuts, |next|);
    if cuts == [] {
      assert [|next|][1..] == [] && data + next == next && next[..|next|] == next && next[|next|..] == [];
      assert Apply(f, next) + [] == Apply(f, next);
    } else {
      var n := cuts[0];
      assert (cuts + [|next|])[1..] == cuts[1..] + [|next|];
      assert (data + next)[..n] == data[..n] && (data + next)[n..] == data[n..] + next;
      PiecesSnoc(f, data[n..], cuts[1..], next);
    }
  }

  lemma AppendAssociates<T>(a: seq<T>, b: seq<T>, c: seq<T>)
    ensures a + (b + c) == (a + b) + c
  {
  }

  /** So far, calls with these lengths have turned the first at bytes of the stream into r. */
  ghost predicate Progress<T>(f: (T, nat) -> T, data: seq<T>, cuts: Cuts, at: nat, r: seq<T>) {
    at == Total(cuts) && at <= |data| && r == Pieces(f, data[..at], cuts)
  }

  lemma ProgressStep<T>(f: (T, nat) -> T, data: seq<T>, cuts: Cuts, at: nat, r: seq<T>, n: nat)
    requires Progress(f, data, cuts, at, r) && at + n <= |data|
    ensures Progress(f, data, cuts + [n], at + n, r + Apply(f, data[at..at + n]))
  {
    PiecesSnoc(f, data[..at], cuts, data[at..at + n]);
    assert data[..at] + data[at..at + n] == data[..at + n];
  }

  lemma ProgressDone<T>(f: (T, nat) -> T, data: seq<T>, cuts: Cuts, at: nat, r: seq<T>)
    requires Progress(f, data, cuts, at, r) && at == |data|
    ensures Total(cuts) == |data| && r == Pieces(f, data, cuts)
  {
    assert data[..at] == data;
  }

  /** The calls in done have been made; those in rest are still to be made. */
  ghost predicate Sending<T>(f: (T, nat) -> T, data: seq<T>, cuts: Cuts,
                             done: Cuts, rest: Cuts, at: nat, sent: seq<T>)
  {
    done + rest == cuts && at + Total(rest) == |data| && Progress(f, data, done, at, sent)
  }

  lemma SendingStep<T>(f: (T, nat) -> T, data: seq<T>, cuts: Cuts, done: Cuts, rest: Cuts, at: nat, sent: seq<T>)
    requires Sending(f, data, cuts, done, rest, at, sent) && rest != []
    ensures at + rest[0] <= |data|
    ensures Sending(f, data, cuts, done + [rest[0]], rest[1..], at + rest[0], sent + Apply(f, data[at..at + rest[0]]))
  {
    ProgressStep(f, data, done, at, sent, rest[0]);
    assert done + [rest[0]] + rest[1..] == done + rest;
  }

  lemma SendingStart<T>(f: (T, nat) -> T, data: seq<T>, cuts: Cuts)
    requires Total(cuts) == |data|
    ensures Sending(f, data, cuts, [], cuts, 0, [])
  {
    assert [] + cuts == cuts;
  }

  method SendChunk(out: ObfuscatedConn, chunk: seq<octet>) returns (ok: bool)
    requires out.Valid()
    modifies out.conn`outbound, out.conn`credit
    ensures ok <==> old(out.conn.credit) > 0
    ensures out.conn.credit == if ok then old(out.conn.credit) - 1 else 0
    ensures out.conn.outbound == old(out.conn.outbound) + if ok then Apply(Mask(out.xorKey), chunk) else []
  {
    var b := new octet[|chunk|](j requires 0 <= j < |chunk| => chunk[j]);
    assert b[..] == chunk;
    ok := out.Write(b);
  }

  /** Writes a stream in calls of these lengths. */
  method SendAll(out: ObfuscatedConn, data: seq<octet>, cuts: Cuts) returns (ok: bool)
    requires out.Valid() && Total(cuts) == |data|
    modifies out.conn`outbound, out.conn`credit
    ensures ok <==> old(out.conn.credit) >= |cuts|
    ensures ok ==> out.conn.outbound == old(out.conn.outbound) + Pieces(Mask(out.xorKey), data, cuts)
  {
    ghost var f := Mask(out.xorKey);
    ghost var wire, credit := out.conn.outbound, out.conn.credit;
    ghost var sent: seq<octet>, done: Cuts := [], [];
    var at: nat, rest := 0, cuts;
    SendingStart(f, data, cuts);
    while rest != []
      invariant Sending(f, data, cuts, done, rest, at, sent) && out.conn.outbound == wire + sent
      invariant |rest| <= |cuts| && out.conn.credit + |cuts| - |rest| == credit
      decreases |rest|
    {
      var n := rest[0];
      SendingStep(f, data, cuts, done, rest, at, sent);
      ok := SendChunk(out, data[at..at + n]);
      if !ok {
        return;
      }
      AppendAssociates(wire, sent, Apply(f, data[at..at + n]));
      sent, done := sent + Apply(f, data[at..at + n]), done + [n];
      at, rest := at + n, rest[1..];
    }
    assert done == cuts;
    ProgressDone(f, data, cuts, at, sent);
    ok := true;
  }

  /** How Reads of at most size bytes cut a stream that arrives in segments of these lengths. */
  function ReadCuts(network: Cuts, size: nat): (got: Cuts)
    requires size > 0
    ensures Total(got) == Total(network)
    decreases Total(network) + |network|
  {
    if network == [] then []
    else if network[0] <= size then [network[0]] + ReadCuts(network[1..], size)
    else
      var left := [network[0] - size] + network[1..];
      assert left[1..] == network[1..];
      [size] + ReadCuts(left, size)
  }

  function Lengths<T>(segments: seq<seq<T>>): (r: Cuts)
    ensures Total(r) == |Flat(segments)|
  {
    if segments == [] then [] else [|segments[0]|] + Lengths(segments[1..])
  }

  /** Every Read into a buffer takes away from this. */
  function Unread<T>(segments: seq<seq<T>>): nat {
    Total(Lengths(segments)) + |segments|
  }

  lemma ReadCutsStep<T>(segments: seq<seq<T>>, size: nat)
    requires segments != [] && size > 0
    ensures var n := Min(size, |segments[0]|);
      && ReadCuts(Lengths(segments), size) == [n] + ReadCuts(Lengths(AfterRead(segments, n)), size)
      && Unread(AfterRead(segments, n)) < Unread(segments)
  {
    var n := Min(size, |segments[0]|);
    if n < |segments[0]| {
      assert AfterRead(segments, n)[1..] == segments[1..];
      assert Lengths(AfterRead(segments, n)) == [|segments[0]| - n] + Lengths(segments[1..]);
    }
  }

  /** data is what Reads with the lengths in got have obtained; inbound is still to be read. */
  ghost predicate Receiving<T>(f: (T, nat) -> T, wire: seq<T>, all: Cuts, size: nat, inbound: seq<seq<T>>,
                               got: Cuts, at: nat, data: seq<T>)
    requires size > 0
  {
    && Progress(f, wire, got, at, data) && Flat(inbound) == wire[at..]
    && all == got + ReadCuts(Lengths(inbound), size)
  }

  lemma CutsStep<T>(all: Cuts, size: nat, inbound: seq<seq<T>>, got: Cuts)
    requires size > 0 && inbound != [] && all == got + ReadCuts(Lengths(inbound), size)
    ensures var n := Min(size, |inbound[0]|);
      && all == (got + [n]) + ReadCuts(Lengths(AfterRead(inbound, n)), size)
      && Unread(AfterRead(inbound, n)) < Unread(inbound)
  {
    ReadCutsStep(inbound, size);
    var n := Min(size, |inbound[0]|);
    AppendAssociates(got, [n], ReadCuts(Lengths(AfterRead(inbound, n)), size));
  }

  lemma DropTake<T>(wire: seq<T>, at: nat, n: nat)
    requires at + n <= |wire|
    ensures wire[at..][..n] == wire[at..at + n] && wire[at..][n..] == wire[at + n..]
  {
  }

  lemma ReceivingStep<T>(f: (T, nat) -> T, wire: seq<T>, all: Cuts, size: nat, inbound: seq<seq<T>>,
                         got: Cuts, at: nat, data: seq<T>, chunk: seq<T>)
    requires size > 0 && inbound != [] && Receiving(f, wire, all, size, inbound, got, at, data)
    requires |chunk| == Min(size, |inbound[0]|) <= |Flat(inbound)| && chunk == Apply(f, Flat(inbound)[..|chunk|])
    ensures Receiving(f, wire, all, size, AfterRead(inbound, |chunk|), got + [|chunk|], at + |chunk|, data + chunk)
    ensures Unread(AfterRead(inbound, |chunk|)) < Unread(inbound)
  {
    var n := |chunk|;
    FlatDrop(inbound, n);
    CutsStep(all, size, inbound, got);
    DropTake(wire, at, n);
    ProgressStep(f, wire, got, at, data, n);
  }

  lemma ReceivingStart<T>(f: (T, nat) -> T, inbound: seq<seq<T>>, size: nat)
    requires size > 0
    ensures Receiving(f, Flat(inbound), ReadCuts(Lengths(inbound), size), size, inbound, [], 0, [])
  {
    var all := ReadCuts(Lengths(inbound), size);
    assert [] + all == all;
  }

  lemma ReceivingDone<T>(f: (T, nat) -> T, wire: seq<T>, all: Cuts, size: nat, got: Cuts, at: nat, data: seq<T>)
    requires size > 0 && Receiving(f, wire, all, size, [], got, at, data)
    ensures Total(all) == |wire| && data == Pieces(f, wire, all)
  {
    assert all == got;
    ProgressDone(f, wire, got, at, data);
  }

  method ReceiveChunk(from: ObfuscatedConn, size: nat) returns (chunk: seq<octet>, ok: bool)
    requires from.Valid() && size > 0
    modifies from.conn`inbound
    ensures ok <==> old(from.conn.inbound) != []
    ensures !ok ==> from.conn.inbound == []
    ensures ok ==> |chunk| == Min(size, |old(from.conn.inbound)[0]|) <= |old(from.conn.Pending())|
    ensures ok ==> chunk == Apply(Mask(from.xorKey), old(from.conn.Pending())[..|chunk|])
    ensures ok ==> from.conn.inbound == AfterRead(old(from.conn.inbound), |chunk|)
    ensures ok ==> from.conn.Pending() == old(from.conn.Pending())[|chunk|..]
  {
    var b := new octet[size];
    var n;
    n, ok := from.Read(b, false);
    chunk := b[..n];
  }

  /** Reads a stream to its end through a buffer. */
  method ReceiveAll(from: ObfuscatedConn, size: nat) returns (data: seq<octet>)
    requires from.Valid() && size > 0
    modifies from.conn`inbound
    ensures data == Pieces(Mask(from.xorKey), old(from.conn.Pending()), ReadCuts(Lengths(old(from.conn.inbound)), size))
  {
    ghost var f := Mask(from.xorKey);
    ghost var wire, all := from.conn.Pending(), ReadCuts(Lengths(from.conn.inbound), size);
    ghost var at: nat, got: Cuts := 0, [];
    data := [];
    var more := true;
    ReceivingStart(f, from.conn.inbound, size);
    while more
      invariant Receiving(f, wire, all, size, from.conn.inbound, got, at, data)
      invariant !more ==> from.conn.inbound == []
      decreases more, Unread(from.conn.inbound)
    {
      ghost var inbound := from.conn.inbound;
      var chunk;
      chunk, more := ReceiveChunk(from, size);
      if more {
        ReceivingStep(f, wire, all, size, inbound, got, at, data, chunk);
        data, got, at := data + chunk, got + [|chunk|], at + |chunk|;
      }
    }
    ReceivingDone(f, wire, all, size, got, at, data);
  }

  /** The segments in which the network delivers a stream. */
  function Segments<T>(wire: seq<T>, cuts: Cuts): (r: seq<seq<T>>)
    requires Total(cuts) == |wire|
    ensures Flat(r) == wire && Lengths(r) == cuts
  {
    if cuts == [] then [] else [wire[..cuts[0]]] + Segments(wire[cuts[0]..], cuts[1..])
  }

  /** Two wrapped ends and a network between them, each cutting the stream for itself: the reader obtains
      exactly what Received says of the writer's cuts and those that the buffer makes of the network's. */
  method Transfer(out: ObfuscatedConn, data: seq<octet>, sent: Cuts, network: Cuts, size: nat)
    returns (ok: bool, received: seq<octet>)
    requires out.Valid() && out.xorKey == KEY && out.conn.outbound == []
    requires Total(sent) == |data| == Total(network) && size > 0
    modifies out.conn`outbound, out.conn`credit
    ensures ok <==> old(out.conn.credit) >= |sent|
    ensures ok ==> received == Received(Mask(KEY), data, sent, ReadCuts(network, size))
  {
    received := [];
    ok := SendAll(out, data, sent);
    if ok {
      var wire := out.conn.outbound;
      assert wire == Pieces(Mask(KEY), data, sent);
      var link := new Conn(Segments(wire, network), 0);
      var from := new ObfuscatedConn(link);
      received := ReceiveAll(from, size);
    }
  }
}
