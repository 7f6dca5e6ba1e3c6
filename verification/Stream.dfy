/**
 * A connection as the Go code sees it: Read returns whatever part of the stream
 * has arrived, Write appends the whole buffer or fails. The peer and the
 * operating system appear only as the segmentation of the inbound stream and as
 * the number of Writes that still succeed.
 */
module Stream {
  import opened Bytes

  /** Taking n elements off the first segment takes them off the stream. */
  lemma FlatDrop<T>(segments: seq<seq<T>>, n: nat)
    requires segments != [] && n <= |segments[0]|
    ensures Flat([segments[0][n..]] + segments[1..]) == Flat(segments)[n..]
    ensures n == |segments[0]| ==> Flat(segments[1..]) == Flat(segments)[n..]
  {
    assert ([segments[0][n..]] + segments[1..])[1..] == segments[1..];
  }

  /** The segments that a Read of n bytes leaves. */
  function AfterRead<T>(segments: seq<seq<T>>, n: nat): seq<seq<T>>
    requires segments != [] && n <= |segments[0]|
  {
    if n == |segments[0]| then segments[1..] else [segments[0][n..]] + segments[1..]
  }

  class Conn<T(==,0)> {
    var inbound: seq<seq<T>>   // segments still to be read
    var outbound: seq<T>       // everything written so far
    var credit: nat            // Writes that succeed before the connection breaks

    constructor (inbound: seq<seq<T>>, credit: nat)
      ensures this.inbound == inbound && this.outbound == [] && this.credit == credit
    {
      this.inbound, this.outbound, this.credit := inbound, [], credit;
    }

    /** What is still to be read, whatever its segmentation. */
    ghost function Pending(): seq<T>
      reads this
    {
      Flat(inbound)
    }

    /** One Read into b[from..]: at most one segment, n == 0 only at the end of the
        stream, on an empty segment or into an empty slice. */
    method Read(b: array<T>, from: nat) returns (n: nat, ok: bool)
      requires from <= b.Length
      modifies this`inbound, b
      ensures ok <==> old(inbound) != []
      ensures !ok ==> n == 0 && inbound == [] && b[..] == old(b[..])
      ensures ok ==> n == Min(b.Length - from, |old(inbound)[0]|)
      ensures ok ==> b[..] == old(b[..from]) + old(inbound)[0][..n] + old(b[from + n..])
      ensures Pending() == old(Pending())[n..]
      ensures ok ==> inbound == AfterRead(old(inbound), n)
      ensures ok ==> inbound == old(inbound)[1..] || (from + n == b.Length && |inbound| == |old(inbound)|)
    {
      if inbound == [] {
        return 0, false;
      }
      var segment := inbound[0];
      ok, n := true, Min(b.Length - from, |segment|);
      forall i | 0 <= i < n {
        b[from + i] := segment[i];
      }
      FlatDrop(inbound, n);
      inbound := AfterRead(inbound, n);
    }

    /** io.ReadFull: fills the whole buffer, or fails with the stream drained. */
    method ReadFull(b: array<T>) returns (ok: bool)
      modifies this`inbound, b
      ensures ok <==> b.Length <= |old(Pending())|
      ensures ok ==> b[..] == old(Pending())[..b.Length]
      ensures Pending() == if ok then old(Pending())[b.Length..] else []
    {
      ghost var all := Pending();
      var got := 0;
      while got < b.Length
        invariant got <= b.Length && got <= |all|
        invariant b[..got] == all[..got]
        invariant Pending() == all[got..]
        decreases b.Length - got, |inbound|
      {
        ghost var before := b[..got];
        var n, more := Read(b, got);
        if !more {
          return false;
        }
        assert b[..got + n] == before + all[got..][..n];
        got := got + n;
      }
      ok := true;
    }

    /** Write sends the whole buffer, or reports an error and sends nothing. */
    method Write(data: seq<T>) returns (ok: bool)
      modifies this`outbound, this`credit
      ensures ok <==> old(credit) > 0
      ensures outbound == if ok then old(outbound) + data else old(outbound)
      ensures credit == if ok then old(credit) - 1 else 0
    {
      if credit == 0 {
        return false;
      }
      outbound, credit, ok := outbound + data, credit - 1, true;
    }
  }
}
