# Verified model of the reverse tunnel

The reverse tunnel keeps a little real state and transforms a few byte streams; the
rest is sockets. This project models those parts in Dafny and proves what they do over
every run, every interleaving of goroutines and every way the network cuts a stream.

`dafny verify dfyconfig.toml` checks everything.

| file | contents |
|---|---|
| `Bytes.dfy`, `Stream.dfy` | octets; a connection with any segmentation, `io.ReadFull`, failing writes |
| `SlidingWindow.dfy`, `RateLimiter.dfy` | the sliding-window rate limiter: theorems over whole runs, and the class with its two pruning loops |
| `PortPool.dfy` | the dynamic port allocator, traces of it, and what a whole setup asks for |
| `Registry.dfy` | clients, listeners, used ports and sessions as a state machine over critical sections |
| `RegistryRuns.dfy`, `RegistryPorts.dfy`, `RegistryHandOut.dfy` | what runs of it keep and exactly when: listeners and sessions, the ports in use, ports handed out twice |
| `RegistryWitnesses.dfy`, `RegistryCleanup.dfy` | runs in which a property fails, and how the cleanup paths commute |
| `Server.dfy` | the same tables as a class updated in place, each method proved against the machine's steps and keeping its invariant |
| `XorStream.dfy` | the XOR wrapper around a connection, and whole streams sent through it |
| `Auth.dfy`, `AuthRuns.dfy` | the challenge-response handshake, as sequential code and as two interleaved parties |
| `Datagrams.dfy`, `Shutdown.dfy` | UDP over TCP: the framing and its two loops, and their shared shutdown |
| `Junk.dfy` | the junk handshake, as sequential code and as two interleaved parties |
| `ControlReply.dfy`, `PortHeader.dfy` | the control path's own challenge, and the header that names a port |
| `Accounting.dfy` | the server's counters over whole runs |

## How the code is modelled

* `time.Now` is a nondecreasing argument. `net.Listen`, random draws, the arrival of
  bytes and the failure of writes are oracles: arguments, or steps that may go either way.
  `net.Listen` fails on a port on which one of the server's own listeners is still open.
* A write on a sequential connection succeeds whole or fails. The two interleaved junk
  handshakes run over a link that buffers a given number of bytes, and block when it is full.
* A mutex makes a critical section one step. While `s.mu` is held, a goroutine may still
  take `dynamicMu` once per port, and an allocation needs `dynamicMu` alone; the holder
  of `s.mu` therefore works off a list of pieces with allocations in between.
* Every sequence of steps is a run: a step that is not enabled changes nothing. A theorem
  about all sequences of steps is a theorem about all interleavings.
* HMAC-SHA256 is an arbitrary function with a 32-byte result.
* The byte-wise XOR is on 8-bit vectors; all other octets are integers from 0 to 255.

## Where the code does less than it seems to promise

* `ControlReply.WholeReplyFails`: the client sends its tag as 64 hexadecimal characters and
  the server expects the 32 bytes themselves. A reply delivered whole is rejected for every
  token, nonce and ID. `ControlReply.PartialReply` says exactly which reads would pass.
* `XorStream.SplitReadGarbles`: both calls of the XOR wrapper restart the key, so a stream
  that is read in other pieces than it was written in is garbled. `XorStream.RecoveredExactly`
  says byte by byte when it survives.
* `Junk.SkipJunk`: a size draw of 255 asks for 256 bytes, whose length byte is 0, and leaves
  exactly 256 stray bytes in front of the peer's data. `JunkRuns.CompleteExactly` adds that the
  handshakes then complete exactly when the link buffers those 256 bytes.
* `XorStream.ObfuscatedConn.Read`: bytes that a connection delivers along with an error are passed on
  without being decoded.
* `PortHeader.FirstReadExact`: the client takes one Read of up to 64 bytes for the header. One that takes
  more swallows user data, and unless that is all white space the port reads as 0; one that stops inside
  the number obtains a wrong port.
* `RegistryWitnesses.TwoLiveSessions`: the monitor of a replaced session deletes the entry of
  its successor, after which a client can have two live sessions. `RegistryRuns.OneLiveExactly` says
  that a run avoids this exactly when every arrival finds its client's live session stored, and
  `RegistryRuns.OneLiveSession` when the monitors alone see to that.
* `RegistryWitnesses.StrangerUnlisted`: a late accept loop deletes another session's listener
  from the table and leaves it open. `RegistryRuns.NoOrphan` gives the exact condition,
  and `RegistryCleanup.ListenersCommute` shows it is also when the cleanup paths commute on
  the listeners themselves.
* `RegistryWitnesses.LiveListenerClosed`: a monitor closes whatever is listed under the ports of its
  session, and so the listener of a live successor that has bound one of them in the meantime.
  `RegistryRuns.LiveOpenExactly` gives the exact condition.
* `RegistryWitnesses.LateBindLeaks`: a bind that succeeds after its session's monitor leaves a
  listener in the table that only its own accept loop can still remove.
  `RegistryRuns.AttendedExactly` gives the exact condition on a run, and `RegistryRuns.ListenersLeft`
  says exactly which listeners are left when everything has been monitored.
* `RegistryWitnesses.HandedOutTwice`: a port is released by its session's monitor and again by its accept
  loop, and neither asks who uses it now, so one that has meanwhile been handed out can be handed out
  twice. `RegistryHandOut.HandedOutAgainExactly` gives the exact condition on the allocation, and
  `RegistryHandOut.NoDoubleHandOut` on a run.
* `RegistryWitnesses.FailedBindKeepsPort`: an allocated port whose bind fails stays in use.
  `RegistryPorts.PortsLeft` says exactly which ports do.
* `AuthRuns.Outcome`: with an ID that is empty or longer than 255 bytes the client returns an
  error and the server keeps waiting for the first byte of the packet.
* `Datagrams.SentDelivers`: when the connection breaks between the two writes of an empty
  datagram, the receiver still delivers it, because its header is the whole frame.

## Model

| member | source | states |
|---|---|---|
| SlidingWindow.VerdictIsNaive | pkg/server/server.go:44-65 | after any run with a nondecreasing clock and cleanups anywhere, the pruned table admits a call exactly when fewer than `limit` earlier accepted calls of that IP lie strictly after now − window in the never-pruned log |
| SlidingWindow.LaterAnswersUnchanged | pkg/server/server.go:44-88 | deleting a cleanup, a rejected call or another IP's call from anywhere in a run changes no later answer |
| SlidingWindow.WindowBound | pkg/server/server.go:44-88 | in every run, any interval (x, x + k·window] holds at most k·limit accepted calls of an IP |
| SlidingWindow.OneWindowBound | pkg/server/server.go:44-88 | the case of a single window |
| SlidingWindow.ServerLimit | pkg/server/server.go:123 | with the server's own limiter no IP gets more than 20 connections past it in any minute, nor more than 1200 in any hour |
| SlidingWindow.ServerRefuses | pkg/server/server.go:123 | that limiter refuses a call exactly when 20 accepted ones lie in the last minute, so a twentieth is admitted |
| SlidingWindow.RetryAfterDenial | pkg/server/server.go:51-63 | after a denial the stored list is full; with v0 its oldest entry, later calls are denied before v0 + window and the first one from then on is accepted, whatever cleanups and other clients do in between |
| SlidingWindow.StoredShape | pkg/server/server.go:51-85 | each stored list is sorted, at most `limit` long, and a suffix of the accepted calls: pruning only ever drops a prefix |
| SlidingWindow.TableAfterCleanup | pkg/server/server.go:72-85 | in every run, right after a cleanup an address is in the table exactly when some accepted call of its log lies after now − window, with exactly those calls |
| SlidingWindow.TableAfterAttempt | pkg/server/server.go:48-64 | in every run, right after a call, admitted or not, the caller's list is exactly its accepted calls after now − window, and nothing else in the table has changed |
| SlidingWindow.PruneExact | pkg/server/server.go:74-85 | a cleanup keeps an address exactly when some entry of it is later than the cutoff, and then its later entries |
| RateLimiters.RateLimiter.constructor | pkg/server/server.go:34-42 | starts with an empty history |
| RateLimiters.RateLimiter.Allow | pkg/server/server.go:44-65 | the answer is the naive log's; the caller's list becomes its accepted calls in the window; the rest of the table is untouched |
| RateLimiters.RateLimiter.CleanupTick | pkg/server/server.go:67-88 | one tick keeps the table the one that the history determines, and forgets exactly the addresses without an entry later than now − window |
| RateLimiters.RateLimiter.Sweep | pkg/server/server.go:73-85 | in whatever order the map is visited, every list ends pruned, and an address stays exactly when some entry of it is later than the cutoff |
| RateLimiters.PruneList | pkg/server/server.go:51-56 | the loop keeps exactly the entries after the cutoff, in order |
| PortPool.PortRange | pkg/server/server.go:453-469 | always a nonempty range of positive ports; a valid configured range is taken as it is |
| PortPool.FreePortsExact | pkg/server/server.go:433-442 | the free ports are strictly ascending and are exactly the in-range, unused, bindable ones |
| PortPool.LeastFreeExact | pkg/server/server.go:427-445 | an allocation succeeds with p exactly when p is the least free port, and fails exactly when none is free |
| PortPool.UsedIsOutstanding | pkg/server/server.go:427-451 | over every trace of the pool, a port is in use exactly when some allocation handed it out and no later release gave it back |
| PortPool.NoDoubleGrant | pkg/server/server.go:427-451 | two allocations of one port always have a release of it between them |
| PortPool.GrantExact | pkg/server/server.go:427-445 | in every trace, each success is the least free port, and exhaustion means every in-range port was used or unbindable |
| PortPool.UsedInRange | pkg/server/server.go:427-451 | over every trace the ports in use lie in the range |
| PortPool.PlanExact | pkg/server/server.go:297-314 | k requests for a dynamic port and f free ports yield the min(k, f) smallest free ports in ascending order, and every static port unchanged and in order |
| PortPool.PlanInOrder | pkg/server/server.go:300-311 | while free ports last, the i-th spawned listener answers the i-th configured port |
| Registry.EveryInterleaving | pkg/server/server.go:316-345 | in every interleaving each entry of listeners is a still-open listener bound to its own key, that key is in its creator's ActivePorts, and the used ports lie in the configured range |
| Registry.RunOk | pkg/server/server.go:224-242 | the whole invariant behind it, including that a client's entry names a session of that client |
| Registry.RequestsInOrder | pkg/server/server.go:298-300 | setup walks through the ports of every configuration entry of the client, entry by entry in their order |
| RegistryRuns.AttendedExactly | pkg/server/server.go:316-333 | throughout a run every listener belongs to a session still to be monitored or is about to be unlinked, exactly when every bind that succeeds precedes its session's monitor |
| RegistryRuns.ListenersLeft | pkg/server/server.go:409-425 | for every run: once every monitor has run and s.mu is free, the listeners left are exactly those bound after their session's monitor and not removed since |
| RegistryRuns.NoListenerLeft | pkg/server/server.go:409-425 | none is left when every bind that succeeds precedes its session's monitor |
| RegistryRuns.OnlyItsOwnLoop | pkg/server/server.go:337-344 | over all continuations, a listener that no monitor and no other accept loop is to remove stays in the table exactly until its own accept loop ends |
| RegistryRuns.ArriveKeepsOneLive | pkg/server/server.go:231-237 | an arrival keeps at most one live session per client exactly when every live session of its client is the one stored |
| RegistryRuns.OneLiveExactly | pkg/server/server.go:231-237 | throughout a run no client has two live sessions exactly when every arrival meets that condition |
| RegistryRuns.MonitorKeepsLive | pkg/server/server.go:415-416 | a monitor step keeps every live session stored, so that the next arrival finds it, exactly when the entry it deletes is absent, its own, or a closed session's |
| RegistryRuns.OneLiveSession | pkg/server/server.go:415-416 | every live session stays stored throughout a run exactly when every monitor meets that condition, and then no client ever has two live sessions |
| RegistryRuns.LeaveKeepsTracked | pkg/server/server.go:337-344 | an accept loop's cleanup keeps every open listener in the table exactly when the entry it deletes is absent or its own |
| RegistryRuns.NoOrphan | pkg/server/server.go:337-344 | throughout a run no listener is open outside the table exactly when every accept loop meets that condition |
| RegistryRuns.LiveIsServed | pkg/server/server.go:346-356 | in every interleaving a session is monitored, and one of its accept loops ends, only after it has closed |
| RegistryRuns.LiveOpenExactly | pkg/server/server.go:417-422 | throughout a run every listener of a live session stays open exactly when no monitor's loop finds one of them under a port of its own session |
| RegistryPorts.UsedIsHandedOut | pkg/server/server.go:427-451 | in every interleaving a port is in use exactly when some step handed it out and no later step released it |
| RegistryPorts.ReleasedBetween | pkg/server/server.go:427-451 | in every interleaving two allocations of one port have a release of it between them |
| RegistryPorts.PoolTraceExact | pkg/server/server.go:427-451 | the allocations and releases of an interleaving form a trace of the pool that leaves the same ports in use |
| RegistryPorts.PortsLeft | pkg/server/server.go:318-329 | for every run: when everything has run, the ports in use are exactly those whose own goroutine's bind failed or came after the monitor, and that were not released since they were handed out |
| RegistryPorts.Quiescence | pkg/server/server.go:297-344 | if every session's binds finish before its monitor, then once all monitors have run no listener is left, and a port is in use exactly when it was handed out, the bind of the goroutine spawned for it failed, and no later step released it |
| RegistryPorts.SetupLoopPlans | pkg/server/server.go:297-314 | uninterrupted turns of the machine's setup loop spawn exactly the planned listeners |
| RegistryHandOut.HandedOutAgainExactly | pkg/server/server.go:427-451 | a port just handed out can, in some continuation, be handed out again before it is bound exactly when it is some client's fixed port, an accept loop still serves it, a session not yet monitored lists it, or its release is under way |
| RegistryHandOut.NoDoubleHandOut | pkg/server/server.go:427-451 | nothing that a run hands out can be handed out again before its bind, whatever follows, exactly when no allocation of the run hands out such a port; and then no port ever waits for two binds |
| RegistryWitnesses.LateBindLeaks | pkg/server/server.go:310-333 | a run in which a bind follows its session's monitor and everything else has finished; in all its continuations the listener is in the table exactly until its accept loop ends |
| RegistryWitnesses.TwoLiveSessions | pkg/server/server.go:409-416 | a run that ends with two live sessions of one client |
| RegistryWitnesses.StrangerUnlisted | pkg/server/server.go:337-344 | a run in which one session's accept loop unlists the open listener of another, live session |
| RegistryWitnesses.LiveListenerClosed | pkg/server/server.go:417-422 | a run in which the monitor of a replaced session closes the listener of its live successor |
| RegistryWitnesses.HandedOutTwice | pkg/server/server.go:341-423 | a run of two clients with dynamic ports only, in which monitor and accept loop release one port twice and a port handed out in between is handed out again |
| RegistryWitnesses.FailedBindKeepsPort | pkg/server/server.go:324-329 | a run whose binds all precede their monitors, that ends with everything cleaned up and a port in use |
| RegistryCleanup.CleanIsARun | pkg/server/server.go:337-425 | each cleanup path is what the machine's steps amount to when nothing interleaves |
| RegistryCleanup.CleanExact | pkg/server/server.go:337-344 | a cleanup path removes exactly the ports it touches from both tables |
| RegistryCleanup.CleanupCommutes | pkg/server/server.go:415-424 | any order and repetition of a session's cleanup paths that covers its ports ends in the same two tables, with every other port untouched |
| RegistryCleanup.ListenersCommute | pkg/server/server.go:337-344 | accept-loop cleanup and monitor leave the same listeners open in both orders exactly when the loop's port is free or its own |
| Servers.Server.GetDynamicPortRange | pkg/server/server.go:453-469 | computes the range |
| Servers.Server.AllocateDynamicPort | pkg/server/server.go:427-445 | the scan returns the least free port and marks only that one used, or changes nothing |
| Servers.Server.ReleaseDynamicPort | pkg/server/server.go:447-451 | removes one port from the used ports and changes nothing else |
| Servers.Server.RegisterSession | pkg/server/server.go:224-237 | closes the session stored for the client, if any, and stores the new one |
| Servers.Server.SetupClientListeners | pkg/server/server.go:297-314 | with the bindable ports fixed, the nested loops spawn exactly the plan for all matching entries and use exactly its dynamic ports |
| Servers.Server.SetupPorts | pkg/server/server.go:300-311 | the inner loop keeps the setup on its plan |
| Servers.Server.SetupPort | pkg/server/server.go:301-310 | a static port is spawned as it is, a request of 0 as the least free port, and an exhausted pool spawns nothing |
| Servers.Server.StartProxyListener | pkg/server/server.go:316-333 | fails without effect when the port is taken or refused; otherwise lists a new open listener and appends its port to ActivePorts |
| Servers.Server.StopProxyListener | pkg/server/server.go:337-344 | closes its own listener and removes its port from both tables |
| Servers.Server.MonitorSession | pkg/server/server.go:409-425 | forgets the client, closes what its ports list, and removes those ports from both tables |
| XorStream.RecoveredExactly | pkg/server/server.go:656-682 | for independent segmentations into Writes and Reads, byte p is recovered exactly when its Write and its Read start at congruent positions mod 16 |
| XorStream.IntactExactly | pkg/client/client.go:274-300 | the whole stream arrives intact exactly when that holds of every byte |
| XorStream.RoundTrips | pkg/client/client.go:282-300 | one Read per Write, or calls that all but the last move multiples of 16 bytes, deliver the stream intact |
| XorStream.SplitReadGarbles | pkg/client/client.go:282-291 | sixteen bytes written at once and read as 8 + 8 are never recovered |
| XorStream.KeyQualifies | pkg/server/server.go:657 | the sixteen key bytes, and that they are distinct |
| XorStream.MaskExact | pkg/server/server.go:669-671 | every masked byte differs from the original by the key byte at its offset mod 16 |
| XorStream.ZerosShowKey | pkg/server/server.go:657-671 | sixteen zero bytes come out as the key |
| XorStream.ObfuscatedConn.MaskPrefix | pkg/server/server.go:669-671 | the loop masks the first n bytes in place, each with the key byte at its offset mod 16, and leaves the rest |
| XorStream.ObfuscatedConn.Read | pkg/server/server.go:664-673 | decodes in place what one Read obtained, from the stream's front; bytes that come with an error stay undecoded |
| XorStream.ObfuscatedConn.Write | pkg/server/server.go:675-682 | sends the masked copy in one Write, each byte off by the key byte at its offset mod 16, and never alters the caller's buffer |
| XorStream.SendAll | pkg/server/server.go:675-682 | Writes of any lengths put the whole masked stream on the wire, each restarting the key |
| XorStream.ReceiveAll | pkg/server/server.go:664-673 | Reads through a buffer decode the whole stream, each restarting the key where buffer and network cut it |
| XorStream.Transfer | pkg/server/server.go:656-682 | two wrapped ends with any network between them: the reader obtains what the segmentation theorems say of the writer's cuts and its own |
| Auth.JudgeAccepts | pkg/protocol/auth.go:29-66 | the server accepts an ID exactly when the stream starts with its length of 1 to 255, the ID, and the mac of nonce and ID under the server's token |
| Auth.JudgeRefuses | pkg/protocol/auth.go:29-59 | it finds fault exactly with a length of 0 and with a whole packet whose tag is another, and waits otherwise |
| Auth.TagExact | pkg/protocol/auth.go:49-53 | unless the mac takes the two for each other, tags under nonces of equal length agree exactly when token, nonce and ID do |
| Auth.PacketLayout | pkg/protocol/auth.go:81-92 | one byte of length, the ID, and 32 bytes that are the mac of nonce and ID under the token |
| Auth.StatusTells | pkg/protocol/auth.go:36-64 | whatever the server is sent, a client fed what it answers is acknowledged exactly when it accepted an ID, and refused exactly when it found fault |
| Auth.ExchangeExact | pkg/protocol/auth.go:17-110 | a client's own packet is acknowledged exactly when both sides compute the same mac, and then the server has its ID |
| Auth.ServerAuthenticate | pkg/protocol/auth.go:17-67 | result and bytes sent, for every input, every segmentation and every failing write: acceptance by the mac of nonce and ID under the token, and a status byte of 1 or 0 |
| Auth.ClientAuthenticate | pkg/protocol/auth.go:70-110 | succeeds exactly when nonce and a status byte of 1 arrive, the ID is 1 to 255 bytes and the packet goes out; sends exactly that packet |
| Auth.BuildPacket | pkg/protocol/auth.go:88-92 | the indexed writes lay out length, ID and tag |
| AuthRuns.Agreement | pkg/protocol/auth.go:17-110 | in every interleaving, fragmentation and pattern of faults, a client that succeeds has a server that accepted that client's ID under agreeing tags, and a server accepts no other ID |
| AuthRuns.RunsAreBounded | pkg/protocol/auth.go:17-110 | no run takes more than 325 steps, however fragmented |
| AuthRuns.Outcome | pkg/protocol/auth.go:17-110 | without faults, every run that stops ends in success on both sides, in rejection on both sides, or with a bad ID refused and the server waiting, by ID length and agreement of tags |
| AuthRuns.EqualTokensSucceed | pkg/protocol/auth.go:17-110 | with equal tokens and a 1 to 255 byte ID every such run succeeds on both sides and the server has exactly the client's ID |
| AuthRuns.TokensDecide | pkg/protocol/auth.go:17-110 | unless the mac takes the two for each other, equal tokens end in success and different ones in rejection and refusal, in every such run |
| AuthRuns.InterleavedIsSequential | pkg/protocol/auth.go:17-110 | both interleaved sides end, and have sent, what the sequential ones do on the bytes they were sent |
| Datagrams.RoundTrip | pkg/tunnel/udp.go:26-66 | any sequence of datagrams of 0 to 65535 bytes is decoded to itself |
| Datagrams.DecodeExact | pkg/tunnel/udp.go:51-66 | every stream is the encoding of what is decoded from it, followed by a rest that holds no whole frame |
| Datagrams.Truncated | pkg/tunnel/udp.go:51-66 | a truncated wire yields exactly the datagrams whose last byte has arrived |
| Datagrams.PrefixExactly | pkg/tunnel/udp.go:32-43 | one encoding is a prefix of another exactly when its datagrams are: the framing is uniquely decodable |
| Datagrams.FrameBytes | pkg/tunnel/udp.go:32-41 | the length in two bytes, high one first, and the data |
| Datagrams.LengthBytes | pkg/tunnel/udp.go:56 | header bytes h and l announce 256·h + l bytes |
| Datagrams.AnyLength | pkg/tunnel/udp.go:51-61 | any data of up to 65535 bytes behind its length is decoded as one datagram |
| Datagrams.SentIsPrefix | pkg/tunnel/udp.go:32-43 | what is on the wire after any number of writes is a prefix of the encoding, and all of it when none fails |
| Datagrams.SentExact | pkg/tunnel/udp.go:32-43 | each datagram takes two writes, and after an odd number the last thing on the wire is a header |
| Datagrams.SentDelivers | pkg/tunnel/udp.go:26-66 | what a receiver decodes when the connection breaks after any number of writes |
| Datagrams.DeliveredExact | pkg/tunnel/udp.go:26-66 | by the number of writes that got through: two for each datagram delivered, one for an empty one |
| Datagrams.UdpToTcp | pkg/tunnel/udp.go:22-44 | the loop writes the frames of all datagrams in order, up to the write that fails |
| Datagrams.TcpToUdp | pkg/tunnel/udp.go:47-67 | the loop delivers exactly the complete datagrams of the stream, for every segmentation, up to the write that fails |
| Datagrams.ReadFrame | pkg/tunnel/udp.go:53-61 | two full reads obtain the first frame exactly when it is all there |
| Shutdown.ClosedOnce | pkg/tunnel/udp.go:12-16 | in every interleaving each connection is closed at most once, the UDP one first, and exactly once when forwarding returns, after both loops |
| Shutdown.BetweenCloses | pkg/tunnel/udp.go:13-14 | between the two closes no datagram is received or delivered, while the stream can still be read and written |
| Shutdown.MovesAreRank | pkg/tunnel/udp.go:11-70 | every failure, close and return of a run uses up exactly one unit of a rank that starts at nine |
| Shutdown.BoundedAfterFailure | pkg/tunnel/udp.go:22-69 | after a failure at most eight more moves besides successful operations; once both connections are closed at most five, and no operation succeeds but the read of an empty frame's data, at most once, so at most six steps of any kind |
| Shutdown.SixAfterClose | pkg/tunnel/udp.go:51-66 | a run with one successful operation, the read of no bytes, and six steps after both connections are closed |
| Shutdown.NeverStuck | pkg/tunnel/udp.go:22-69 | after a failure some move that needs no peer is always enabled until forwarding has returned: a party's own, a failure on a closed connection, or the read of no bytes |
| Shutdown.AlwaysReturns | pkg/tunnel/udp.go:22-69 | from every state after a failure at most nine such moves bring forwarding to its return |
| Junk.SkipJunk | pkg/obfuscate/obfuscate.go:30-55 | discarding junk leaves the data exactly in place if and only if the draw is not 255, which leaves exactly 256 stray bytes |
| Junk.JunkOnTheWire | pkg/obfuscate/obfuscate.go:30-38 | for every draw: draw + 1 bytes behind a length byte of draw + 1, or of 0 when the draw is 255 |
| Junk.WriteJunk | pkg/obfuscate/obfuscate.go:25-40 | sends the wrapped length byte and the filling in one write |
| Junk.ReadJunk | pkg/obfuscate/obfuscate.go:43-57 | skips the length byte and as many bytes, for every segmentation, or fails when they are not there |
| Junk.PerformClientHandshake | pkg/obfuscate/obfuscate.go:60-71 | writes first, then skips the peer's junk |
| Junk.PerformServerHandshake | pkg/obfuscate/obfuscate.go:73-84 | skips the peer's junk first, and writes only then |
| JunkRuns.HandshakeExact | pkg/obfuscate/obfuscate.go:60-84 | in every interleaving and fragmentation over a bounded link: a run that stops has completed both handshakes exactly when each side draws no 255 or the link buffers 256 bytes for it, and both sides then find the peer's data exactly in place if and only if neither draw is 255 |
| JunkRuns.CompleteExactly | pkg/obfuscate/obfuscate.go:60-84 | the first half of it, of every state that a run can reach |
| JunkRuns.RunsAreBounded | pkg/obfuscate/obfuscate.go:60-84 | no two handshakes take more than 1026 moves, however fragmented |
| ControlReply.HexInjective | pkg/server/server.go:271 | comparing the hexadecimal texts is comparing the bytes |
| ControlReply.HexAt | pkg/client/client.go:158 | two digits of 0 to 9 and a to f for each byte, the high half first |
| ControlReply.CheckExactly | pkg/server/server.go:262-273 | a message passes exactly when everything after its first colon is the tag of nonce and prefix |
| ControlReply.CheckUnderSecret | pkg/server/server.go:262-283 | that tag is the mac of nonce and prefix under the server's own secret |
| ControlReply.ForeignTagFails | pkg/server/server.go:270-283 | unless the mac takes the two for each other, a message tagged under a token and nonce passes exactly when they are the server's own |
| ControlReply.WholeReplyFails | pkg/client/client.go:154-161 | the client's reply, delivered whole, fails for every token, nonce and ID |
| ControlReply.PartialReply | pkg/server/server.go:257-273 | which prefixes of the reply one Read would have to obtain to pass |
| ControlReply.AuthenticateStream | pkg/server/server.go:245-276 | sends the nonce, checks one Read of at most 512 bytes, and consults the configured clients |
| ControlReply.CheckReply | pkg/server/server.go:262-273 | the split and comparison decide the check |
| ControlReply.ValidateClientConfig | pkg/server/server.go:285-295 | valid exactly when no client is configured or this one is |
| ControlReply.PerformHMACAuth | pkg/client/client.go:146-167 | answers a full nonce with ID, colon and hexadecimal tag |
| PortHeader.HeaderRoundTrip | pkg/client/client.go:184-185 | trimming and parsing the header of any 64-bit port returns the port |
| PortHeader.FirstReadExact | pkg/client/client.go:175-185 | for a first Read of any length: the parsed port is right exactly when it is 0 or the Read takes the whole number and beyond the header only white space, Unicode's included; what is left to forward is the user's data exactly when the Read takes the header and nothing more |
| PortHeader.HeaderFits | pkg/client/client.go:175-177 | every header fits the 64-byte buffer |
| PortHeader.DigitAt | pkg/server/server.go:378 | the decimal digits of the port, most significant first |
| PortHeader.DigitsNeeded | pkg/server/server.go:378 | as many digits as the port needs, without a zero in front |
| PortHeader.HeaderOf8080 | pkg/server/server.go:378 | the bytes of the header of port 8080 |
| PortHeader.RuneExact | pkg/client/client.go:184 | what is trimmed is exactly the UTF-8 encodings of Unicode white space |
| PortHeader.AtoiExact | pkg/client/client.go:185 | digits with an optional sign, cut to 64 bits, and 0 for any other text |
| PortHeader.WritePortHeader | pkg/server/server.go:378-379 | sends decimal text and newline in one write |
| PortHeader.ReadPortHeader | pkg/client/client.go:175-185 | parses what one Read of at most 64 bytes obtains and leaves the rest on the stream |
| Accounting.ConnectionsAddUp | pkg/server/server.go:166-219 | in every interleaving, whenever the accept loop is at its head the accepted connections are exactly those counted and those rate-limited, and one more in between; failures are rate-limited plus rejected handshakes and never exceed accepted connections |
| Accounting.CountersExact | pkg/server/server.go:166-219 | in every interleaving, by what happened to each connection: totalConnections counts those the limiter admitted, authFailures those it denied and those whose authentication failed, and no connection that got no session |
| StreamAccounting.ActiveStreamsExact | pkg/server/server.go:363-406 | in every interleaving a session's ActiveStreams is the number of its handlers between increment and deferred decrement, on every exit path |
| StreamAccounting.ActiveStreamsByHistory | pkg/server/server.go:363-406 | by what happened to each handler: a session's counter is the number of those that found it open and have since neither failed to open a stream or write the header nor finished copying |

## Left out

- yamux, TLS, autocert, snappy and socks5: libraries. A session is an open or closed flag, a stream a byte queue.
- HMAC-SHA256, nonce freshness and the failure of the random source: no claim about them is made.
- pkg/udp and the UDP goroutine of a proxied connection: it reads the same stream as the copy beside it, and frames nothing.
- Configuration loading: port bounds are arbitrary integers, as the range computation accepts them.
- Dashboard, metrics text, webhooks, profiling, logging, deadlines and sleeps: input and output only.
- The pipes of pkg/tunnel/mux.go and the client's reconnect loop: wrappers around library copies.
- Fairness of `Accept` and `Listen`: an accept loop of a closed session may end at any time, or never.
- Sessions and listeners are records in tables of `Servers.Server`, named by their index, instead of heap objects; aliasing of a `*ClientSession` is equality of indices.
- The map of used ports is the set of its keys, since every value stored in it is true.
- Writes that fail part of the way: a failing write sends nothing.
