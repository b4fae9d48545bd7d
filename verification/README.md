# Verification of the four network labs

A Dafny model of the stateful, arithmetic and concurrent cores of the repository, with proofs of what they
guarantee and, where they do not guarantee what they are meant to, of exactly when they do.

| module | models |
|---|---|
| `GoInts`, `Basics` | fixed-width Go integers with their wrap-around; facts about products and finite sets |
| `InternetChecksum` | the Lab 2 packet checksum, proved to be the Internet checksum of RFC 1071 (sections 1, 2 and 4.1) |
| `PacketCodec` | `Serialize` and `DeserializePacket`, with the checksum field where the code puts it: over the low length byte and the first payload byte |
| `Windows` | the Lab 2 sliding window on wrapping 32-bit sequence numbers |
| `Retransmission` | whole runs of one window: sends, acknowledgements and scans for overdue packets |
| `Connections` | one session and one window per client address |
| `Transfers` | the Lab 2 client's file sender and in-order receiver, joined by a network that loses, repeats and reorders |
| `ThreadPool` | the Lab 4 pool as interleaved atomic steps of submitters, workers and manager |
| `PoolRuns`, `PoolBounds` | runs that bring a pool to its extreme states, and what its limits and its counter are worth |
| `ResponseMatching` | the Lab 4 client's map of response channels as interleaved steps of callers and listeners |
| `RunningAverage` | the Lab 4 statistics and their truncating running average |
| `FdSets`, `Multiplexer` | the Lab 3 descriptor sets, interest sets, client table and transfer steps |
| `StreamTransfer` | the Lab 1 chunked download over an arbitrarily fragmented stream |
| `Commands` | the Lab 2 command line: join and split |

Code that updates buffers, fields and tables in place is modelled by arrays, classes and loops, each proved against
a function of its inputs or of the old state; the laws are then proved of those functions, for all inputs and all
runs. The two concurrent cores are transition systems: one step per atomic operation, lock operation, channel
operation or goroutine start, and every statement quantifies over every reachable state of every interleaving.

## Results

* **Codec.** `lab2/README.md` (lines 278 and 351) promises error detection and basic data integrity by checksums. In the code
  the checksum overwrites bytes 21 and 22, which belong to the length field and the payload, and the receiver sums the
  datagram with the checksum in it. So encoding and decoding are inverse **if and only if** the checksum happens to
  equal the two bytes it overwrites (`RoundTripExact`), and acceptance has one further case, which truncates or alters
  the payload (`AcceptanceExact`, `AcceptanceCanTruncate`). Witnesses show that the format both fails and succeeds.
  `OneByteCorruption` says exactly which single-byte errors pass: a 0x00/0xFF flip of byte 21 or 22, which rests on
  65535 = 255 * 257.
* **Checksum.** The `uint32` accumulator cannot wrap up to 131074 bytes, the folding loop ends within two rounds, and
  the result is invariant under permuting words, zero padding and, up to the swap itself, byte order.
* **Window.** Both guards are exact: the invariant survives `AddPacket` if and only if the window is open and the packet is
  next in sequence, and `AckPacket` if and only if the number is in flight. Acknowledgements commute (`AckConfluence`, from any state
  at all), the base ends at the first unacknowledged number, and packets sent = slots slid past + packets buffered.
* **Transfer.** Over intact packets the receiver's file is always a prefix of the sender's, each acknowledgement follows
  its writes, and the transfer completes if and only if the chunks arrive in order as a subsequence (`CompletionExact`).
  `EndToEnd` carries this through the datagram format for every file: refused datagrams end the transfer, an altered copy
  taken in makes completion impossible, and a file reported complete is the file that was sent. The format never alters a
  block **if and only if** its length is not 255 modulo 256 or its first byte is not 255 (`BlockIntact`). A file of more blocks than the window never
  arrives (`LongFileNeverArrives`). Both halves are the client's and meet only here: in the repository uploads go to a
  handler of the server's, and the server sends no DATA packets.
* **Retransmission.** Over every run of a window, n selections of one packet take at least n (timeout + 1) from its
  sending, and none follows its acknowledgement.
* **Thread pool.** Tasks are conserved, run at most once and are dequeued first in, first out; the three counters have
  exact meanings. `lab4/README.md` (line 67) promises configurable bounds on the workers. A pool *can grow* if somebody
  submits, it starts below its maximum, and a full queue and a task in every initial worker's hands exceed the threshold
  (`CanGrow`). For each configuration and each number k of submitters, in a running pool:
  - `currentWorkers` never exceeds the maximum **if and only if** k <= 1 or it cannot grow (`LimitExact`); every pool that
    can grow reaches maximum + k - 1, and none goes beyond (`BoundIsTight`);
  - the initial workers all stay alive **if and only if** there were none or it cannot grow (`MinimumExact`);
  - `currentWorkers` counts the workers alive, and is never negative, **if and only if** it cannot grow or
    maximum + k <= 2 (`DriftExact`); exactly the others reach 2 maximum + k live workers (`MostAliveExact`);
  - an accepted task can be left with nobody alive and every caller gone **if and only if** somebody submits and it started
    with no worker or can grow (`StrandedExact`).
* **Select multiplexer.** A descriptor lands in the bit of its own number, or 32 above if it is negative, and Go's
  truncating division accepts -31 and up. The source asks for descriptors of files it has just closed, which gives -1:
  then the listener and all clients share the bit of descriptor 31 and `maxFD + 1` is 0 (`ClosedDescriptors`). The bits are the descriptors if and only if
  none is negative (`ReadBitsExact`), and answer for each client if and only if clients that share a slot agree (`WriteBitsExact`).
* **Response matching.** No interleaving sends on a closed channel, nobody blocks while holding the lock, there is no
  deadlock, every caller gets its own response and at most one, a response for a registered call is offered to it, every
  call can be answered, and the map keeps no entry of a finished call.

## Model

| member | source | states |
|---|---|---|
| InternetChecksum.AccumulateWords | lab2/internal/domain/packet.go:147-154 | the loop's wrapping sum is the mathematical sum of the big-endian words (odd byte padded) modulo 2^32 |
| InternetChecksum.FoldKeepsResidue | lab2/internal/domain/packet.go:156-158 | one folding turn keeps the value modulo 65535, shrinks it, and two turns always reach 16 bits |
| InternetChecksum.FoldCarries | lab2/internal/domain/packet.go:156-158 | folding yields the representative in 1..65535 of the sum modulo 65535 (0 only for 0), in at most two rounds |
| InternetChecksum.CalculateChecksum | lab2/internal/domain/packet.go:146-161 | sum, fold and complement compute 65535 minus that representative, for every buffer |
| InternetChecksum.NoWrapAround | lab2/internal/domain/packet.go:147-154 | up to 131074 bytes the uint32 accumulator never overflows |
| InternetChecksum.ZeroSumExact | lab2/internal/domain/packet.go:146-161 | the sum is 0, and the checksum 0xFFFF, exactly for all-zero buffers |
| InternetChecksum.WordSumUpdate | lab2/internal/domain/packet.go:148-154 | changing one byte moves the sum by 256 or 1 times the difference, by parity of its index |
| InternetChecksum.ChecksumPermutation | lab2/internal/domain/packet.go:146-161 | buffers with the same multiset of 16-bit words have the same checksum (RFC 1071, section 2 (A)) |
| InternetChecksum.ChecksumZeroPadding | lab2/internal/domain/packet.go:146-161 | appending any number of zero bytes changes nothing |
| InternetChecksum.ChecksumByteOrder | lab2/internal/domain/packet.go:146-161 | byte-swapping every word byte-swaps the checksum (RFC 1071, section 2 (B)) |
| PacketCodec.BigEndianRoundTrip | lab2/internal/domain/packet.go:102-107 | reading a big-endian field back gives the value written, for every width |
| PacketCodec.BigEndianByte | lab2/internal/domain/packet.go:102-107 | byte i of a field is the value's digit of weight 256 to the number of bytes behind it |
| PacketCodec.FromBigEndianHead | lab2/internal/domain/packet.go:123-131 | reading weighs the first byte by 256 to the number of bytes behind it, so a field's value is the positional sum |
| PacketCodec.PutBigEndian | lab2/internal/domain/packet.go:102-107 | the in-place write puts exactly the big-endian bytes at the offset and touches nothing else |
| PacketCodec.Packet.FillHeader | lab2/internal/domain/packet.go:101-106 | the first 20 bytes become the header layout, the rest stays |
| PacketCodec.Packet.FillData | lab2/internal/domain/packet.go:107-108 | length and payload follow, one byte at the end stays zero |
| PacketCodec.Packet.Serialize | lab2/internal/domain/packet.go:99-114 | the fresh buffer is the encoding of the packet's value, and the packet's checksum field is set to the stored checksum |
| PacketCodec.Packet.VerifyChecksum | lab2/internal/domain/packet.go:163-170 | true exactly if the whole datagram, checksum bytes included, sums to the stored value; the field is restored |
| PacketCodec.DeserializePacket | lab2/internal/domain/packet.go:116-144 | the method agrees with the decoder on every input: too short, bad length, out-of-range slice, checksum mismatch, or the packet |
| PacketCodec.EncodeLayout | lab2/internal/domain/packet.go:99-114 | where every field ends up, and that bytes 21 and 22 hold the checksum, so the first payload byte is lost |
| PacketCodec.EncodedBytes | lab2/internal/domain/packet.go:99-114 | every byte of a datagram as a number: type, sequence and acknowledgement number most significant byte first, window, flags, time stamp, length, checksum, payload and a zero |
| PacketCodec.DecodedBytes | lab2/internal/domain/packet.go:116-144 | for every input: each error by its cause, and otherwise each field as a number made of the datagram's bytes |
| PacketCodec.HeaderFields | lab2/internal/domain/packet.go:121-129 | any datagram that starts with a packet's header parses to that packet's header fields |
| PacketCodec.EncodedSum | lab2/internal/domain/packet.go:110-111 | storing the checksum moves the sum by the byte-swapped checksum minus the two bytes it replaces |
| PacketCodec.ChecksumAgrees | lab2/internal/domain/packet.go:163-170 | the receiver's recomputation matches the stored checksum exactly in two cases |
| PacketCodec.DecodeEncoded | lab2/internal/domain/packet.go:131-141 | a serialized packet is accepted exactly if the altered length fits and the recomputed sum agrees |
| PacketCodec.DecodedFields | lab2/internal/domain/packet.go:121-137 | whenever the receiver accepts, all header fields return unchanged, with as many payload bytes as the altered length says |
| PacketCodec.AcceptanceExact | lab2/internal/domain/packet.go:99-170 | for every payload up to 65512 bytes the receiver accepts exactly if the checksum equals the bytes it overwrites, or it is 0 over 255, 255 and the datagram is not all zero |
| PacketCodec.AcceptanceModular | lab2/internal/domain/packet.go:99-170 | for a non-zero type, acceptance is the congruence hi(c) + 256 lo(c) = len + 256 first byte modulo 65535 |
| PacketCodec.RoundTripExact | lab2/internal/domain/packet.go:99-144 | decoding gives the packet back, payload included, if and only if the checksum equals the two bytes it overwrites |
| PacketCodec.RoundTripCanFail | lab2/internal/domain/packet.go:99-144 | an empty DATA packet numbered 0 is refused by its own receiver |
| PacketCodec.RoundTripCanSucceed | lab2/internal/domain/packet.go:99-144 | an empty DATA packet numbered 0x00FEFF00 comes back unchanged |
| PacketCodec.AcceptanceCanTruncate | lab2/internal/domain/packet.go:99-144 | a 255-byte payload is accepted as an empty one |
| PacketCodec.SomeNumberRoundTrips | lab2/internal/domain/packet.go:99-144 | every payload, unless its length is 255 modulo 256 and its first byte 255, round-trips with some sequence number, for every non-zero type |
| PacketCodec.SomeNumberAlters | lab2/internal/domain/packet.go:99-144 | every payload of length 255 modulo 256 with first byte 255 has a sequence number with which it is accepted altered |
| PacketCodec.AgreementAfterUpdate | lab2/internal/domain/packet.go:146-170 | which single-byte changes keep sum and stored checksum in agreement |
| PacketCodec.OneByteCorruption | lab2/internal/domain/packet.go:116-170 | of an accepted datagram, a copy with one byte changed is accepted exactly if the byte is 21 or 22, flips between 0x00 and 0xFF, the length still fits and neither degenerate value appears |
| PacketCodec.UndetectedFlip | lab2/internal/domain/packet.go:116-170 | such an undetected flip exists |
| Windows.SlidingWindow.constructor | lab2/internal/domain/packet.go:172-178 | a new window is empty and valid |
| Windows.SlidingWindow.CanSendNow | lab2/internal/domain/packet.go:180-182 | open exactly if the modular distance is below the window size |
| Windows.OpenExact | lab2/internal/domain/packet.go:180-182 | in a valid window that is exactly when the buffer has room |
| Windows.SlidingWindow.AddPacket | lab2/internal/domain/packet.go:184-187 | the new state, and that validity survives exactly if the window was open and the number was next |
| Windows.AddExact | lab2/internal/domain/packet.go:184-187 | adding keeps the interval invariant if and only if the guard holds, wrap-around included |
| Windows.SlidingWindow.AckPacket | lab2/internal/domain/packet.go:189-197 | the sliding loop ends from any state in the slid window, and validity survives exactly if the number was in flight |
| Windows.AckExact | lab2/internal/domain/packet.go:189-197 | acknowledging keeps the invariant if and only if the number is in flight |
| Windows.EmptyStall | lab2/internal/domain/packet.go:189-197 | acknowledging the next number of an idle window moves base past next and closes the window although nothing is in flight |
| Windows.SlideMaximal | lab2/internal/domain/packet.go:192-196 | the loop removes exactly the maximal run of acknowledged numbers at the base |
| Windows.SlideCuts | lab2/internal/domain/packet.go:192-196 | sliding removes one block of consecutive numbers from buffer and acked, and nothing else |
| Windows.AckAllIsOneSlide | lab2/internal/domain/packet.go:189-197 | acknowledging one by one equals marking all and sliding once |
| Windows.AckConfluence | lab2/internal/domain/packet.go:189-197 | from any state, distinct new acknowledgements give the same window in every order |
| Windows.FirstUnacknowledged | lab2/internal/domain/packet.go:189-197 | after them base is the first unacknowledged number and exactly the numbers before it left the buffer |
| Windows.AckAccounting | lab2/internal/domain/packet.go:189-197 | slots slid past plus packets left equals packets buffered before |
| Windows.WindowRun | lab2/internal/domain/packet.go:180-197 | over every guarded run: valid interval, sent = slid past + buffered, and both fields are the low 32 bits of those counts |
| Windows.SlidingWindow.GetUnackedPackets | lab2/internal/domain/packet.go:199-207 | the loop returns the collected prefix of the buffer |
| Windows.UnackedExact | lab2/internal/domain/packet.go:199-207 | it lists the whole buffer in sequence if and only if the window has not wrapped, and nothing otherwise |
| Windows.UnackedOnlyExact | lab2/internal/domain/packet.go:199-207 | it lists as many packets as are unacknowledged if and only if the window has not wrapped and none behind the first has been acknowledged |
| Windows.WrappedListsNothing | lab2/internal/domain/packet.go:199-207 | a wrapped window with two unacknowledged packets of which none is listed |
| Windows.SlidingWindow.GetRetransmissionPackets | lab2/internal/domain/packet.go:209-221 | selects exactly the buffered, unacknowledged, overdue packets, each once, and stamps only those |
| Retransmission.ScanExact | lab2/internal/domain/packet.go:213-218 | a scan selects every unacknowledged packet older than the timeout, stamps those and keeps every other stamp |
| Retransmission.SelectionSpacing | lab2/internal/domain/packet.go:184-221 | over every run of guarded sends, acknowledgements and scans with a monotone clock, n selections of one packet take at least n (timeout + 1) from its sending |
| Retransmission.SelectionRate | lab2/internal/domain/packet.go:209-221 | in the time T since it was sent a packet is selected at most T / timeout times |
| Retransmission.NeverAfterAck | lab2/internal/domain/packet.go:189-221 | once a packet in flight is acknowledged no later scan selects it, whatever follows |
| Connections.UDPConnectionManager.GetOrCreateClient | lab2/internal/infrastructure/network/udp_connection.go:55-74 | returns the existing or a fresh session, touched, and leaves every other address as it was |
| Connections.UDPConnectionManager.SetWindowSize | lab2/internal/infrastructure/network/udp_connection.go:50-53 | the size for later sessions and that of the manager-wide window change, no session does |
| Connections.UDPConnectionManager.SendReliablePacket | lab2/internal/infrastructure/network/udp_connection.go:76-85 | buffers exactly if the window of that address is open; sessions and windows stay distinct, packets stay under their numbers |
| Connections.UDPConnectionManager.HandleAckPacket | lab2/internal/infrastructure/network/udp_connection.go:87-91 | slides the window of that address alone and records the number |
| Connections.UDPConnectionManager.CleanupExpiredClients | lab2/internal/infrastructure/network/udp_connection.go:93-103 | deleting while ranging leaves exactly the sessions seen within five minutes |
| Connections.TouchOutcome | lab2/internal/infrastructure/network/udp_connection.go:55-74 | a touch creates an empty session or changes nothing but the time, and no other address |
| Connections.SendOutcome | lab2/internal/infrastructure/network/udp_connection.go:76-85 | a refused send leaves that window as it was; an accepted one adds the packet under its number and moves on to the next |
| Connections.AckOutcome | lab2/internal/infrastructure/network/udp_connection.go:87-91 | an acknowledgement in flight is recorded; its packet is marked or gone, only acknowledged numbers at the base have left |
| Connections.Isolation | lab2/internal/infrastructure/network/udp_connection.go:50-103 | after any run, resizes included, an address's session is what it would be had all operations for other addresses never happened |
| Connections.WindowsStayValid | lab2/internal/infrastructure/network/udp_connection.go:76-91 | every session's window keeps its invariant over every guarded run |
| Connections.LastSeenIsLastUse | lab2/internal/infrastructure/network/udp_connection.go:55-74 | a session's time stamp is the time of the last operation for its address |
| Connections.CleanupExact | lab2/internal/infrastructure/network/udp_connection.go:93-103 | after any run a cleanup keeps exactly the addresses last used within five minutes, unchanged |
| Transfers.ReceiveFile | lab2/internal/infrastructure/network/udp_client.go:201-238 | the loop writes and acknowledges exactly the expected DATA packets, goes on after an error that is itself a network timeout and stops on every other |
| Transfers.ExpectedChunkArrives | lab2/internal/infrastructure/network/udp_client.go:220-230 | accepting packet e writes its chunk and then sends exactly one acknowledgement, AckNum e + 1 for packet e |
| Transfers.InOrderDelivery | lab2/internal/infrastructure/network/udp_client.go:208-234 | for every loss, repetition and reordering: the file is chunks 0..e-1, the acknowledgements are those of packets 0..e-1, once each, in order and after the writes, and completion means the whole file |
| Transfers.GreedyIsBest | lab2/internal/infrastructure/network/udp_client.go:220-227 | accepting what is expected gets as far as any in-order selection from the arrivals |
| Transfers.CompletionExact | lab2/internal/infrastructure/network/udp_client.go:208-234 | the transfer completes if and only if all chunks arrive in order as a subsequence before an error |
| Transfers.StatusExact | lab2/internal/infrastructure/network/udp_client.go:211-218 | what does not complete was aborted exactly if an error other than a timeout arrived |
| Transfers.SendBlock | lab2/internal/infrastructure/network/udp_client.go:183-187 | a block goes out exactly if the window of that address has room, which then shrinks by one |
| Transfers.SendFile | lab2/internal/infrastructure/network/udp_client.go:169-195 | packets numbered from 0 modulo 2^32 go out; success if and only if every block is read, taken by the socket and within the window's room, and each failure (window full, read, socket, crash for a file size below ten) exactly where it is due |
| Transfers.LongFileNeverArrives | lab2/internal/infrastructure/network/udp_client.go:162-238 | a file of more blocks than a fresh session's window is never received whole, however its first blocks are delivered |
| Transfers.BlockFate | lab2/internal/domain/packet.go:99-144 | for every block a datagram can carry: intact if the checksum equals the bytes it overwrites, accepted shortened in the other slot case, refused otherwise |
| Transfers.BlockIntact | lab2/internal/domain/packet.go:99-144 | a block is never altered, whatever its number and time, if and only if its length is not 255 modulo 256 or its first byte is not 255 |
| Transfers.BlockAcceptable | lab2/internal/domain/packet.go:99-144 | each such block has a number with which it is accepted |
| Transfers.OneDelivery | lab2/internal/infrastructure/network/reliability.go:57-76 | what the receive loop sees of a delivery: an error exactly for failed reads and refused datagrams, never as a timeout, otherwise the packet |
| Transfers.EndToEnd | lab2/internal/infrastructure/network/udp_client.go:162-238 | for every file and every delivery: completion if and only if each chunk is taken in intact before a refused datagram, a failed read or an altered copy taken in; a file reported complete is the file sent |
| Transfers.EndToEndUnaltered | lab2/internal/infrastructure/network/udp_client.go:162-238 | with no altered copy delivered: always a prefix of the file; the whole file if and only if the datagrams before the first refused one contain 0, 1, 2, ... in order |
| ThreadPool.StartWorkers | lab4/internal/infrastructure/network/thread_pool.go:46-54 | the loop of `Start` leaves the minimum number of workers, or the maximum if that is less, and counts them |
| ThreadPool.SubmitExact | lab4/internal/infrastructure/network/thread_pool.go:63-74 | a task is refused exactly if the queue is full or the pool cancelled, and accepted, at the end of the queue, only if it is not full |
| ThreadPool.TaskConservation | lab4/internal/infrastructure/network/thread_pool.go:63-74 | each accepted task is in exactly one of queue, one worker, finished; runs at most once, exactly once if finished; first in, first out |
| ThreadPool.StatsMeaning | lab4/internal/infrastructure/network/thread_pool.go:76-85 | queued = queue + workers not yet decremented - submitters not yet incremented; completed and active are exact counts; bounds |
| ThreadPool.WorkerBounds | lab4/internal/infrastructure/network/thread_pool.go:87-121 | current + callers past the check is at most max + k - 1; live workers = current + tokens + one pending; at most 2 max + k |
| ThreadPool.StatsAtRest | lab4/internal/infrastructure/network/thread_pool.go:76-85 | at rest the statistics are exact: nothing queued or active, every accepted task ran and completed once |
| ThreadPool.CountersFitInt32 | lab4/internal/infrastructure/network/thread_pool.go:24-27 | under a bound on the configuration no int32 counter wraps in any run |
| ThreadPool.DecisionExact | lab4/internal/infrastructure/network/thread_pool.go:150-161 | over the three states in which it samples: the manager counts a worker off if and only if it saw more than the minimum, fewer than half of them active, and no counted task unfinished |
| ThreadPool.NothingPendingWhenShrinking | lab4/internal/infrastructure/network/thread_pool.go:155-160 | when it does, no counted task is queued or in a worker's hands, up to tasks sent and not yet counted |
| PoolBounds.LimitExact | lab4/internal/infrastructure/network/thread_pool.go:87-93 | for every configuration and every k: a running pool never counts more than the maximum if and only if k <= 1, it started with the maximum, or it is never crowded |
| PoolBounds.MinimumExact | lab4/internal/infrastructure/network/thread_pool.go:114-117 | for every configuration and every k: a running pool always keeps its initial number of live workers if and only if k = 0, that number is 0, the minimum is at least the maximum, or it is never crowded; and when it is sure to keep even one |
| PoolBounds.BoundIsTight | lab4/internal/infrastructure/network/thread_pool.go:87-93 | every pool that can grow reaches a count of max + k - 1 |
| PoolBounds.FixedPool | lab4/internal/infrastructure/network/thread_pool.go:114-117 | a pool without submitters, without room or with a threshold it cannot exceed has exactly its initial workers, all alive, until it is stopped |
| PoolBounds.ThresholdRespected | lab4/internal/infrastructure/network/thread_pool.go:123-134 | if no fill level can exceed the threshold no worker is ever added |
| PoolBounds.DriftExact | lab4/internal/infrastructure/network/thread_pool.go:150-161 | for every configuration and every k: in a running pool the counter equals the workers alive or starting, and is never negative, if and only if the pool cannot grow or max + k <= 2 |
| PoolBounds.CounterDriftIsReal | lab4/internal/infrastructure/network/thread_pool.go:150-161 | one such pool: a run with one submitter ends with current = -1 and both workers gone although the minimum is 1 |
| PoolBounds.MostAliveExact | lab4/internal/infrastructure/network/thread_pool.go:87-121 | for every configuration and every k >= 1: 2 max + k live workers are reached if and only if the pool can grow and max + k >= 3 |
| PoolBounds.StrandedExact | lab4/internal/infrastructure/network/thread_pool.go:63-74 | for every configuration and every k: an accepted task can be left with nobody alive and no caller active if and only if k >= 1 and the pool started with no worker or can grow |
| PoolBounds.StopCompletes | lab4/internal/infrastructure/network/thread_pool.go:56-61 | every pool has a run in which `Stop` ends all workers and the manager and closes the queue |
| PoolBounds.EndsWhenCancelled | lab4/internal/infrastructure/network/thread_pool.go:56-61 | only a cancelled pool is ever closed or without its manager |
| ThreadPool.LawsInvariant | lab4/internal/infrastructure/network/thread_pool.go:46-161 | all accounting laws hold in every reachable state |
| ResponseMatching.NoPanic | lab4/internal/infrastructure/network/udp_client.go:101-106 | no enabled step of any reachable state sends on a closed channel or closes twice |
| ResponseMatching.LockHoldersMove | lab4/internal/infrastructure/network/udp_client.go:161-168 | every lock holder's next step is enabled, and a writer excludes everyone else |
| ResponseMatching.AlwaysProgress | lab4/internal/infrastructure/network/udp_client.go:96-121 | while a call is unfinished some step other than a new arrival is enabled |
| ResponseMatching.OwnResponseOnce | lab4/internal/infrastructure/network/udp_client.go:113-120 | a call consumes at most one response, with its own id, and returns one exactly if it consumed one; no two calls return the same |
| ResponseMatching.ResponseOffered | lab4/internal/infrastructure/network/udp_client.go:161-168 | a listener with a response for a registered call offers it to that call's channel, which takes it exactly if it is empty, and touches no other |
| ResponseMatching.ResponseDropped | lab4/internal/infrastructure/network/udp_client.go:161-168 | a response for no registered call changes no channel |
| ResponseMatching.NothingLost | lab4/internal/infrastructure/network/udp_client.go:162-167 | once a listener offered a waiting call a response the call can take one |
| ResponseMatching.CallEnds | lab4/internal/infrastructure/network/udp_client.go:108-120 | a call leaves with what it took from its own channel, or empty-handed after a failed write or the end of its wait, and in no other way |
| ResponseMatching.CallAnswered | lab4/internal/infrastructure/network/udp_client.go:74-121 | with a listener, every call has a run in which it returns any given response with its id |
| ResponseMatching.NoLeak | lab4/internal/infrastructure/network/udp_client.go:101-106 | a map entry belongs to a call that has not returned |
| ResponseMatching.InvInvariant | lab4/internal/infrastructure/network/udp_client.go:96-168 | lock, map and channel invariants hold in every reachable state |
| RunningAverage.NextIsDivision | lab4/internal/infrastructure/network/udp_server.go:200 | without overflow an update is integer division: n times it falls short by less than n |
| RunningAverage.NoOverflow | lab4/internal/infrastructure/network/udp_server.go:200 | no intermediate value overflows while the total of all samples fits an int64 |
| RunningAverage.AverageBounds | lab4/internal/infrastructure/network/udp_server.go:198-201 | n times the stored average is at most the true total and short of it by at most n(n-1)/2 |
| RunningAverage.AverageBetween | lab4/internal/infrastructure/network/udp_server.go:198-201 | the stored average lies between the smallest and the largest sample |
| RunningAverage.UDPServer.RecordReceived | lab4/internal/infrastructure/network/udp_server.go:180-183 | counts one request of that service and stamps it; other services are untouched |
| RunningAverage.UDPServer.RecordProcessed | lab4/internal/infrastructure/network/udp_server.go:198-201 | appends one sample: count and average are those of the longer history |
| RunningAverage.UDPServer.GetAverage | lab4/internal/infrastructure/network/udp_server.go:95-111 | the reported average is that of the recorded history and obeys the bounds |
| FdSets.FDSet | lab3/internal/infrastructure/network/unix_select.go:62-64 | for every descriptor from -31 to 1023 the word update adds exactly its slot to the set: two to the bit's number in that word, no other word changed |
| FdSets.MaskIsPower | lab3/internal/infrastructure/network/unix_select.go:62-70 | bit k of a word counts for two to the k |
| FdSets.FDIsSet | lab3/internal/infrastructure/network/unix_select.go:66-71 | for every descriptor above -32 the bit test is membership of its slot, and false from 1024 on |
| FdSets.SharedSlot | lab3/internal/infrastructure/network/unix_select.go:62-71 | two descriptors share a bit exactly if they are equal or one is negative and 32 below the other |
| FdSets.SlotsExact | lab3/internal/infrastructure/network/unix_select.go:62-71 | the bits are the descriptors exactly if none of these is negative |
| FdSets.FDZero | lab3/internal/infrastructure/network/unix_select.go:73-77 | clearing the words gives the empty set |
| FdSets.EmptyView | lab3/internal/infrastructure/network/unix_select.go:62-77 | the set is empty exactly if all 32 words are zero |
| FdSets.CollectReady | lab3/internal/infrastructure/network/unix_select.go:37-59 | all three answers are copied back; the count is the number of non-zero words and 0 exactly if all three sets are empty |
| Multiplexer.CalculateOptimalChunkSize | lab3/internal/infrastructure/network/select_multiplexer.go:281-295 | always within 512..8192, even if the product wraps; 1048 bytes per full 0.1 ms, clamped, where it does not |
| Multiplexer.TransferSteps | lab3/internal/infrastructure/network/select_multiplexer.go:269-279 | a transfer of F > 0 bytes is active before and inactive after exactly ceil(F / chunk) steps, overshooting by less than a chunk, unless that many chunks exceed an int64: then the counter wraps there and the transfer goes on |
| Multiplexer.Client.HandleWrite | lab3/internal/infrastructure/network/select_multiplexer.go:233-238 | one write step of an active transfer, nothing otherwise |
| Multiplexer.Client.Watch | lab3/internal/infrastructure/network/select_multiplexer.go:93-105 | one turn of the preparation loop as set insertions |
| Multiplexer.SelectMultiplexer.PrepareSets | lab3/internal/infrastructure/network/select_multiplexer.go:80-107 | a read bit is set exactly for the slots of the listener and of active clients with a descriptor, a write bit for those with an active transfer, no except bit, and maxFD is the largest descriptor |
| Multiplexer.SelectMultiplexer.WatchAll | lab3/internal/infrastructure/network/select_multiplexer.go:92-107 | the same for the loop, in whatever order the table is ranged over |
| Multiplexer.WritersAreReaders | lab3/internal/infrastructure/network/select_multiplexer.go:93-105 | whoever is watched for writing is watched for reading |
| Multiplexer.ReadBitsExact | lab3/internal/infrastructure/network/select_multiplexer.go:89-106 | the read bits are the watched descriptors if and only if none of them is negative |
| Multiplexer.WriteBitsExact | lab3/internal/infrastructure/network/select_multiplexer.go:93-105 | the write bits say for every watched client whether it has a transfer if and only if clients that share a slot agree |
| Multiplexer.ClosedDescriptors | lab3/internal/infrastructure/network/select_multiplexer.go:197-204 | with the descriptors of closed files listener and clients share bit 31, maxFD + 1 is 0, and one transfer marks everyone |
| Multiplexer.SelectMultiplexer.HandleNewConnection | lab3/internal/infrastructure/network/select_multiplexer.go:171-213 | admits exactly below the limit, with a fresh active client whose chunk size is the one for the ping timeout; a refusal changes nothing |
| Multiplexer.SelectMultiplexer.HandleClientRead | lab3/internal/infrastructure/network/select_multiplexer.go:215-216 | a read renews that client's last ping only |
| Multiplexer.SelectMultiplexer.RemoveConnection | lab3/internal/infrastructure/network/select_multiplexer.go:337-351 | removes that client only, and nothing if it is unknown |
| Multiplexer.SelectMultiplexer.CheckPingTimeouts | lab3/internal/infrastructure/network/select_multiplexer.go:297-312 | the sweep removes exactly the clients idle beyond the ping timeout |
| Multiplexer.TableWithinLimit | lab3/internal/infrastructure/network/select_multiplexer.go:171-213 | over every run of accepts, reads, removals and sweeps the table stays within the limit |
| Multiplexer.PingIsLastHeard | lab3/internal/infrastructure/network/select_multiplexer.go:187-216 | over every run a client's last ping is the time of its last admission or read |
| Multiplexer.SweepExact | lab3/internal/infrastructure/network/select_multiplexer.go:297-312 | after any run a sweep keeps exactly the clients heard from within the ping timeout, unchanged |
| StreamTransfer.SendFile | lab1/internal/infrastructure/network/tcp_server.go:290-305 | the blocks written concatenate to the file, for every buffer size |
| StreamTransfer.ReceiveFile | lab1/internal/infrastructure/network/tcp_client.go:213-246 | consumes exactly fileSize bytes of any fragmentation; short of that it fails exactly if the stream has ended, and else waits |
| StreamTransfer.Download | lab1/internal/infrastructure/network/tcp_client.go:220-240 | for every file, buffer sizes and fragmentation the received file is the sent one and the trailing reply is left unread |
| Commands.ParseCommand | lab2/internal/infrastructure/network/udp_server.go:211-231 | the loop returns the maximal space-free pieces, all of them tokens |
| Commands.SplitJoin | lab2/internal/infrastructure/network/udp_server.go:211-231 | splitting undoes joining for every list of tokens |
| Commands.CommandLineExact | lab2/internal/infrastructure/network/udp_client.go:74-77 | what is sent is the command and each argument behind a single space |
| Commands.TokensExact | lab2/internal/infrastructure/network/udp_server.go:211-231 | nothing has no tokens, a space-free piece is its own, and a space separates: this determines the tokens of any input |
| Commands.CommandRoundTrip | lab2/internal/infrastructure/network/udp_client.go:74-77 | the server recovers command and arguments if and only if all are non-empty and space-free |
| Commands.ReparseIsIdentity | lab2/internal/infrastructure/network/udp_server.go:211-231 | for any input, rejoining the tokens and parsing again gives the same tokens |

## Left out

- Sockets, files, clocks, tickers, goroutine launches and random ids are parameters (`now`, an arriving event, the bytes a read returns, an id); their errors appear only where a loop branches on them, and file-write and descriptor errors not at all.
- ThreadPool and ResponseMatching work on values, one step per atomic operation: that Go objects are updated in place and shared by reference is not captured.
- ThreadPool: a task queue of capacity 0, sends on the task queue after `Stop` closed it (a panic in the code) and the wait group are not modelled; tasks are identities, the threshold test is over reals.
- ThreadPool.CountersFitInt32: `completedTasks` is unbounded in the model; the code's int64 would wrap after 2^63 tasks.
- PoolBounds: its results are about running pools; after `Stop` has cancelled them workers leave at any time.
- ResponseMatching: JSON encoding, the connection object and its own lock are not modelled; request ids are distinct, which is what random ids are for.
- PacketCodec.AcceptanceExact: payloads up to 65512 bytes, where the datagram fits 16 bits of length; longer packets cannot be sent over UDP.
- PacketCodec.DeserializePacket: bytes behind the slice in its backing array are the parameter `spare`, since the code's `data[21:23]` can reach one of them.
- PacketCodec.Packet: fields other than checksum and timestamp never change after construction and the payload is a snapshot; the sender's reuse of one read buffer is not captured.
- Windows.SlidingWindow.GetRetransmissionPackets: requires every buffered packet to sit under its own number, which `AddPacket` keeps; the order in which Go ranges over the map is left open.
- Retransmission.SelectionRate: non-negative time stamps, a clock that does not run backwards, and the two guards of the window.
- Connections.UDPConnectionManager.SendReliablePacket: the result of the socket send is not modelled, only the window's decision.
- Connections.UDPConnectionManager.HandleAckPacket: modelled as a component; nothing in the repository calls it, and the server acknowledges with the number after the one received.
- Transfers.EndToEnd: fewer than 2^32 blocks, none empty and none longer than a datagram carries; it joins two halves of the client that the repository never connects.
- Transfers.ReceiveFile: no read deadline is set and `ReceivePacket` wraps its errors, so the loop's branch for timeouts is never taken in the repository; a decoder panic counts as an error.
- Transfers: the DATA packets numbered 0 that `testBufferSizes` injects, progress reporting and retransmission are not modelled (its division by zero for files of 1 to 9 bytes is); `reliability.go` never counts a retransmission and resends to a nil address, so its delivery claims do not hold.
- RunningAverage.UDPServer.RecordReceived: the request counters stay below 2^63; the error counter is not modelled.
- RunningAverage.UDPServer.RecordProcessed: called for a request already recorded as received, as `handleRequest` does.
- FdSets.FDSet: descriptors outside -31..1023 make the code panic and are excluded.
- Multiplexer.SelectMultiplexer.CheckPingTimeouts: time differences are exact; Go saturates beyond 292 years.
- Multiplexer: dispatch over ready descriptors, command handling and connection shutdown are not modelled; they add only calls of members that are.
- StreamTransfer.ReceiveFile: begins after the header line; data that arrives while it reads counts as there from the start; `readResponse`, which may swallow file bytes, is not modelled.
- Commands.ParseCommand: strings are sequences of characters; invalid UTF-8 is not modelled.
- Keepalive settings, services, service registry, session maps, configuration and `main` programs hold only easy members.
