/** The Lab 2 file transfer: the sender cuts a file into numbered DATA packets, the receiver writes only the
    packet it expects next.  Both halves are the client's and meet only here: in the repository uploads go to a
    handler of the server's, and the server sends no DATA packets. */
module Transfers {
  import opened GoInts
  import opened PacketCodec
  import opened Windows
  import opened Connections

  const DATA: byte := 1

  type Chunk = seq<byte>

  function Flatten(chunks: seq<Chunk>): seq<byte> {
    if chunks == [] then [] else Flatten(chunks[..|chunks| - 1]) + chunks[|chunks| - 1]
  }

  lemma {:induction false} FlattenPrefix(chunks: seq<Chunk>, e: nat)
    requires e <= |chunks|
    ensures Flatten(chunks[..e]) <= Flatten(chunks)
    ensures (forall i :: 0 <= i < |chunks| ==> chunks[i] != []) ==>
              (|Flatten(chunks[..e])| == |Flatten(chunks)| <==> e == |chunks|)
    decreases |chunks|
  {
    if e == |chunks| {
      assert chunks[..e] == chunks;
    } else {
      var n := |chunks| - 1;
      FlattenPrefix(chunks[..n], e);
      assert chunks[..n][..e] == chunks[..e];
    }
  }

  // ---------- the receiver ----------

  /** What the loop distinguishes in the result of a `ReceivePacket` call. */
  datatype Event =
    | Datagram(packet: PacketRecord)
    | TimedOut  // an error that is itself a network timeout
    | Broken    // any other error

  datatype Effect =
    | Wrote(data: Chunk)
    | AckSent(seqNum: uint32, ackNum: uint32)

  datatype Status =
    | Complete
    | Aborted
    | Starved  // still waiting when the events end

  datatype Receiver = Receiver(total: int, expected: uint32, log: seq<Effect>)

  function OnEvent(r: Receiver, ev: Event): Receiver {
    if ev.Datagram? && ev.packet.kind == DATA && ev.packet.seqNum == r.expected then
      var next := Plus32(r.expected, 1);
      Receiver(r.total + |ev.packet.data|, next, r.log + [Wrote(ev.packet.data), AckSent(ev.packet.seqNum, next)])
    else r
  }

  function Receiving(r: Receiver, events: seq<Event>, fileSize: int): (Receiver, Status)
    decreases |events|
  {
    if r.total >= fileSize then (r, Complete)
    else if events == [] then (r, Starved)
    else if events[0].Broken? then (r, Aborted)
    else Receiving(OnEvent(r, events[0]), events[1..], fileSize)
  }

  /** What the log's writes have put into the file. */
  function Written(log: seq<Effect>): seq<byte> {
    if log == [] then []
    else Written(log[..|log| - 1]) + if log[|log| - 1].Wrote? then log[|log| - 1].data else []
  }

  /** The receive loop on its own variables. */
  method ReceiveFile(events: seq<Event>, fileSize: int64) returns (file: seq<byte>, log: seq<Effect>, status: Status)
    ensures var (r, st) := Receiving(Receiver(0, 0, []), events, fileSize);
      log == r.log && status == st && file == Written(log)
  {
    var totalBytes: int, expectedSeq: uint32, i := 0, 0, 0;
    file, log := [], [];
    while totalBytes < fileSize
      invariant 0 <= i <= |events|
      invariant Receiving(Receiver(totalBytes, expectedSeq, log), events[i..], fileSize)
             == Receiving(Receiver(0, 0, []), events, fileSize)
      invariant file == Written(log)
      decreases |events| - i
    {
      if i == |events| {
        return file, log, Starved;
      }
      var ev := events[i];
      i := i + 1;
      assert events[i - 1..][1..] == events[i..];
      match ev {
        case TimedOut =>
        case Broken =>
          return file, log, Aborted;
        case Datagram(packet) =>
          if packet.kind == DATA && packet.seqNum == expectedSeq {
            file := file + packet.data;
            totalBytes := totalBytes + |packet.data|;
            expectedSeq := (expectedSeq + 1) % TWO_32;
            WrittenPair(log, packet.data, packet.seqNum, expectedSeq);
            log := log + [Wrote(packet.data), AckSent(packet.seqNum, expectedSeq)];
          }
      }
    }
    status := Complete;
  }

  lemma WrittenSnoc(log: seq<Effect>, e: Effect)
    ensures Written(log + [e]) == Written(log) + if e.Wrote? then e.data else []
  {
    assert (log + [e])[..|log|] == log;
  }

  lemma WrittenPair(log: seq<Effect>, data: Chunk, s: uint32, a: uint32)
    ensures Written(log + [Wrote(data), AckSent(s, a)]) == Written(log) + data
  {
    WrittenSnoc(log, Wrote(data));
    WrittenSnoc(log + [Wrote(data)], AckSent(s, a));
    assert log + [Wrote(data), AckSent(s, a)] == log + [Wrote(data)] + [AckSent(s, a)];
  }

  // ---------- in-order delivery ----------

  /** The DATA packets that arrive are first transmissions of these chunks: lost, repeated and reordered at
      will, and mixed with packets of other types. */
  predicate FromSender(events: seq<Event>, chunks: seq<Chunk>) {
    forall i :: 0 <= i < |events| && events[i].Datagram? && events[i].packet.kind == DATA ==>
      events[i].packet.seqNum < |chunks| && events[i].packet.data == chunks[events[i].packet.seqNum]
  }

  predicate Transferable(chunks: seq<Chunk>) {
    |chunks| < TWO_32 && forall i :: 0 <= i < |chunks| ==> chunks[i] != []
  }

  /** Every acknowledgement follows the writes it stands for: AckNum k comes after chunks 0..k-1, for packet k-1. */
  predicate AcksFollowWrites(log: seq<Effect>, chunks: seq<Chunk>) {
    forall t :: 0 <= t < |log| && log[t].AckSent? ==>
      var k := log[t].ackNum;
      1 <= k <= |chunks| && log[t].seqNum == k - 1 && Written(log[..t]) == Flatten(chunks[..k])
  }

  /** The acknowledgements of the log, in the order sent. */
  function Acks(log: seq<Effect>): seq<Effect> {
    if log == [] then []
    else Acks(log[..|log| - 1]) + if log[|log| - 1].AckSent? then [log[|log| - 1]] else []
  }

  /** For packets 0..e-1, each once and in order, the number behind it. */
  function OneAckEach(e: uint32): (acks: seq<Effect>)
    ensures |acks| == e && forall i: uint32 :: i < e ==> acks[i] == AckSent(i, i + 1)
  {
    if e == 0 then [] else OneAckEach(e - 1) + [AckSent(e - 1, e)]
  }

  lemma AcksSnoc(log: seq<Effect>, e: Effect)
    ensures Acks(log + [e]) == Acks(log) + if e.AckSent? then [e] else []
  {
    assert (log + [e])[..|log|] == log;
  }

  /** `e` chunks are in the file, in order, and acknowledged once each. */
  predicate InOrder(r: Receiver, e: nat, chunks: seq<Chunk>) {
    && e <= |chunks| && e < TWO_32
    && r.expected == e
    && Written(r.log) == Flatten(chunks[..e])
    && r.total == |Written(r.log)|
    && AcksFollowWrites(r.log, chunks)
    && Acks(r.log) == OneAckEach(e)
  }

  lemma ExpectedChunkArrives(r: Receiver, e: nat, ev: Event, chunks: seq<Chunk>)
    requires InOrder(r, e, chunks) && Transferable(chunks) && FromSender([ev], chunks)
    requires ev.Datagram? && ev.packet.kind == DATA && ev.packet.seqNum == e
    ensures InOrder(OnEvent(r, ev), e + 1, chunks)
    ensures OnEvent(r, ev).log == r.log + [Wrote(chunks[e]), AckSent(e, e + 1)]
  {
    assert [ev][0] == ev;
    var w, a := Wrote(ev.packet.data), AckSent(ev.packet.seqNum, e + 1);
    var r' := OnEvent(r, ev);
    assert r'.log == r.log + [w] + [a];
    WrittenSnoc(r.log, w);
    WrittenSnoc(r.log + [w], a);
    AcksSnoc(r.log, w);
    AcksSnoc(r.log + [w], a);
    assert chunks[..e + 1][..e] == chunks[..e];
    forall t | 0 <= t < |r'.log| && r'.log[t].AckSent?
      ensures var k := r'.log[t].ackNum;
        1 <= k <= |chunks| && r'.log[t].seqNum == k - 1 && Written(r'.log[..t]) == Flatten(chunks[..k])
    {
      if t < |r.log| {
        assert r'.log[..t] == r.log[..t];
      } else {
        assert r'.log[..t] == r.log + [w];
      }
    }
  }

  /** The chunk numbers of the DATA packets that arrive before the first error. */
  function Arrivals(events: seq<Event>): seq<nat> {
    if events == [] || events[0].Broken? then []
    else (if events[0].Datagram? && events[0].packet.kind == DATA then [events[0].packet.seqNum] else [])
         + Arrivals(events[1..])
  }

  /** How far in-order acceptance gets through `arrivals`, starting at `e`. */
  function Accepted(arrivals: seq<nat>, e: nat): nat {
    if arrivals == [] then e else Accepted(arrivals[1..], if arrivals[0] == e then e + 1 else e)
  }

  lemma {:induction false} NothingBeyond(arrivals: seq<nat>, e: nat)
    requires forall i :: 0 <= i < |arrivals| ==> arrivals[i] < e
    ensures Accepted(arrivals, e) == e
  {
    if arrivals != [] {
      NothingBeyond(arrivals[1..], e);
    }
  }

  lemma {:induction false} ArrivalsBound(events: seq<Event>, chunks: seq<Chunk>)
    requires FromSender(events, chunks)
    ensures forall i :: 0 <= i < |Arrivals(events)| ==> Arrivals(events)[i] < |chunks|
  {
    if events != [] && !events[0].Broken? {
      ArrivalsBound(events[1..], chunks);
    }
  }

  lemma {:induction false} ReceivingInOrder(r: Receiver, e: nat, events: seq<Event>, chunks: seq<Chunk>)
    requires Transferable(chunks) && FromSender(events, chunks) && InOrder(r, e, chunks)
    ensures var (r', st) := Receiving(r, events, |Flatten(chunks)|);
      var e' := Accepted(Arrivals(events), e);
      InOrder(r', e', chunks) && (st.Complete? <==> e' == |chunks|)
    decreases |events|
  {
    hide Flatten, Written, AcksFollowWrites, Acks, OneAckEach;
    FlattenPrefix(chunks, e);
    if e == |chunks| {
      ArrivalsBound(events, chunks);
      NothingBeyond(Arrivals(events), e);
    } else if events != [] && !events[0].Broken? {
      var ev := events[0];
      assert FromSender([ev], chunks);
      if ev.Datagram? && ev.packet.kind == DATA {
        var rest := Arrivals(events[1..]);
        assert Arrivals(events) == [ev.packet.seqNum] + rest;
        assert Arrivals(events)[1..] == rest;
        if ev.packet.seqNum == e {
          ExpectedChunkArrives(r, e, ev, chunks);
          ReceivingInOrder(OnEvent(r, ev), e + 1, events[1..], chunks);
        } else {
          ReceivingInOrder(r, e, events[1..], chunks);
        }
      } else {
        assert Arrivals(events) == [] + Arrivals(events[1..]) == Arrivals(events[1..]);
        ReceivingInOrder(r, e, events[1..], chunks);
      }
    }
  }

  /** Main result on safety: whatever is lost, repeated or reordered, the file always holds chunks 0..e-1 (a
      prefix of what was sent), each of them has been acknowledged exactly once, in order and after its writes, and
      on completion it is the file. */
  lemma InOrderDelivery(events: seq<Event>, chunks: seq<Chunk>)
    requires Transferable(chunks) && FromSender(events, chunks)
    ensures var (r, st) := Receiving(Receiver(0, 0, []), events, |Flatten(chunks)|);
      var e := Accepted(Arrivals(events), 0);
      && e <= |chunks| && r.expected == e
      && Written(r.log) == Flatten(chunks[..e]) <= Flatten(chunks)
      && AcksFollowWrites(r.log, chunks)
      && Acks(r.log) == OneAckEach(e)
      && (st.Complete? <==> Written(r.log) == Flatten(chunks))
  {
    assert InOrder(Receiver(0, 0, []), 0, chunks);
    ReceivingInOrder(Receiver(0, 0, []), 0, events, chunks);
    FlattenPrefix(chunks, Accepted(Arrivals(events), 0));
  }

  // ---------- when the transfer completes ----------

  /** Positions that pick chunks e, e+1, ..., e+|f|-1 out of `arrivals` in that order. */
  predicate Picks(f: seq<nat>, arrivals: seq<nat>, e: nat) {
    && (forall j :: 0 <= j < |f| ==> f[j] < |arrivals| && arrivals[f[j]] == e + j)
    && (forall j, k :: 0 <= j < k < |f| ==> f[j] < f[k])
  }

  /** Taking greedily what is expected gets as far as any selection could. */
  lemma {:induction false} GreedyIsBest(f: seq<nat>, arrivals: seq<nat>, e: nat)
    requires Picks(f, arrivals, e)
    ensures Accepted(arrivals, e) >= e + |f|
    decreases |arrivals|
  {
    if f == [] {
      AcceptedGrows(arrivals, e);
    } else {
      assert f[0] < |arrivals|;
      var rest := arrivals[1..];
      if f[0] == 0 {
        var g := seq(|f| - 1, j requires 0 <= j < |f| - 1 => f[j + 1] - 1);
        forall j | 0 <= j < |g| ensures g[j] < |rest| && rest[g[j]] == e + 1 + j {
          assert arrivals[f[j + 1]] == e + (j + 1);
        }
        GreedyIsBest(g, rest, e + 1);
      } else {
        var g := seq(|f|, j requires 0 <= j < |f| => if f[j] > 0 then f[j] - 1 else 0);
        assert forall j :: 0 <= j < |f| ==> f[j] > 0;
        forall j | 0 <= j < |g| ensures g[j] < |rest| && rest[g[j]] == e + j {
          assert arrivals[f[j]] == e + j;
        }
        if arrivals[0] == e {
          var h := g[1..];
          forall j | 0 <= j < |h| ensures h[j] < |rest| && rest[h[j]] == e + 1 + j {
            assert rest[g[j + 1]] == e + (j + 1);
          }
          GreedyIsBest(h, rest, e + 1);
        } else {
          GreedyIsBest(g, rest, e);
        }
      }
    }
  }

  lemma {:induction false} AcceptedGrows(arrivals: seq<nat>, e: nat)
    ensures Accepted(arrivals, e) >= e
  {
    if arrivals != [] {
      AcceptedGrows(arrivals[1..], if arrivals[0] == e then e + 1 else e);
    }
  }

  lemma {:induction false} GreedyPicks(arrivals: seq<nat>, e: nat) returns (f: seq<nat>)
    ensures Picks(f, arrivals, e) && |f| + e == Accepted(arrivals, e)
  {
    f := [];
    if arrivals != [] {
      var rest := arrivals[1..];
      var e' := if arrivals[0] == e then e + 1 else e;
      var g := GreedyPicks(rest, e');
      var shifted := seq(|g|, j requires 0 <= j < |g| => g[j] + 1);
      f := if arrivals[0] == e then [0] + shifted else shifted;
      forall j | 0 <= j < |f| ensures f[j] < |arrivals| && arrivals[f[j]] == e + j {
        if arrivals[0] == e {
          if j > 0 {
            assert rest[g[j - 1]] == e' + (j - 1);
          }
        } else {
          assert rest[g[j]] == e' + j;
        }
      }
    }
  }

  /** Main result on completion: the transfer completes if and only if the DATA packets that arrive before any
      error contain chunks 0, 1, 2, ... in that order as a subsequence. */
  lemma CompletionExact(events: seq<Event>, chunks: seq<Chunk>)
    requires Transferable(chunks) && FromSender(events, chunks)
    ensures Receiving(Receiver(0, 0, []), events, |Flatten(chunks)|).1.Complete?
       <==> exists f :: |f| == |chunks| && Picks(f, Arrivals(events), 0)
  {
    var arrivals := Arrivals(events);
    assert InOrder(Receiver(0, 0, []), 0, chunks);
    ReceivingInOrder(Receiver(0, 0, []), 0, events, chunks);
    var f := GreedyPicks(arrivals, 0);
    forall g | |g| == |chunks| && Picks(g, arrivals, 0) ensures Accepted(arrivals, 0) >= |chunks| {
      GreedyIsBest(g, arrivals, 0);
    }
  }

  /** A transfer that does not complete was aborted by the first error that is no timeout, or else is still waiting. */
  lemma {:induction false} StatusExact(r: Receiver, events: seq<Event>, fileSize: int)
    ensures var st := Receiving(r, events, fileSize).1;
      !st.Complete? ==> (st.Aborted? <==> Broken in events) && (st.Starved? <==> Broken !in events)
    decreases |events|
  {
    if r.total < fileSize && events != [] {
      assert events == [events[0]] + events[1..];
      if !events[0].Broken? {
        StatusExact(OnEvent(r, events[0]), events[1..], fileSize);
      }
    }
  }

  // ---------- the sender ----------

  function DataPacket(k: nat, data: Chunk, now: int64): PacketRecord {
    PacketRecord(DATA, Plus32(0, k), 0, data, 0, 0, 0, now)
  }

  /** How many more packets the window takes. */
  function Room(w: Window<Packet>): nat {
    if InFlight(w) < w.size then w.size - InFlight(w) else 0
  }

  lemma RoomAfterAdd(w: Window<Packet>, s: uint32, p: Packet)
    requires CanSend(w)
    ensures Room(Add(w, s, p)) == Room(w) - 1
  {
    MinusOfNext(w.next, w.base);
  }

  /** One turn of the send loop: the packet as serialized, and whether the window took it. */
  method SendBlock(mgr: UDPConnectionManager, addr: string, seqNum: uint32, data: Chunk, now: int64)
      returns (record: PacketRecord, accepted: bool)
    requires mgr.Valid()
    modifies mgr`clients, mgr.Own(addr)
    ensures mgr.Valid() && fresh(mgr.Own(addr) - old(mgr.Own(addr)))
    ensures record == PacketRecord(DATA, seqNum, 0, data, 0, 0, 0, now)
    ensures var left := Room(old(mgr.WindowOf(addr)));
      (accepted <==> left > 0) && (accepted ==> Room(mgr.WindowOf(addr)) == left - 1)
  {
    ghost var before := mgr.Contents();
    ghost var w := mgr.WindowOf(addr);
    assert w == Touched(before, addr, now, mgr.windowSize).window;
    var packet := new Packet(PacketRecord(DATA, seqNum, 0, data, 0, 0, 0, now));
    record := packet.Record();
    accepted := mgr.SendReliablePacket(packet, addr, now);
    if accepted {
      RoomAfterAdd(w, seqNum, packet);
      assert mgr.Contents()[addr].window == Add(w, seqNum, packet);
    }
  }

  /** What one turn of the send loop meets: a block to send at some time, whose datagram the socket takes or not,
      or an error from `file.Read`. */
  datatype Turn =
    | Block(data: Chunk, now: int64, taken: bool)
    | Unreadable

  datatype Outcome =
    | AllSent
    | WindowFull
    | ReadFailed
    | SocketFailed
    | Crashed  // `testBufferSizes` divides by a tenth of the file size

  /** How many turns pass before a read or socket error. */
  function Smooth(turns: seq<Turn>): (n: nat)
    ensures n <= |turns|
    ensures forall i :: 0 <= i < n ==> turns[i].Block? && turns[i].taken
    ensures n < |turns| ==> turns[n].Unreadable? || !turns[n].taken
  {
    if turns == [] || turns[0].Unreadable? || !turns[0].taken then 0 else 1 + Smooth(turns[1..])
  }

  function Least(a: nat, b: nat): nat { if a <= b then a else b }

  predicate Goes(t: Turn) { t.Block? && t.taken }

  /** Why the loop has stopped after `n` datagrams. */
  predicate Stopped(turns: seq<Turn>, n: nat, room: nat, tiny: bool, outcome: Outcome) {
    && n <= |turns| && n <= room && (tiny ==> n <= 1)
    && (forall i :: 0 <= i < n ==> Goes(turns[i]))
    && match outcome
       case Crashed => tiny && n > 0
       case AllSent => !(tiny && n > 0) && n == |turns|
       case ReadFailed => !(tiny && n > 0) && n < |turns| && turns[n].Unreadable?
       case WindowFull => !(tiny && n > 0) && n == room && n < |turns| && turns[n].Block?
       case SocketFailed => !(tiny && n > 0) && n < room && n < |turns| && turns[n].Block? && !turns[n].taken
  }

  lemma StoppedExact(turns: seq<Turn>, n: nat, room: nat, tiny: bool, outcome: Outcome)
    requires Stopped(turns, n, room, tiny, outcome)
    ensures n == Least(Smooth(turns), if tiny then Least(room, 1) else room)
    ensures outcome == AllSent <==>
              (forall i :: 0 <= i < |turns| ==> Goes(turns[i])) && |turns| <= room && !(tiny && turns != [])
    ensures outcome == AllSent ==> n == |turns|
    ensures outcome == Crashed <==> tiny && n > 0
    ensures outcome == ReadFailed <==> !(tiny && n > 0) && n < |turns| && turns[n].Unreadable?
    ensures outcome == WindowFull <==> !(tiny && n > 0) && n == room < |turns| && turns[n].Block?
    ensures outcome == SocketFailed <==>
              !(tiny && n > 0) && n < room && n < |turns| && turns[n].Block? && !turns[n].taken
  {
    hide Smooth;
  }

  /** The send loop: packets numbered from 0 go out, as they are at that moment, until a read fails, the window
      refuses one or the socket does; nothing acknowledges meanwhile.  A file of fewer than ten bytes ends it after
      the first. */
  method SendFile(mgr: UDPConnectionManager, addr: string, turns: seq<Turn>, fileSize: int64)
      returns (sent: seq<PacketRecord>, outcome: Outcome)
    requires mgr.Valid()
    modifies mgr`clients, mgr.Own(addr)
    ensures mgr.Valid()
    ensures var room, tiny, n := Room(old(mgr.WindowOf(addr))), -10 < fileSize < 10, |sent|;
      && n == Least(Smooth(turns), if tiny then Least(room, 1) else room)
      && (outcome == AllSent <==>
            (forall i :: 0 <= i < |turns| ==> Goes(turns[i])) && |turns| <= room && !(tiny && turns != []))
      && (outcome == AllSent ==> n == |turns|)
      && (outcome == Crashed <==> tiny && n > 0)
      && (outcome == ReadFailed <==> !(tiny && n > 0) && n < |turns| && turns[n].Unreadable?)
      && (outcome == WindowFull <==> !(tiny && n > 0) && n == room < |turns| && turns[n].Block?)
      && (outcome == SocketFailed <==>
            !(tiny && n > 0) && n < room && n < |turns| && turns[n].Block? && !turns[n].taken)
    ensures forall k :: 0 <= k < |sent| ==> Goes(turns[k]) && sent[k] == DataPacket(k, turns[k].data, turns[k].now)
  {
    hide Room, Smooth, Stopped;
    ghost var room := Room(mgr.WindowOf(addr));
    sent, outcome := SendLoop(mgr, addr, turns, fileSize);
    StoppedExact(turns, |sent|, room, -10 < fileSize < 10, outcome);
  }

  lemma Numbered(r: PacketRecord, k: nat, data: Chunk, now: int64)
    requires r == PacketRecord(DATA, Plus32(0, k), 0, data, 0, 0, 0, now)
    ensures r == DataPacket(k, data, now)
  {
  }

  method SendLoop(mgr: UDPConnectionManager, addr: string, turns: seq<Turn>, fileSize: int64)
      returns (sent: seq<PacketRecord>, outcome: Outcome)
    requires mgr.Valid()
    modifies mgr`clients, mgr.Own(addr)
    ensures mgr.Valid()
    ensures Stopped(turns, |sent|, Room(old(mgr.WindowOf(addr))), -10 < fileSize < 10, outcome)
    ensures forall k :: 0 <= k < |sent| ==> Goes(turns[k]) && sent[k] == DataPacket(k, turns[k].data, turns[k].now)
  {
    hide Room, DataPacket, UDPConnectionManager.Valid, UDPConnectionManager.WindowOf;
    sent := [];
    var seqNum: uint32 := 0;
    ghost var room := Room(mgr.WindowOf(addr));
    for k := 0 to |turns|
      invariant mgr.Valid() && fresh(mgr.Own(addr) - old(mgr.Own(addr)))
      invariant |sent| == k && seqNum == Plus32(0, k)
      invariant forall i :: 0 <= i < k ==> Goes(turns[i]) && sent[i] == DataPacket(i, turns[i].data, turns[i].now)
      invariant Room(mgr.WindowOf(addr)) + k == room
      invariant k > 0 ==> !(-10 < fileSize < 10)
    {
      if turns[k].Unreadable? {
        return sent, ReadFailed;
      }
      var record, accepted := SendBlock(mgr, addr, seqNum, turns[k].data, turns[k].now);
      if !accepted {
        return sent, WindowFull;
      }
      if !turns[k].taken {
        return sent, SocketFailed;
      }
      Numbered(record, k, turns[k].data, turns[k].now);
      sent := sent + [record];
      PlusPlus(0, k, 1);
      seqNum := (seqNum + 1) % TWO_32;
      if -10 < fileSize < 10 {
        return sent, Crashed;
      }
    }
    outcome := AllSent;
  }

  /** A session not used before has room for `windowSize` blocks: a longer file never goes out whole. */
  lemma FreshSessionRoom(size: uint16, now: int)
    ensures Room(FreshSession(now, size).window) == size
  {
  }

  // ---------- sender to receiver through the datagram format ----------

  /** A block a datagram can carry. */
  predicate Carriable(block: Chunk) {
    0 < |block| <= MAX_PAYLOAD
  }

  /** One that the format never alters. */
  predicate Robust(block: Chunk) {
    Carriable(block) && !(|block| % 256 == 255 && block[0] == 255)
  }

  /** What becomes of a block's datagram: intact if its checksum equals the bytes it overwrites, accepted but
      shortened in the other slot case, refused otherwise. */
  lemma BlockFate(k: nat, block: Chunk, now: int64, spare: seq<byte>)
    requires k < TWO_32 && Carriable(block)
    ensures var p := DataPacket(k, block, now);
      && (Decode(Encode(p), spare).Ok? <==> SlotsCoincide(p) || SlotsVanish(p))
      && (SlotsVanish(p) ==> !SlotsCoincide(p) && !Robust(block))
      && (Decode(Encode(p), spare).Ok? ==>
            var q := Decode(Encode(p), spare).value;
            && q.kind == DATA && q.seqNum == k
            && (SlotsCoincide(p) ==> q.data == block)
            && (SlotsVanish(p) ==> |q.data| < |block|))
  {
    hide Decode, Encode, Raw;
    var p := DataPacket(k, block, now);
    AcceptanceExact(p, spare);
    RoundTripExact(p, spare);
    if Decode(Encode(p), spare).Ok? {
      DecodedFields(p, spare);
    }
  }

  /** The format never alters a block, whatever its number and time, if and only if it is robust. */
  lemma BlockIntact(block: Chunk, spare: seq<byte>)
    requires Carriable(block)
    ensures (forall k: uint32, now: int64 :: Decode(Encode(DataPacket(k, block, now)), spare).Ok? ==>
               Decode(Encode(DataPacket(k, block, now)), spare).value.data == block)
       <==> Robust(block)
  {
    hide Decode, Encode, Raw;
    if Robust(block) {
      forall k: uint32, now: int64 | Decode(Encode(DataPacket(k, block, now)), spare).Ok?
        ensures Decode(Encode(DataPacket(k, block, now)), spare).value.data == block
      {
        BlockFate(k, block, now, spare);
      }
    } else {
      var k := SomeNumberAlters(DATA, block);
      assert DataPacket(k, block, 0) == Plain(DATA, k, block);
      BlockFate(k, block, 0, spare);
    }
  }

  /** For every robust block there is a number and a time at which the receiver accepts it. */
  lemma BlockAcceptable(block: Chunk) returns (k: uint32)
    requires Robust(block)
    ensures SlotsCoincide(DataPacket(k, block, 0))
  {
    hide Decode, Encode, Raw;
    k := SomeNumberRoundTrips(DATA, block, []);
    assert DataPacket(k, block, 0) == Plain(DATA, k, block);
    RoundTripExact(DataPacket(k, block, 0), []);
  }

  /** What reaches the receiver's socket: copies of the sender's datagrams, other datagrams, and failures to read. */
  datatype Delivery =
    | Copy(k: nat, now: int64, spare: seq<byte>)
    | Foreign(bytes: seq<byte>, spare: seq<byte>)
    | ReadTimeout
    | ReadFailure

  /** `ReceivePacket`: every error comes back wrapped, a timeout too, so that the loop takes none for a timeout. */
  function ReceivePacket(d: Delivery, chunks: seq<Chunk>): Event
    requires d.Copy? ==> d.k < |chunks|
  {
    match d
    case Copy(k, now, spare) => Decoded(Encode(DataPacket(k, chunks[k], now)), spare)
    case Foreign(bytes, spare) => Decoded(bytes, spare)
    case _ => Broken
  }

  function Decoded(bytes: seq<byte>, spare: seq<byte>): Event {
    match Decode(bytes, spare)
    case Ok(packet) => Datagram(packet)
    case Err(_) => Broken
  }

  /** Copies are of this file's datagrams, and no other datagram is a DATA packet. */
  predicate FromFile(ds: seq<Delivery>, chunks: seq<Chunk>) {
    forall i :: 0 <= i < |ds| ==>
      && (ds[i].Copy? ==> ds[i].k < |chunks|)
      && (ds[i].Foreign? ==>
            var e := Decoded(ds[i].bytes, ds[i].spare); e.Datagram? ==> e.packet.kind != DATA)
  }

  function Events(ds: seq<Delivery>, chunks: seq<Chunk>): seq<Event>
    requires FromFile(ds, chunks)
  {
    seq(|ds|, i requires 0 <= i < |ds| => ReceivePacket(ds[i], chunks))
  }

  predicate Intact(d: Delivery, chunks: seq<Chunk>)
    requires d.Copy? ==> d.k < |chunks|
  {
    d.Copy? && SlotsCoincide(DataPacket(d.k, chunks[d.k], d.now))
  }

  predicate Altered(d: Delivery, chunks: seq<Chunk>)
    requires d.Copy? ==> d.k < |chunks|
  {
    d.Copy? && SlotsVanish(DataPacket(d.k, chunks[d.k], d.now))
  }

  /** The deliveries that end the transfer: failed reads, and datagrams the format refuses. */
  predicate Fatal(d: Delivery, chunks: seq<Chunk>)
    requires d.Copy? ==> d.k < |chunks|
  {
    match d
    case Copy(_, _, _) => !Intact(d, chunks) && !Altered(d, chunks)
    case Foreign(bytes, spare) => Decode(bytes, spare).Err?
    case _ => true
  }

  predicate Sendable(chunks: seq<Chunk>) {
    |chunks| < TWO_32 && forall i :: 0 <= i < |chunks| ==> Carriable(chunks[i])
  }

  /** What the loop sees of a delivery. */
  lemma OneDelivery(d: Delivery, chunks: seq<Chunk>)
    requires Sendable(chunks) && FromFile([d], chunks)
    ensures [d][0] == d
    ensures var e := ReceivePacket(d, chunks);
      && (e.Broken? <==> Fatal(d, chunks)) && !e.TimedOut?
      && (e.Datagram? ==> (e.packet.kind == DATA <==> d.Copy?))
      && (e.Datagram? && d.Copy? ==> e.packet.seqNum == d.k)
      && (e.Datagram? && Intact(d, chunks) ==> e.packet.data == chunks[d.k])
      && (e.Datagram? && Altered(d, chunks) ==> |e.packet.data| < |chunks[d.k]|)
    ensures !(Intact(d, chunks) && Altered(d, chunks))
  {
    hide Decode, Encode, SlotsCoincide, SlotsVanish;
    assert [d][0] == d;
    if d.Copy? {
      BlockFate(d.k, chunks[d.k], d.now, d.spare);
    }
  }

  /** How many chunks are taken in before a fatal delivery, or an altered copy taken in, ends all hope. */
  function Progress(ds: seq<Delivery>, chunks: seq<Chunk>, e: nat): nat
    requires FromFile(ds, chunks)
    decreases |ds|
  {
    if ds == [] || Fatal(ds[0], chunks) then e
    else if ds[0].Copy? && ds[0].k == e then
      if Intact(ds[0], chunks) then Progress(ds[1..], chunks, e + 1) else e
    else Progress(ds[1..], chunks, e)
  }

  lemma EventsStep(ds: seq<Delivery>, chunks: seq<Chunk>)
    requires ds != [] && FromFile(ds, chunks)
    ensures FromFile([ds[0]], chunks) && FromFile(ds[1..], chunks)
    ensures Events(ds, chunks)[0] == ReceivePacket(ds[0], chunks) && Events(ds, chunks)[1..] == Events(ds[1..], chunks)
  {
  }

  lemma TakenIn(r: Receiver, e: nat, ev: Event)
    requires ev.Datagram? && ev.packet.kind == DATA && ev.packet.seqNum == r.expected == e && e + 1 < TWO_32
    ensures OnEvent(r, ev).total == r.total + |ev.packet.data| && OnEvent(r, ev).expected == e + 1
  {
  }

  lemma Ignored(r: Receiver, ev: Event)
    requires !(ev.Datagram? && ev.packet.kind == DATA && ev.packet.seqNum == r.expected)
    ensures OnEvent(r, ev) == r
  {
  }

  lemma FlattenNext(chunks: seq<Chunk>, e: nat)
    requires e < |chunks|
    ensures |Flatten(chunks[..e + 1])| == |Flatten(chunks[..e])| + |chunks[e]|
  {
    assert chunks[..e + 1][..e] == chunks[..e];
  }

  /** Once an altered block is in the file, its bytes never add up again. */
  lemma {:induction false} NeverAgain(r: Receiver, e: nat, ds: seq<Delivery>, chunks: seq<Chunk>)
    requires Sendable(chunks) && FromFile(ds, chunks) && e <= |chunks|
    requires r.expected == e && r.total < |Flatten(chunks[..e])|
    ensures !Receiving(r, Events(ds, chunks), |Flatten(chunks)|).1.Complete?
    decreases |ds|
  {
    hide ReceivePacket, Intact, Altered, Flatten, OnEvent;
    FlattenPrefix(chunks, e);
    if ds != [] {
      EventsStep(ds, chunks);
      OneDelivery(ds[0], chunks);
      var ev := Events(ds, chunks)[0];
      if ev.Datagram? {
        if ev.packet.kind == DATA && ev.packet.seqNum == e {
          TakenIn(r, e, ev);
          FlattenNext(chunks, e);
          NeverAgain(OnEvent(r, ev), e + 1, ds[1..], chunks);
        } else {
          Ignored(r, ev);
          NeverAgain(r, e, ds[1..], chunks);
        }
      }
    }
  }

  lemma {:induction false} NoneBeyond(ds: seq<Delivery>, chunks: seq<Chunk>)
    requires FromFile(ds, chunks)
    ensures Progress(ds, chunks, |chunks|) == |chunks|
    decreases |ds|
  {
    if ds != [] {
      NoneBeyond(ds[1..], chunks);
    }
  }

  /** From a file of `e` intact chunks on. */
  lemma {:induction false} Proceeds(r: Receiver, e: nat, ds: seq<Delivery>, chunks: seq<Chunk>)
    requires Sendable(chunks) && FromFile(ds, chunks) && InOrder(r, e, chunks)
    ensures var (r', st) := Receiving(r, Events(ds, chunks), |Flatten(chunks)|);
      && (st.Complete? <==> Progress(ds, chunks, e) == |chunks|)
      && (st.Complete? ==> Written(r'.log) == Flatten(chunks))
    decreases |ds|
  {
    hide ReceivePacket, Intact, Altered, Flatten, Written, AcksFollowWrites, Acks, OnEvent;
    FlattenPrefix(chunks, e);
    if e == |chunks| {
      assert chunks[..e] == chunks;
      NoneBeyond(ds, chunks);
    } else if ds != [] {
      EventsStep(ds, chunks);
      OneDelivery(ds[0], chunks);
      var ev := Events(ds, chunks)[0];
      if ev.Datagram? {
        if ds[0].Copy? && ds[0].k == e {
          if Intact(ds[0], chunks) {
            ExpectedChunkArrives(r, e, ev, chunks);
            Proceeds(OnEvent(r, ev), e + 1, ds[1..], chunks);
          } else {
            TakenIn(r, e, ev);
            FlattenNext(chunks, e);
            NeverAgain(OnEvent(r, ev), e + 1, ds[1..], chunks);
          }
        } else {
          Ignored(r, ev);
          Proceeds(r, e, ds[1..], chunks);
        }
      }
    }
  }

  /** Main result end to end, for every file of blocks that datagrams can carry and every delivery: the transfer
      completes if and only if every chunk is taken in intact before a datagram the format refuses, a failed read
      or an altered copy taken in; and a file reported complete is the file that was sent. */
  lemma EndToEnd(ds: seq<Delivery>, chunks: seq<Chunk>)
    requires Sendable(chunks) && FromFile(ds, chunks)
    ensures var (r, st) := Receiving(Receiver(0, 0, []), Events(ds, chunks), |Flatten(chunks)|);
      && (st.Complete? <==> Progress(ds, chunks, 0) == |chunks|)
      && (st.Complete? ==> Written(r.log) == Flatten(chunks))
  {
    assert InOrder(Receiver(0, 0, []), 0, chunks);
    Proceeds(Receiver(0, 0, []), 0, ds, chunks);
  }

  // ---------- deliveries without altered copies ----------

  /** The chunk numbers delivered before the first fatal delivery. */
  function Delivered(ds: seq<Delivery>, chunks: seq<Chunk>): seq<nat>
    requires FromFile(ds, chunks)
  {
    if ds == [] || Fatal(ds[0], chunks) then []
    else (if ds[0].Copy? then [ds[0].k] else []) + Delivered(ds[1..], chunks)
  }

  predicate Unaltered(ds: seq<Delivery>, chunks: seq<Chunk>)
    requires FromFile(ds, chunks)
  {
    forall i :: 0 <= i < |ds| ==> !Altered(ds[i], chunks)
  }

  lemma {:induction false} ArrivalsDelivered(ds: seq<Delivery>, chunks: seq<Chunk>)
    requires Sendable(chunks) && FromFile(ds, chunks)
    ensures Arrivals(Events(ds, chunks)) == Delivered(ds, chunks)
  {
    hide ReceivePacket, Fatal, Altered, Intact;
    if ds != [] {
      EventsStep(ds, chunks);
      OneDelivery(ds[0], chunks);
      ArrivalsDelivered(ds[1..], chunks);
    }
  }

  lemma EventsFromSender(ds: seq<Delivery>, chunks: seq<Chunk>)
    requires Sendable(chunks) && FromFile(ds, chunks) && Unaltered(ds, chunks)
    ensures FromSender(Events(ds, chunks), chunks)
  {
    hide ReceivePacket, Altered, Intact;
    forall i | 0 <= i < |ds| && Events(ds, chunks)[i].Datagram? && Events(ds, chunks)[i].packet.kind == DATA
      ensures var p := Events(ds, chunks)[i].packet; p.seqNum < |chunks| && p.data == chunks[p.seqNum]
    {
      assert FromFile([ds[i]], chunks);
      OneDelivery(ds[i], chunks);
    }
  }

  /** With no altered copy among the deliveries, robust blocks in particular, the file is a prefix of the sent one
      at all times, and the transfer completes if and only if the datagrams before the first fatal delivery contain
      numbers 0, 1, 2, ... in that order as a subsequence. */
  lemma EndToEndUnaltered(ds: seq<Delivery>, chunks: seq<Chunk>)
    requires Sendable(chunks) && FromFile(ds, chunks) && Unaltered(ds, chunks)
    ensures var (r, st) := Receiving(Receiver(0, 0, []), Events(ds, chunks), |Flatten(chunks)|);
      && Written(r.log) <= Flatten(chunks)
      && (st.Complete? <==> Written(r.log) == Flatten(chunks))
      && (st.Complete? <==> exists f :: |f| == |chunks| && Picks(f, Delivered(ds, chunks), 0))
  {
    hide Receiving, Events, Delivered;
    EventsFromSender(ds, chunks);
    ArrivalsDelivered(ds, chunks);
    InOrderDelivery(Events(ds, chunks), chunks);
    CompletionExact(Events(ds, chunks), chunks);
  }

  lemma RobustUnaltered(ds: seq<Delivery>, chunks: seq<Chunk>)
    requires FromFile(ds, chunks) && forall i :: 0 <= i < |chunks| ==> Robust(chunks[i])
    ensures Unaltered(ds, chunks)
  {
  }

  // ---------- files longer than the window ----------

  lemma {:induction false} ProgressBound(ds: seq<Delivery>, chunks: seq<Chunk>, e: nat, sent: nat)
    requires FromFile(ds, chunks) && e <= sent
    requires forall i :: 0 <= i < |ds| && ds[i].Copy? ==> ds[i].k < sent
    ensures Progress(ds, chunks, e) <= sent
    decreases |ds|
  {
    hide Intact, Altered, Fatal;
    if ds != [] && !Fatal(ds[0], chunks) {
      ProgressBound(ds[1..], chunks, e, sent);
      if e < sent {
        ProgressBound(ds[1..], chunks, e + 1, sent);
      }
    }
  }

  /** A file of more blocks than a fresh session's window never arrives: the sender gives up after `size` blocks,
      and no delivery of those completes the transfer. */
  lemma LongFileNeverArrives(ds: seq<Delivery>, chunks: seq<Chunk>, size: uint16, now: int)
    requires Sendable(chunks) && FromFile(ds, chunks) && |chunks| > size
    requires forall i :: 0 <= i < |ds| && ds[i].Copy? ==> ds[i].k < Room(FreshSession(now, size).window)
    ensures !Receiving(Receiver(0, 0, []), Events(ds, chunks), |Flatten(chunks)|).1.Complete?
  {
    FreshSessionRoom(size, now);
    ProgressBound(ds, chunks, 0, size);
    EndToEnd(ds, chunks);
  }
}
