/** The Lab 3 select multiplexer: interest sets, the client table and file-transfer steps. */
module Multiplexer {
  import opened GoInts
  import opened Basics
  import opened FdSets

  const MIN_CHUNK: int := 512
  const MAX_CHUNK: int := 8192

  // ---------- chunk sizes ----------

  /** The size for a ping in nanoseconds: always in range, and one unit of 1048 bytes for every full 0.1 ms,
      clamped, as long as ten pings fit an int64. */
  predicate Optimal(ping: int64, size: int) {
    && MIN_CHUNK <= size <= MAX_CHUNK
    && (0 <= ping <= MAX_INT64 / 10 ==>
          var full := 1048 * (ping / 100_000);
          && (full <= MIN_CHUNK ==> size == MIN_CHUNK) && (full >= MAX_CHUNK ==> size == MAX_CHUNK)
          && (MIN_CHUNK <= full <= MAX_CHUNK ==> size == full))
    && (-(MAX_INT64 / 10) <= ping < 0 ==> size == MIN_CHUNK)
  }

  /** 1024 * 1024 / 1000 bytes per millisecond of ten times the ping, clamped. */
  method CalculateOptimalChunkSize(ping: int64) returns (size: int)
    ensures Optimal(ping, size)
  {
    if 0 <= ping <= MAX_INT64 / 10 {
      ChunkUnits(ping);
    }
    var targetLatency := WrapInt64(ping * 10);
    size := WrapInt64(TruncDiv(targetLatency, 1_000_000) * 1048);
    if size < MIN_CHUNK {
      size := MIN_CHUNK;
    }
    if size > MAX_CHUNK {
      size := MAX_CHUNK;
    }
  }

  /** Neither the latency nor the product wraps. */
  lemma ChunkUnits(ping: int64)
    requires 0 <= ping <= MAX_INT64 / 10
    ensures WrapInt64(ping * 10) == ping * 10
    ensures TruncDiv(ping * 10, 1_000_000) == ping / 100_000
    ensures WrapInt64(ping / 100_000 * 1048) == 1048 * (ping / 100_000)
  {
  }

  // ---------- file transfers ----------

  datatype TransferState = TransferState(transferred: int64, fileSize: int64, active: bool)

  /** `handleClientWrite`: an active transfer advances by a whole chunk, short last chunk or not. */
  function WriteStep(t: TransferState, chunk: int): TransferState {
    if !t.active then t
    else
      var sent := WrapInt64(t.transferred + chunk);
      TransferState(sent, t.fileSize, sent < t.fileSize)
  }

  function Writes(t: TransferState, chunk: int, n: nat): TransferState {
    if n == 0 then t else WriteStep(Writes(t, chunk, n - 1), chunk)
  }

  /** The rounded-up quotient. */
  function Ceiling(a: nat, b: int): nat
    requires b > 0
  {
    (a + b - 1) / b
  }

  lemma CeilingBounds(a: nat, b: int, c: nat)
    requires b > 0 && c == Ceiling(a, b)
    ensures (c - 1) * b < a <= c * b
  {
    var x := a + b - 1;
    assert x == b * (x / b) + x % b;
    assert (c - 1) * b == c * b - b;
  }

  /** Main result: a transfer of F > 0 bytes is active before ceil(F / chunk) write steps.  If that many chunks
      fit the counter it is inactive from then on, having overshot F by less than a chunk; if they do not, the
      counter wraps at that very step and the transfer goes on from a negative count. */
  lemma {:induction false} TransferSteps(fileSize: int64, chunk: int, n: nat)
    requires MIN_CHUNK <= chunk <= MAX_CHUNK && 0 < fileSize
    ensures var t, c := Writes(TransferState(0, fileSize, true), chunk, n), Ceiling(fileSize, chunk);
      && (n < c ==> t.active && t.transferred == n * chunk)
      && (n >= c && c * chunk <= MAX_INT64 ==>
            !t.active && t.transferred == c * chunk && fileSize <= t.transferred < fileSize + chunk)
      && (n <= c || c * chunk <= MAX_INT64 ==> t.fileSize == fileSize)
      && (n == c && c * chunk > MAX_INT64 ==> t.active && t.transferred < 0)
  {
    var c := Ceiling(fileSize, chunk);
    CeilingBounds(fileSize, chunk, c);
    if n == 0 {
      Positive(c, chunk, fileSize);
    } else {
      TransferSteps(fileSize, chunk, n - 1);
      if n - 1 < c {
        StepWithinCeiling(n, c, chunk, fileSize);
        WrappedOrNot(n * chunk);
      }
    }
  }

  lemma Positive(c: int, b: int, a: int)
    requires b > 0 && 0 < a <= c * b
    ensures c > 0
  {
    if c <= 0 {
      Monotone(b, c, 0);
    }
  }

  lemma WrappedOrNot(x: int)
    requires 0 <= x <= MAX_INT64 + MAX_CHUNK
    ensures x <= MAX_INT64 ==> WrapInt64(x) == x
    ensures x > MAX_INT64 ==> WrapInt64(x) < 0
  {
  }

  /** The n-th multiple of the chunk reaches the file size exactly when n is the ceiling. */
  lemma StepWithinCeiling(n: nat, c: nat, chunk: int, fileSize: int)
    requires 0 < n <= c && chunk > 0 && (c - 1) * chunk < fileSize <= c * chunk
    ensures n * chunk == (n - 1) * chunk + chunk
    ensures n * chunk < fileSize <==> n < c
    ensures n * chunk < fileSize + chunk
  {
    assert n * chunk == (n - 1) * chunk + chunk;
    assert c * chunk == (c - 1) * chunk + chunk;
    if n < c {
      Monotone(chunk, n, c - 1);
    }
  }

  // ---------- interest sets ----------

  datatype Interest = Interest(fd: int, watched: bool, transfers: bool)

  /** The descriptors of clients that are active and have one. */
  function Readers(t: map<string, Interest>): set<int> {
    set id | id in t && t[id].watched :: t[id].fd
  }

  /** Those of them with a file transfer under way. */
  function Writers(t: map<string, Interest>): set<int> {
    set id | id in t && t[id].watched && t[id].transfers :: t[id].fd
  }

  predicate AllAddressable(t: map<string, Interest>) {
    forall id :: id in t && t[id].watched ==> Addressable(t[id].fd)
  }

  lemma OneMore(t: map<string, Interest>, id: string, i: Interest)
    requires id !in t
    ensures Readers(t[id := i]) == Readers(t) + if i.watched then {i.fd} else {}
    ensures Writers(t[id := i]) == Writers(t) + if i.watched && i.transfers then {i.fd} else {}
  {
    var t' := t[id := i];
    forall fd | fd in Readers(t) ensures fd in Readers(t') {
      var k :| k in t && t[k].watched && t[k].fd == fd;
      assert t'[k] == t[k];
    }
    forall fd | fd in Writers(t) ensures fd in Writers(t') {
      var k :| k in t && t[k].watched && t[k].transfers && t[k].fd == fd;
      assert t'[k] == t[k];
    }
    assert t'[id] == i;
  }

  /** `m` is the largest descriptor of `fds`. */
  predicate IsMax(m: int, fds: set<int>) {
    m in fds && forall fd :: fd in fds ==> fd <= m
  }

  lemma MaxOfMore(m: int, fds: set<int>, i: Interest)
    requires IsMax(m, fds)
    ensures IsMax(if i.watched && i.fd > m then i.fd else m, fds + if i.watched then {i.fd} else {})
  {
  }

  lemma SlotsOfMore(fds: set<int>, fd: int)
    ensures Slots(fds + {fd}) == Slots(fds) + {Slot(fd)}
  {
    var more := fds + {fd};
    assert forall g :: g in fds ==> g in more;
    assert fd in more;
  }

  /** The bit sets and the maximum, for the clients in `t`. */
  ghost predicate Prepared(listener: int, t: map<string, Interest>, read: set<int>, write: set<int>, m: int) {
    && read == Slots({listener} + Readers(t))
    && write == Slots(Writers(t))
    && IsMax(m, {listener} + Readers(t))
  }

  lemma PreparedNone(listener: int)
    ensures Prepared(listener, map[], {Slot(listener)}, {}, listener)
  {
    SlotsOfMore({}, listener);
    assert {listener} + Readers(map[]) == {} + {listener};
  }

  lemma PreparedMore(listener: int, t: map<string, Interest>, id: string, i: Interest,
                     read: set<int>, write: set<int>, m: int)
    requires id !in t && Prepared(listener, t, read, write, m)
    ensures Prepared(listener, t[id := i],
                     read + if i.watched then {Slot(i.fd)} else {},
                     write + if i.watched && i.transfers then {Slot(i.fd)} else {},
                     if i.watched && i.fd > m then i.fd else m)
  {
    var watched := {listener} + Readers(t);
    OneMore(t, id, i);
    MaxOfMore(m, watched, i);
    if i.watched {
      SlotsOfMore(watched, i.fd);
      SlotsOfMore(Writers(t), i.fd);
      assert {listener} + Readers(t[id := i]) == watched + {i.fd};
    }
  }

  /** Whoever is watched for writing is watched for reading. */
  lemma WritersAreReaders(t: map<string, Interest>)
    ensures Writers(t) <= Readers(t)
  {
  }

  /** The read bits are the watched descriptors themselves if and only if none of those is negative. */
  lemma ReadBitsExact(listener: int, t: map<string, Interest>, read: set<int>, write: set<int>, m: int)
    requires Prepared(listener, t, read, write, m) && Addressable(listener) && AllAddressable(t)
    ensures read == {listener} + Readers(t)
       <==> listener >= 0 && forall id :: id in t && t[id].watched ==> t[id].fd >= 0
  {
    var watched := {listener} + Readers(t);
    SlotsExact(watched);
    forall id | id in t && t[id].watched ensures t[id].fd in watched {
      assert t[id].fd in Readers(t);
    }
  }

  /** The bits say for every watched client whether that client has a transfer under way, if and only if
      clients that share a slot agree about it. */
  lemma WriteBitsExact(t: map<string, Interest>)
    ensures (forall id :: id in t && t[id].watched ==> (Slot(t[id].fd) in Slots(Writers(t)) <==> t[id].transfers))
       <==> (forall a, b :: a in t && b in t && t[a].watched && t[b].watched && Slot(t[a].fd) == Slot(t[b].fd) ==>
               t[a].transfers == t[b].transfers)
  {
    forall id | id in t && t[id].watched
      ensures Slot(t[id].fd) in Slots(Writers(t)) <==>
                exists b :: b in t && t[b].watched && t[b].transfers && Slot(t[b].fd) == Slot(t[id].fd)
    {
      WriteBit(t, id);
    }
  }

  lemma WriteBit(t: map<string, Interest>, id: string)
    requires id in t
    ensures Slot(t[id].fd) in Slots(Writers(t)) <==>
              exists b :: b in t && t[b].watched && t[b].transfers && Slot(t[b].fd) == Slot(t[id].fd)
  {
    var slot := Slot(t[id].fd);
    if slot in Slots(Writers(t)) {
      var fd :| fd in Writers(t) && Slot(fd) == slot;
      var b :| b in t && t[b].watched && t[b].transfers && t[b].fd == fd;
    }
    forall b | b in t && t[b].watched && t[b].transfers && Slot(t[b].fd) == slot ensures slot in Slots(Writers(t)) {
      assert t[b].fd in Writers(t);
    }
  }

  /** The descriptor an `os.File` reports once it has been closed, which is when the source asks. */
  const CLOSED_FD: int := -1

  /** What the source's own descriptors amount to: the listener and all clients share the bit of descriptor 31,
      the maximum is -1, so that `maxFD + 1` asks about no descriptor, and one transfer marks everyone. */
  lemma ClosedDescriptors(t: map<string, Interest>, read: set<int>, write: set<int>, m: int)
    requires Prepared(CLOSED_FD, t, read, write, m)
    requires forall id :: id in t ==> t[id].fd == CLOSED_FD
    ensures Slot(CLOSED_FD) == Slot(31) == 31
    ensures read == {31} && m + 1 == 0
    ensures write == if exists id :: id in t && t[id].watched && t[id].transfers then {31} else {}
  {
    var watched := {CLOSED_FD} + Readers(t);
    assert watched == {CLOSED_FD};
    SlotsOfMore({}, CLOSED_FD);
    assert {} + {CLOSED_FD} == watched;
    if exists id :: id in t && t[id].watched && t[id].transfers {
      var id :| id in t && t[id].watched && t[id].transfers;
      assert t[id].fd in Writers(t);
      assert Writers(t) == watched;
    } else {
      assert Writers(t) == {};
    }
  }

  // ---------- runs ----------

  /** The table as ids and last pings, and what the loop does to it. */
  datatype TableOp =
    | Accept(id: string, now: int)
    | Read(id: string, now: int)
    | Remove(id: string)
    | Sweep(now: int)

  function StepTable(t: map<string, int>, op: TableOp, maxClients: int, pingTimeout: int): map<string, int> {
    match op
    case Accept(id, now) => if |t| < maxClients then t[id := now] else t
    case Read(id, now) => if id in t then t[id := now] else t
    case Remove(id) => t - {id}
    case Sweep(now) => map id | id in t && now - t[id] <= pingTimeout :: t[id]
  }

  function RunTable(ops: seq<TableOp>, maxClients: int, pingTimeout: int): map<string, int> {
    if ops == [] then map[]
    else StepTable(RunTable(ops[..|ops| - 1], maxClients, pingTimeout), ops[|ops| - 1], maxClients, pingTimeout)
  }

  lemma SubmapSize(t: map<string, int>, t': map<string, int>)
    requires t'.Keys <= t.Keys
    ensures |t'| <= |t|
  {
    SubsetSize(t'.Keys, t.Keys);
  }

  lemma SmallerTable<V>(t: map<string, V>, id: string)
    ensures |t - {id}| <= |t|
  {
    SubsetSize((t - {id}).Keys, t.Keys);
  }

  /** Over every sequence of accepts, reads, removals and sweeps the table stays within its limit. */
  lemma {:induction false} TableWithinLimit(ops: seq<TableOp>, maxClients: int, pingTimeout: int)
    ensures |RunTable(ops, maxClients, pingTimeout)| <= if maxClients < 0 then 0 else maxClients
  {
    if ops != [] {
      var n := |ops| - 1;
      var t := RunTable(ops[..n], maxClients, pingTimeout);
      TableWithinLimit(ops[..n], maxClients, pingTimeout);
      if ops[n].Remove? || ops[n].Sweep? {
        SubmapSize(t, StepTable(t, ops[n], maxClients, pingTimeout));
      }
    }
  }

  /** When the server last heard from `id`: the last accept that was not refused, or the last read. */
  function LastHeard(ops: seq<TableOp>, id: string, maxClients: int, pingTimeout: int, default: int): int {
    if ops == [] then default
    else
      var n, op := |ops| - 1, ops[|ops| - 1];
      if op.Read? && op.id == id then op.now
      else if op.Accept? && op.id == id && |RunTable(ops[..n], maxClients, pingTimeout)| < maxClients then op.now
      else LastHeard(ops[..n], id, maxClients, pingTimeout, default)
  }

  lemma {:induction false} PingIsLastHeard(ops: seq<TableOp>, id: string, maxClients: int, pingTimeout: int,
                                           default: int)
    ensures var t := RunTable(ops, maxClients, pingTimeout);
      id in t ==> t[id] == LastHeard(ops, id, maxClients, pingTimeout, default)
  {
    if ops != [] {
      PingIsLastHeard(ops[..|ops| - 1], id, maxClients, pingTimeout, default);
    }
  }

  /** After any run a sweep keeps exactly the clients heard from within the ping timeout, as they were. */
  lemma SweepExact(ops: seq<TableOp>, id: string, now: int, maxClients: int, pingTimeout: int)
    ensures var before := RunTable(ops, maxClients, pingTimeout);
      var after := RunTable(ops + [Sweep(now)], maxClients, pingTimeout);
      && (id in after <==> id in before && now - LastHeard(ops, id, maxClients, pingTimeout, 0) <= pingTimeout)
      && (id in after ==> after[id] == before[id])
  {
    PingIsLastHeard(ops, id, maxClients, pingTimeout, 0);
    assert (ops + [Sweep(now)])[..|ops|] == ops;
  }

  // ---------- clients ----------

  class Transfer {
    var state: TransferState

    constructor (fileSize: int64)
      ensures state == TransferState(0, fileSize, true)
    {
      state := TransferState(0, fileSize, true);
    }
  }

  class Client {
    const fd: int
    const chunkSize: int
    var lastPing: int
    var isActive: bool
    var transfer: Transfer?

    constructor (fd: int, chunkSize: int, now: int)
      ensures this.fd == fd && this.chunkSize == chunkSize && lastPing == now && isActive && transfer == null
    {
      this.fd, this.chunkSize, lastPing, isActive, transfer := fd, chunkSize, now, true, null;
    }

    function Wants(): Interest
      reads this, transfer
    {
      Interest(fd, isActive && fd != 0, transfer != null && transfer.state.active)
    }

    /** Enters this client, whose wishes are `i`, into the sets of the next select call. */
    method Watch(read: array<bv32>, write: array<bv32>, maxFD: int, ghost i: Interest) returns (newMax: int)
      requires read.Length == write.Length == WORDS && read != write
      requires i == Wants() && (i.watched ==> Addressable(fd))
      modifies read, write
      ensures View(read[..]) == old(View(read[..])) + if i.watched then {Slot(i.fd)} else {}
      ensures View(write[..]) == old(View(write[..])) + if i.watched && i.transfers then {Slot(i.fd)} else {}
      ensures newMax == if i.watched && i.fd > maxFD then i.fd else maxFD
    {
      newMax := maxFD;
      if isActive && fd != 0 {
        FDSet(fd, read);
        if transfer != null && transfer.state.active {
          FDSet(fd, write);
        }
        if fd > newMax {
          newMax := fd;
        }
      }
    }

    method HandleWrite()
      modifies transfer
      ensures transfer != null ==> transfer.state == WriteStep(old(transfer.state), chunkSize)
    {
      if transfer != null && transfer.state.active {
        transfer.state := WriteStep(transfer.state, chunkSize);
      }
    }
  }

  class SelectMultiplexer {
    const listenerFD: int
    const maxClients: int
    const pingTimeout: int64
    var clients: map<string, Client>

    /** The table never exceeds its limit, and no two ids share a client object. */
    ghost predicate Valid()
      reads this
    {
      && |clients| <= (if maxClients < 0 then 0 else maxClients)
      && (forall a, b :: a in clients && b in clients && a != b ==> clients[a] != clients[b])
    }

    /** Who is in the table, and when they were last heard of. */
    function Pings(): map<string, int>
      reads this, clients.Values
    {
      map id | id in clients :: clients[id].lastPing
    }

    /** What each client wants from the next select call. */
    function Interests(): map<string, Interest>
      reads this, clients.Values, set id | id in clients && clients[id].transfer != null :: clients[id].transfer
    {
      map id | id in clients :: clients[id].Wants()
    }

    constructor (listenerFD: int, maxClients: int, pingTimeout: int64)
      ensures Valid() && clients == map[]
      ensures this.listenerFD == listenerFD && this.maxClients == maxClients && this.pingTimeout == pingTimeout
    {
      this.listenerFD, this.maxClients, this.pingTimeout, clients := listenerFD, maxClients, pingTimeout, map[];
    }

    /** The interest sets of one select call. */
    method PrepareSets(read: array<bv32>, write: array<bv32>, except: array<bv32>) returns (maxFD: int)
      requires read.Length == write.Length == except.Length == WORDS
      requires read != write && read != except && write != except
      requires Addressable(listenerFD) && AllAddressable(Interests())
      modifies read, write, except
      ensures View(read[..]) == Slots({listenerFD} + Readers(Interests()))
      ensures View(write[..]) == Slots(Writers(Interests()))
      ensures View(except[..]) == {}
      ensures IsMax(maxFD, {listenerFD} + Readers(Interests()))
      // the same, client by client
      ensures forall slot :: slot in View(read[..]) <==> slot == Slot(listenerFD) || exists id :: ToRead(id, slot)
      ensures forall slot :: slot in View(write[..]) <==> exists id :: ToWrite(id, slot)
    {
      FDZero(read);
      FDZero(write);
      FDZero(except);
      FDSet(listenerFD, read);
      maxFD := WatchAll(read, write);
      forall slot ensures slot in View(read[..]) <==> slot == Slot(listenerFD) || exists id :: ToRead(id, slot) {
        ReadSlot(slot);
      }
      forall slot ensures slot in View(write[..]) <==> exists id :: ToWrite(id, slot) {
        WriteSlot(slot);
      }
    }

    /** Client `id` is active, has a descriptor, and that descriptor lands in `slot`. */
    predicate ToRead(id: string, slot: int)
      reads this, clients.Values
    {
      id in clients && clients[id].isActive && clients[id].fd != 0 && Slot(clients[id].fd) == slot
    }

    /** And it has a file transfer under way. */
    predicate ToWrite(id: string, slot: int)
      reads this, clients.Values, set id | id in clients && clients[id].transfer != null :: clients[id].transfer
    {
      ToRead(id, slot) && clients[id].transfer != null && clients[id].transfer.state.active
    }

    lemma ReadSlot(slot: int)
      ensures slot in Slots({listenerFD} + Readers(Interests())) <==>
                slot == Slot(listenerFD) || exists id :: ToRead(id, slot)
    {
      var t := Interests();
      var fds := {listenerFD} + Readers(t);
      if slot in Slots(fds) {
        var fd :| fd in fds && Slot(fd) == slot;
        if fd != listenerFD {
          var id :| id in t && t[id].watched && t[id].fd == fd;
          assert ToRead(id, slot);
        }
      }
      if slot == Slot(listenerFD) {
        assert listenerFD in fds;
      }
      forall id | ToRead(id, slot) ensures slot in Slots(fds) {
        assert t[id].watched && t[id].fd in Readers(t);
      }
    }

    lemma WriteSlot(slot: int)
      ensures slot in Slots(Writers(Interests())) <==> exists id :: ToWrite(id, slot)
    {
      var t := Interests();
      if slot in Slots(Writers(t)) {
        var fd :| fd in Writers(t) && Slot(fd) == slot;
        var id :| id in t && t[id].watched && t[id].transfers && t[id].fd == fd;
        assert ToWrite(id, slot);
      }
      forall id | ToWrite(id, slot) ensures slot in Slots(Writers(t)) {
        assert t[id].watched && t[id].transfers && t[id].fd in Writers(t);
      }
    }

    /** The preparation loop, over a table ranged over in any order. */
    method WatchAll(read: array<bv32>, write: array<bv32>) returns (maxFD: int)
      requires read.Length == write.Length == WORDS && read != write
      requires AllAddressable(Interests())
      requires View(read[..]) == {Slot(listenerFD)} && View(write[..]) == {}
      modifies read, write
      ensures Prepared(listenerFD, Interests(), View(read[..]), View(write[..]), maxFD)
    {
      hide Prepared, View, Readers, Writers;
      ghost var all := Interests();
      PreparedNone(listenerFD);
      maxFD := listenerFD;
      var todo := clients.Keys;
      ghost var done: map<string, Interest> := map[];
      while todo != {}
        invariant todo <= clients.Keys && Interests() == all
        invariant done.Keys == clients.Keys - todo && forall id :: id in done ==> done[id] == all[id]
        invariant Prepared(listenerFD, done, View(read[..]), View(write[..]), maxFD)
        decreases todo
      {
        var id :| id in todo;
        PreparedMore(listenerFD, done, id, all[id], View(read[..]), View(write[..]), maxFD);
        maxFD := clients[id].Watch(read, write, maxFD, all[id]);
        done := done[id := all[id]];
        todo := todo - {id};
      }
      assert done == all;
    }

    /** Accepts a connection, with the id and descriptor it is given, unless the table is full. */
    method HandleNewConnection(id: string, fd: int, now: int) returns (accepted: bool)
      requires Valid()
      modifies this`clients
      ensures Valid()
      ensures accepted <==> |old(clients)| < maxClients
      ensures accepted ==> id in clients && fresh(clients[id]) && clients == old(clients)[id := clients[id]]
      ensures accepted ==> clients[id].fd == fd && clients[id].isActive && clients[id].transfer == null
                           && clients[id].lastPing == now && Optimal(pingTimeout, clients[id].chunkSize)
      ensures !accepted ==> clients == old(clients)
      ensures Pings() == StepTable(old(Pings()), Accept(id, now), maxClients, pingTimeout)
    {
      assert Pings().Keys == clients.Keys;
      assert |Pings()| == |clients|;
      accepted := |clients| < maxClients;
      if accepted {
        var chunkSize := CalculateOptimalChunkSize(pingTimeout);
        var client := new Client(fd, chunkSize, now);
        clients := clients[id := client];
      }
    }

    /** The bookkeeping of `handleClientRead`. */
    method HandleClientRead(id: string, now: int)
      requires Valid()
      modifies (if id in clients then {clients[id]} else {})`lastPing
      ensures Valid()
      ensures Pings() == StepTable(old(Pings()), Read(id, now), maxClients, pingTimeout)
    {
      if id in clients {
        clients[id].lastPing := now;
      }
    }

    method RemoveConnection(id: string)
      requires Valid()
      modifies this`clients
      ensures Valid()
      ensures clients == old(clients) - {id}
      ensures Pings() == StepTable(old(Pings()), Remove(id), maxClients, pingTimeout)
    {
      SmallerTable(clients, id);
      ghost var pings := Pings();
      clients := clients - {id};
      assert Pings().Keys == (pings - {id}).Keys;
    }

    /** Idle beyond the limit at time `now`, on clock values whose difference needs no saturation. */
    predicate TimedOut(c: Client, now: int)
      reads c
    {
      now - c.lastPing > pingTimeout
    }

    /** The sweep removes exactly the clients idle beyond the ping timeout, ranging over a copy of the table. */
    method CheckPingTimeouts(now: int)
      requires Valid()
      modifies this`clients
      ensures Valid()
      ensures clients == map id | id in old(clients) && !TimedOut(old(clients)[id], now) :: old(clients)[id]
      ensures Pings() == StepTable(old(Pings()), Sweep(now), maxClients, pingTimeout)
    {
      var copied := clients;
      var todo := copied.Keys;
      while todo != {}
        invariant Valid() && todo <= copied.Keys
        invariant forall id :: id in clients <==> id in copied && (id in todo || !TimedOut(copied[id], now))
        invariant forall id :: id in clients ==> clients[id] == copied[id]
        decreases todo
      {
        var id :| id in todo;
        if TimedOut(copied[id], now) {
          RemoveConnection(id);
        }
        todo := todo - {id};
      }
    }
  }
}
