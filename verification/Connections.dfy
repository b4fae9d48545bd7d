/** The Lab 2 connection manager: one session with its own window per client address. */
module Connections {
  import opened GoInts
  import opened PacketCodec
  import opened Windows

  /** `5*time.Minute` in nanoseconds. */
  const IDLE_LIMIT: int := 300_000_000_000

  datatype SessionState = SessionState(lastSeen: int, window: Window<Packet>, seqNum: uint32, ackNum: uint32)

  type Table = map<string, SessionState>

  // ---------- the manager on values ----------

  function FreshSession(now: int, size: uint16): SessionState {
    SessionState(now, New(size), 0, 0)
  }

  function Touched(t: Table, addr: string, now: int, size: uint16): SessionState {
    if addr in t then t[addr].(lastSeen := now) else FreshSession(now, size)
  }

  function Touch(t: Table, addr: string, now: int, size: uint16): Table {
    t[addr := Touched(t, addr, now, size)]
  }

  function SendTo(t: Table, addr: string, p: Packet, now: int, size: uint16): Table {
    var s := Touched(t, addr, now, size);
    t[addr := if CanSend(s.window) then s.(window := Add(s.window, p.seqNum, p)) else s]
  }

  function AckFrom(t: Table, addr: string, ackNum: uint32, now: int, size: uint16): Table {
    var s := Touched(t, addr, now, size);
    t[addr := s.(window := Ack(s.window, ackNum), ackNum := ackNum)]
  }

  function Cleanup(t: Table, now: int): Table {
    map a | a in t && now - t[a].lastSeen <= IDLE_LIMIT :: t[a]
  }

  // ---------- runs over many addresses ----------

  /** The sessions, and the window size that later ones get. */
  datatype Manager = Manager(sessions: Table, size: uint16)

  datatype Op =
    | TouchOp(addr: string, now: int)
    | SendOp(addr: string, packet: Packet, now: int)
    | AckOp(addr: string, ackNum: uint32, now: int)
    | CleanupOp(now: int)
    | ResizeOp(size: uint16)

  function Step(m: Manager, op: Op): Manager {
    match op
    case TouchOp(a, now) => m.(sessions := Touch(m.sessions, a, now, m.size))
    case SendOp(a, p, now) => m.(sessions := SendTo(m.sessions, a, p, now, m.size))
    case AckOp(a, n, now) => m.(sessions := AckFrom(m.sessions, a, n, now, m.size))
    case CleanupOp(now) => m.(sessions := Cleanup(m.sessions, now))
    case ResizeOp(size) => m.(size := size)
  }

  function PlayOps(ops: seq<Op>, size: uint16): Manager {
    if ops == [] then Manager(map[], size) else Step(PlayOps(ops[..|ops| - 1], size), ops[|ops| - 1])
  }

  predicate Concerns(op: Op, addr: string) { op.CleanupOp? || op.ResizeOp? || op.addr == addr }

  /** The run as `addr` alone would have seen it: its own operations, the cleanups and the resizes. */
  function Project(ops: seq<Op>, addr: string): seq<Op> {
    if ops == [] then []
    else Project(ops[..|ops| - 1], addr) + if Concerns(ops[|ops| - 1], addr) then [ops[|ops| - 1]] else []
  }

  /** Do the two managers agree about `addr`? */
  predicate Agree(m: Manager, m': Manager, addr: string) {
    && m.size == m'.size
    && (addr in m.sessions <==> addr in m'.sessions)
    && (addr in m.sessions ==> m.sessions[addr] == m'.sessions[addr])
  }

  lemma StepAgrees(m: Manager, m': Manager, op: Op, addr: string)
    requires Agree(m, m', addr)
    ensures Concerns(op, addr) ==> Agree(Step(m, op), Step(m', op), addr)
    ensures !Concerns(op, addr) ==> Agree(Step(m, op), m', addr)
  {
  }

  /** Main result on isolation: what the manager holds for an address after any run is what it would hold had
      every operation for every other address never happened. */
  lemma {:induction false} Isolation(ops: seq<Op>, addr: string, size: uint16)
    ensures Agree(PlayOps(ops, size), PlayOps(Project(ops, addr), size), addr)
  {
    if ops != [] {
      var n := |ops| - 1;
      Isolation(ops[..n], addr, size);
      StepAgrees(PlayOps(ops[..n], size), PlayOps(Project(ops[..n], addr), size), ops[n], addr);
      var shorter := Project(ops[..n], addr);
      assert (shorter + [ops[n]])[..|shorter|] == shorter;
      assert shorter + [] == shorter;
    }
  }

  /** The guards of the window, for whichever session an operation reaches. */
  ghost predicate GuardedOp(m: Manager, op: Op) {
    match op
    case SendOp(a, p, now) =>
      var w := Touched(m.sessions, a, now, m.size).window; CanSend(w) ==> p.seqNum == w.next
    case AckOp(a, n, now) => n in Touched(m.sessions, a, now, m.size).window.buffer
    case _ => true
  }

  ghost predicate LegalOps(ops: seq<Op>, size: uint16) {
    ops == [] || (LegalOps(ops[..|ops| - 1], size) && GuardedOp(PlayOps(ops[..|ops| - 1], size), ops[|ops| - 1]))
  }

  ghost predicate AllInv(t: Table) { forall a :: a in t ==> Inv(t[a].window) }

  lemma StepKeepsInv(m: Manager, op: Op)
    requires AllInv(m.sessions) && GuardedOp(m, op)
    ensures AllInv(Step(m, op).sessions)
  {
    if op.TouchOp? || op.SendOp? || op.AckOp? {
      NewInv<Packet>(m.size);
      var w := Touched(m.sessions, op.addr, op.now, m.size).window;
      assert Inv(w);
      match op {
        case SendOp(a, p, now) => AddExact(w, p.seqNum, p);
        case AckOp(a, n, now) => AckExact(w, n);
        case _ =>
      }
    }
  }

  /** Every window of every session keeps its invariant over every guarded run. */
  lemma {:induction false} WindowsStayValid(ops: seq<Op>, size: uint16)
    requires LegalOps(ops, size)
    ensures AllInv(PlayOps(ops, size).sessions)
  {
    if ops != [] {
      var n := |ops| - 1;
      WindowsStayValid(ops[..n], size);
      StepKeepsInv(PlayOps(ops[..n], size), ops[n]);
    }
  }

  /** The time of the last operation for `addr`, if there was one. */
  function LastUse(ops: seq<Op>, addr: string, default: int): int {
    if ops == [] then default
    else
      var op := ops[|ops| - 1];
      if !op.CleanupOp? && !op.ResizeOp? && op.addr == addr then op.now
      else LastUse(ops[..|ops| - 1], addr, default)
  }

  lemma {:induction false} LastSeenIsLastUse(ops: seq<Op>, addr: string, default: int, size: uint16)
    ensures var t := PlayOps(ops, size).sessions; addr in t ==> t[addr].lastSeen == LastUse(ops, addr, default)
  {
    if ops != [] {
      LastSeenIsLastUse(ops[..|ops| - 1], addr, default, size);
    }
  }

  /** A cleanup keeps exactly the sessions used within the last five minutes, as they were. */
  lemma CleanupExact(ops: seq<Op>, addr: string, now: int, size: uint16)
    ensures var before, after := PlayOps(ops, size).sessions, PlayOps(ops + [CleanupOp(now)], size).sessions;
      && (addr in after <==> addr in before && now - LastUse(ops, addr, 0) <= IDLE_LIMIT)
      && (addr in after ==> after[addr] == before[addr])
  {
    LastSeenIsLastUse(ops, addr, 0, size);
    assert (ops + [CleanupOp(now)])[..|ops|] == ops;
  }

  // ---------- what one operation does to the session it reaches ----------

  function WindowIn(t: Table, addr: string, size: uint16): Window<Packet> {
    if addr in t then t[addr].window else New(size)
  }

  /** Other addresses keep what they had, and the session of `addr` has just been seen. */
  predicate Reaches(t: Table, t': Table, addr: string, now: int) {
    && t'.Keys == t.Keys + {addr} && t'[addr].lastSeen == now
    && forall a :: a in t && a != addr ==> t'[a] == t[a]
  }

  /** A touch creates an empty session or changes nothing but the time. */
  lemma TouchOutcome(t: Table, addr: string, now: int, size: uint16)
    ensures var t' := Touch(t, addr, now, size);
      && Reaches(t, t', addr, now) && t'[addr].window == WindowIn(t, addr, size)
      && (addr in t ==> t'[addr].seqNum == t[addr].seqNum && t'[addr].ackNum == t[addr].ackNum)
      && (addr !in t ==> t'[addr].seqNum == 0 && t'[addr].ackNum == 0)
  {
  }

  /** A send leaves a full window as it was; an open one gains the packet under its number and the next number. */
  lemma SendOutcome(t: Table, addr: string, p: Packet, now: int, size: uint16)
    ensures var t', w := SendTo(t, addr, p, now, size), WindowIn(t, addr, size);
      && Reaches(t, t', addr, now)
      && (Minus32(w.next, w.base) >= w.size ==> t'[addr].window == w)
      && (Minus32(w.next, w.base) < w.size ==>
            t'[addr].window == Window(w.base, (w.next + 1) % TWO_32, w.size, w.buffer[p.seqNum := p], w.acked))
  {
  }

  /** An acknowledgement in flight is recorded and taken in: its packet is marked or gone, the base is
      unacknowledged, and only numbers before it have left. */
  lemma AckOutcome(t: Table, addr: string, n: uint32, now: int, size: uint16) returns (m: nat)
    requires Inv(WindowIn(t, addr, size)) && n in WindowIn(t, addr, size).buffer
    ensures var t', w := AckFrom(t, addr, n, now, size), WindowIn(t, addr, size);
      var w' := t'[addr].window;
      && Reaches(t, t', addr, now) && t'[addr].ackNum == n
      && Inv(w') && w'.next == w.next && w'.size == w.size
      && w'.base == Plus32(w.base, m) && w'.buffer == w.buffer - Run(w.base, m)
      && (forall i :: 0 <= i < m ==> Plus32(w.base, i) in w.acked || Plus32(w.base, i) == n)
      && (n in w'.buffer ==> n in w'.acked)
  {
    var w := WindowIn(t, addr, size);
    assert Interval(Mark(w, n));
    SlideInv(Mark(w, n));
    SlideCuts(Mark(w, n));
    SlideMaximal(Mark(w, n));
    m := SlideLength(Mark(w, n));
  }

  // ---------- objects ----------

  class ClientSession {
    const window: SlidingWindow
    var lastSeen: int
    var seqNum: uint32
    var ackNum: uint32

    constructor (now: int, size: uint16)
      ensures State() == FreshSession(now, size)
      ensures fresh(window) && window.Keyed()
    {
      window := new SlidingWindow(size);
      lastSeen, seqNum, ackNum := now, 0, 0;
    }

    function State(): SessionState
      reads this, window
    {
      SessionState(lastSeen, window.State(), seqNum, ackNum)
    }
  }

  class UDPConnectionManager {
    const window: SlidingWindow  // resized with the others, and otherwise unused
    var clients: map<string, ClientSession>
    var windowSize: uint16

    /** Different addresses never share a session or a window. */
    ghost predicate Separate()
      reads this
    {
      && (forall a, b :: a in clients && b in clients && a != b ==>
            clients[a] != clients[b] && clients[a].window != clients[b].window)
      && (forall a :: a in clients ==> clients[a].window != window)
    }

    /** And windows hold packets under their numbers. */
    ghost predicate Valid()
      reads this, set a | a in clients :: clients[a].window
    {
      Separate() && forall a :: a in clients ==> clients[a].window.Keyed()
    }

    lemma Apart(addr: string, a: string)
      requires Separate() && addr in clients && a in clients && a != addr
      ensures clients[a].window != clients[addr].window && clients[a] != clients[addr]
    {
    }

    /** The objects that belong to `addr` alone. */
    function Own(addr: string): set<object>
      reads this
    {
      if addr in clients then {clients[addr], clients[addr].window} else {}
    }

    function Contents(): Table
      reads this, set a | a in clients :: clients[a], set a | a in clients :: clients[a].window
    {
      map a | a in clients :: clients[a].State()
    }

    /** The window of the session `GetOrCreateClient` would return for `addr`. */
    function WindowOf(addr: string): Window<Packet>
      reads this, Own(addr)
    {
      if addr in clients then clients[addr].window.State() else New(windowSize)
    }

    constructor (size: uint16)
      ensures Valid() && Contents() == map[] && windowSize == size
      ensures fresh(window) && window.State() == New(size)
    {
      window := new SlidingWindow(size);
      clients, windowSize := map[], size;
    }

    /** Takes effect for sessions created later; existing windows keep their size. */
    method SetWindowSize(size: uint16)
      requires Valid()
      modifies this`windowSize, window`windowSize
      ensures Valid()
      ensures windowSize == size && Contents() == old(Contents())
      ensures window.State() == old(window.State()).(size := size)
    {
      windowSize := size;
      window.windowSize := size;
    }

    /** Creates or touches the session of `addr` and nothing else. */
    method GetOrCreateClient(addr: string, now: int) returns (session: ClientSession)
      requires Valid()
      modifies this`clients, if addr in clients then {clients[addr]} else {}
      ensures Valid()
      ensures clients == old(clients)[addr := session]
      ensures addr in old(clients) ==> session == old(clients[addr])
      ensures addr !in old(clients) ==> fresh(session) && fresh(session.window)
      ensures session.State() == Touched(old(Contents()), addr, now, windowSize)
      ensures forall a :: a in clients && a != addr ==> clients[a].State() == old(Contents())[a]
    {
      if addr in clients {
        session := clients[addr];
      } else {
        session := new ClientSession(now, windowSize);
        clients := clients[addr := session];
      }
      session.lastSeen := now;
    }

    /** What is left to show once the other sessions are known to be untouched. */
    lemma TableUpdate(t: Table, addr: string, after: SessionState)
      requires addr in clients && clients[addr].State() == after
      requires clients.Keys == t.Keys + {addr}
      requires forall a :: a in clients && a != addr ==> clients[a].State() == t[a]
      ensures Contents() == t[addr := after]
    {
    }

    /** Buffers `p` if the window of `addr` is open and reports whether it was; the datagram goes out after. */
    method SendReliablePacket(p: Packet, addr: string, now: int) returns (accepted: bool)
      requires Valid()
      modifies this`clients, Own(addr)
      ensures Valid()
      ensures fresh(Own(addr) - old(Own(addr)))
      ensures Contents() == SendTo(old(Contents()), addr, p, now, windowSize)
      ensures accepted <==> CanSend(old(WindowOf(addr)))
    {
      hide UDPConnectionManager.Separate, SlidingWindow.Keyed;
      var session := GetOrCreateClient(addr, now);
      accepted := session.window.CanSendNow();
      if !accepted {
        TableUpdate(old(Contents()), addr, session.State());
        return;
      }
      session.window.AddPacket(p);
      forall a | a in clients && a != addr
        ensures clients[a].State() == old(Contents())[a] && clients[a].window.Keyed()
      {
        Apart(addr, a);
      }
      TableUpdate(old(Contents()), addr, session.State());
    }

    method HandleAckPacket(ackNum: uint32, addr: string, now: int)
      requires Valid()
      modifies this`clients, Own(addr)
      ensures Valid()
      ensures fresh(Own(addr) - old(Own(addr)))
      ensures Contents() == AckFrom(old(Contents()), addr, ackNum, now, windowSize)
    {
      hide UDPConnectionManager.Separate, SlidingWindow.Keyed;
      var session := GetOrCreateClient(addr, now);
      session.window.AckPacket(ackNum);
      session.ackNum := ackNum;
      forall a | a in clients && a != addr
        ensures clients[a].State() == old(Contents())[a] && clients[a].window.Keyed()
      {
        Apart(addr, a);
      }
      TableUpdate(old(Contents()), addr, session.State());
    }

    lemma TableCleaned(t: Table, now: int)
      requires forall a :: a in clients <==> a in t && now - t[a].lastSeen <= IDLE_LIMIT
      requires forall a :: a in clients ==> clients[a].State() == t[a]
      ensures Contents() == Cleanup(t, now)
    {
    }

    /** Deletes the sessions idle for more than five minutes, while ranging over the table. */
    method CleanupExpiredClients(now: int)
      requires Valid()
      modifies this`clients
      ensures Valid()
      ensures Contents() == Cleanup(old(Contents()), now)
    {
      var todo := clients.Keys;
      ghost var all := clients;
      while todo != {}
        invariant todo <= clients.Keys <= all.Keys
        invariant forall a :: a in clients ==> clients[a] == all[a]
        invariant forall a :: a in all && a !in todo ==> (a in clients <==> now - all[a].lastSeen <= IDLE_LIMIT)
        decreases todo
      {
        var key :| key in todo;
        if now - clients[key].lastSeen > IDLE_LIMIT {
          clients := clients - {key};
        }
        todo := todo - {key};
      }
      TableCleaned(old(Contents()), now);
    }
  }
}
