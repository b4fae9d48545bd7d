/** Retransmission over whole runs of one Lab 2 window: sends, acknowledgements and scans for overdue packets. */
module Retransmission {
  import opened Basics
  import opened GoInts
  import opened Windows

  /** The packet sent as number `id`, counted without wrap-around, and its current time stamp. */
  datatype Stamped = Stamped(id: nat, stamp: int64)

  datatype Event =
    | Transmit(now: int64)
    | Acknowledge(ack: uint32)
    | Scan(now: int64)

  /** The window, when each packet was sent, and the latest time seen. */
  datatype History = History(window: Window<Stamped>, sentAt: seq<int64>, clock: int64)

  /** One scan stamps an overdue packet with its own time. */
  function Restamp(stamp: int64, now: int64, timeout: int64): int64 {
    if Overdue(stamp, now, timeout) then now else stamp
  }

  /** One scan stamps what it selects. */
  function Scanned(w: Window<Stamped>, now: int64, timeout: int64): Window<Stamped> {
    w.(buffer := map s | s in w.buffer ::
      if IsAcked(w.acked, s) then w.buffer[s]
      else w.buffer[s].(stamp := Restamp(w.buffer[s].stamp, now, timeout)))
  }

  function Step(h: History, e: Event, timeout: int64): History {
    match e
    case Transmit(now) =>
      var p := Stamped(|h.sentAt|, now);
      History(Add(h.window, h.window.next, p), h.sentAt + [now], now)
    case Acknowledge(s) => h.(window := Ack(h.window, s))
    case Scan(now) => h.(window := Scanned(h.window, now, timeout), clock := now)
  }

  /** The guards of the window, and a clock that does not run backwards. */
  predicate Guarded(h: History, e: Event) {
    match e
    case Transmit(now) => CanSend(h.window) && h.clock <= now
    case Acknowledge(s) => s in h.window.buffer
    case Scan(now) => h.clock <= now
  }

  function Start(size: uint16, start: int64): History { History(New(size), [], start) }

  function Play(h: History, run: seq<Event>, timeout: int64): History {
    if run == [] then h else Step(Play(h, run[..|run| - 1], timeout), run[|run| - 1], timeout)
  }

  predicate Legal(h: History, run: seq<Event>, timeout: int64) {
    run == [] || (Legal(h, run[..|run| - 1], timeout)
                  && Guarded(Play(h, run[..|run| - 1], timeout), run[|run| - 1]))
  }

  /** The scan's result contains packet `id`. */
  predicate Selects(w: Window<Stamped>, id: nat, now: int64, timeout: int64) {
    exists s :: s in w.buffer && w.buffer[s].id == id
                && !IsAcked(w.acked, s) && Overdue(w.buffer[s].stamp, now, timeout)
  }

  /** How many scans of the run select packet `id`. */
  function Selections(h: History, run: seq<Event>, id: nat, timeout: int64): nat {
    if run == [] then 0
    else
      var n, e := |run| - 1, run[|run| - 1];
      Selections(h, run[..n], id, timeout)
      + if e.Scan? && Selects(Play(h, run[..n], timeout).window, id, e.now, timeout) then 1 else 0
  }

  // ---------- what every step keeps ----------

  /** Packets sit under the low 32 bits of their numbers, with stamps between 0 and now. */
  ghost predicate Consistent(h: History) {
    && Inv(h.window)
    && h.window.next == |h.sentAt| % TWO_32
    && forall s :: s in h.window.buffer ==>
         var p := h.window.buffer[s]; p.id < |h.sentAt| && p.id % TWO_32 == s && 0 <= p.stamp <= h.clock
  }

  /** `count` selections of packet `id` fit between its sending and its stamp, or now once it is acknowledged. */
  ghost predicate Spaced(h: History, id: nat, count: nat, gap: int) {
    && (id >= |h.sentAt| ==> count == 0)
    && (id < |h.sentAt| ==> h.sentAt[id] + count * gap <= h.clock)
    && (forall s :: s in h.window.buffer && h.window.buffer[s].id == id && !IsAcked(h.window.acked, s) ==>
          id < |h.sentAt| && h.sentAt[id] + count * gap <= h.window.buffer[s].stamp)
  }

  /** Sent, and wherever it still is, acknowledged. */
  predicate Settled(h: History, id: nat) {
    && id < |h.sentAt|
    && forall s :: s in h.window.buffer && h.window.buffer[s].id == id ==> IsAcked(h.window.acked, s)
  }

  /** What an acknowledgement leaves in the buffer it leaves as it was, and acknowledged only by itself. */
  lemma AckLeaves(w: Window<Stamped>, ack: uint32)
    ensures forall s :: s in Ack(w, ack).buffer ==>
              && s in w.buffer && Ack(w, ack).buffer[s] == w.buffer[s]
              && (IsAcked(Ack(w, ack).acked, s) <==> IsAcked(w.acked, s) || s == ack)
    ensures Ack(w, ack).next == w.next
  {
    SlideCuts(Mark(w, ack));
  }

  /** A scan moves the window in nothing but stamps: the unacknowledged packets older than the timeout get its
      time, every other packet keeps its own. */
  lemma ScanExact(h: History, now: int64, timeout: int64)
    requires Consistent(h) && 0 <= h.clock <= now
    ensures var w, w' := h.window, Scanned(h.window, now, timeout);
      && w' == w.(buffer := w'.buffer) && w'.buffer.Keys == w.buffer.Keys
      && forall s :: s in w.buffer ==>
           w'.buffer[s] ==
             if !IsAcked(w.acked, s) && now - w.buffer[s].stamp > timeout then Stamped(w.buffer[s].id, now)
             else w.buffer[s]
    ensures var w := h.window;
      forall s :: s in w.buffer && !IsAcked(w.acked, s) && now - w.buffer[s].stamp > timeout ==>
        Selects(w, w.buffer[s].id, now, timeout)
  {
    forall s | s in h.window.buffer
      ensures Overdue(h.window.buffer[s].stamp, now, timeout) <==> now - h.window.buffer[s].stamp > timeout
    {
      OverdueExact(h.window.buffer[s].stamp, now, timeout);
    }
  }

  lemma StepConsistent(h: History, e: Event, timeout: int64)
    requires Consistent(h) && Guarded(h, e) && 0 <= h.clock
    ensures Consistent(Step(h, e, timeout)) && h.clock <= Step(h, e, timeout).clock
  {
    match e {
      case Transmit(now) =>
        AddExact(h.window, h.window.next, Stamped(|h.sentAt|, now));
        PlusPlus(0, |h.sentAt|, 1);
      case Acknowledge(s) =>
        AckExact(h.window, s);
        AckLeaves(h.window, s);
      case Scan(now) =>
        assert Scanned(h.window, now, timeout).buffer.Keys == h.window.buffer.Keys;
    }
  }

  lemma OneMore(first: int, k: nat, gap: int, last: int, now: int)
    requires first + k * gap <= last && last + gap <= now
    ensures first + (k + 1) * gap <= now
  {
    assert (k + 1) * gap == k * gap + gap;
  }

  lemma QuotientBound(n: nat, d: int, t: int)
    requires d > 0 && n * d <= t
    ensures n <= t / d
  {
    var q := t / d;
    assert t == q * d + t % d;
    assert (q + 1) * d == q * d + d;
    assert d * n == n * d && d * (q + 1) == (q + 1) * d;
    LessByFactor(d, n, q + 1);
  }

  lemma RateFromSpacing(n: nat, d: int, t: int)
    requires d > 0 && n * (d + 1) <= t
    ensures n <= t / d
  {
    assert n * (d + 1) == n * d + n;
    QuotientBound(n, d, t);
  }

  lemma ScanSpaced(h: History, id: nat, count: nat, now: int64, timeout: int64)
    requires Consistent(h) && 0 <= timeout && h.clock <= now && Spaced(h, id, count, timeout + 1)
    ensures Spaced(Step(h, Scan(now), timeout), id,
                   count + if Selects(h.window, id, now, timeout) then 1 else 0, timeout + 1)
  {
    forall s | s in h.window.buffer && h.window.buffer[s].id == id && !IsAcked(h.window.acked, s)
      ensures Selects(h.window, id, now, timeout) <==> now - h.window.buffer[s].stamp > timeout
      ensures now - h.window.buffer[s].stamp > timeout ==> h.sentAt[id] + (count + 1) * (timeout + 1) <= now
    {
      OverdueExact(h.window.buffer[s].stamp, now, timeout);
      if now - h.window.buffer[s].stamp > timeout {
        OneMore(h.sentAt[id], count, timeout + 1, h.window.buffer[s].stamp, now);
      }
    }
  }

  lemma StepSpaced(h: History, e: Event, id: nat, count: nat, timeout: int64)
    requires Consistent(h) && Guarded(h, e) && 0 <= timeout && Spaced(h, id, count, timeout + 1)
    ensures Spaced(Step(h, e, timeout), id,
                   count + if e.Scan? && Selects(h.window, id, e.now, timeout) then 1 else 0, timeout + 1)
  {
    match e {
      case Transmit(now) =>
      case Acknowledge(s) => AckLeaves(h.window, s);
      case Scan(now) => ScanSpaced(h, id, count, now, timeout);
    }
  }

  lemma StartSpaced(size: uint16, start: int64, id: nat, gap: int)
    requires 0 <= start
    ensures Consistent(Start(size, start)) && Spaced(Start(size, start), id, 0, gap)
  {
    NewInv<Stamped>(size);
  }

  lemma {:induction false} RunSpaced(size: uint16, start: int64, run: seq<Event>, id: nat, timeout: int64)
    requires 0 <= start && 0 <= timeout && Legal(Start(size, start), run, timeout)
    ensures var h := Play(Start(size, start), run, timeout);
      Consistent(h) && 0 <= h.clock && Spaced(h, id, Selections(Start(size, start), run, id, timeout), timeout + 1)
  {
    hide Consistent, Spaced, Guarded, Step, Selects;
    if run == [] {
      StartSpaced(size, start, id, timeout + 1);
    } else {
      var n := |run| - 1;
      var h := Play(Start(size, start), run[..n], timeout);
      RunSpaced(size, start, run[..n], id, timeout);
      StepConsistent(h, run[n], timeout);
      StepSpaced(h, run[n], id, Selections(Start(size, start), run[..n], id, timeout), timeout);
    }
  }

  // ---------- main results ----------

  /** Over every run of sends, acknowledgements and scans, selections of one packet are more than `timeout`
      apart: n of them take at least n * (timeout + 1) clock units from its sending. */
  lemma SelectionSpacing(size: uint16, start: int64, run: seq<Event>, id: nat, timeout: int64)
    requires 0 <= start && 0 <= timeout && Legal(Start(size, start), run, timeout)
    requires id < |Play(Start(size, start), run, timeout).sentAt|
    ensures var h := Play(Start(size, start), run, timeout);
      h.sentAt[id] + Selections(Start(size, start), run, id, timeout) * (timeout + 1) <= h.clock
  {
    RunSpaced(size, start, run, id, timeout);
  }

  /** In the time T since it was sent a packet is selected at most T / timeout times. */
  lemma SelectionRate(size: uint16, start: int64, run: seq<Event>, id: nat, timeout: int64)
    requires 0 <= start && 0 < timeout && Legal(Start(size, start), run, timeout)
    requires id < |Play(Start(size, start), run, timeout).sentAt|
    ensures var h := Play(Start(size, start), run, timeout);
      Selections(Start(size, start), run, id, timeout) <= (h.clock - h.sentAt[id]) / timeout
  {
    hide Play, Selections, Legal;
    var h := Play(Start(size, start), run, timeout);
    SelectionSpacing(size, start, run, id, timeout);
    RateFromSpacing(Selections(Start(size, start), run, id, timeout), timeout, h.clock - h.sentAt[id]);
  }

  lemma StepSettled(h: History, e: Event, id: nat, timeout: int64)
    requires Settled(h, id)
    ensures Settled(Step(h, e, timeout), id)
    ensures e.Scan? ==> !Selects(h.window, id, e.now, timeout)
  {
    if e.Acknowledge? {
      AckLeaves(h.window, e.ack);
    }
  }

  lemma {:induction false} SettledForever(h: History, run: seq<Event>, more: seq<Event>, id: nat, timeout: int64)
    requires Settled(Play(h, run, timeout), id)
    ensures Settled(Play(h, run + more, timeout), id)
    ensures Selections(h, run + more, id, timeout) == Selections(h, run, id, timeout)
    decreases |more|
  {
    if more == [] {
      assert run + more == run;
    } else {
      var n := |more| - 1;
      SettledForever(h, run, more[..n], id, timeout);
      assert (run + more)[..|run + more| - 1] == run + more[..n];
      StepSettled(Play(h, run + more[..n], timeout), more[n], id, timeout);
    }
  }

  /** Once a packet in flight has been acknowledged no later scan selects it, whatever else happens. */
  lemma NeverAfterAck(size: uint16, start: int64, run: seq<Event>, more: seq<Event>, id: nat, timeout: int64)
    requires 0 <= start && 0 <= timeout && Legal(Start(size, start), run, timeout)
    requires var w := Play(Start(size, start), run, timeout).window;
      id % TWO_32 in w.buffer && w.buffer[id % TWO_32].id == id
    ensures Selections(Start(size, start), run + [Acknowledge(id % TWO_32)] + more, id, timeout)
         == Selections(Start(size, start), run, id, timeout)
  {
    var h, acked := Start(size, start), run + [Acknowledge(id % TWO_32)];
    RunSpaced(size, start, run, id, timeout);
    assert acked[..|acked| - 1] == run;
    AckLeaves(Play(h, run, timeout).window, id % TWO_32);
    SettledForever(h, acked, more, id, timeout);
  }
}
