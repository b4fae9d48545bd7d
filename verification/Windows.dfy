/** The Lab 2 sliding window on wrapping uint32 sequence numbers. */
module Windows {
  import opened Basics
  import opened GoInts
  import opened PacketCodec

  function Plus32(a: uint32, i: int): uint32 { (a + i) % TWO_32 }

  /** `a - b` on uint32: how far `a` lies ahead of `b`. */
  function Minus32(a: uint32, b: uint32): uint32 { (a - b) % TWO_32 }

  /** The fields of a window at one moment. */
  datatype Window<P> = Window(
    base: uint32, next: uint32, size: uint16, buffer: map<uint32, P>, acked: map<uint32, bool>)

  function New<P>(size: uint16): Window<P> { Window(0, 0, size, map[], map[]) }

  predicate IsAcked(acked: map<uint32, bool>, s: uint32) { s in acked && acked[s] }

  function AckedSet(acked: map<uint32, bool>): set<uint32> { set s | s in acked && acked[s] }

  predicate CanSend<P>(w: Window<P>) { Minus32(w.next, w.base) < w.size }

  function Add<P>(w: Window<P>, s: uint32, p: P): Window<P> {
    w.(buffer := w.buffer[s := p], next := Plus32(w.next, 1))
  }

  function Drop<P>(w: Window<P>): Window<P> {
    w.(base := Plus32(w.base, 1), buffer := w.buffer - {w.base}, acked := w.acked - {w.base})
  }

  lemma DropShrinks<P>(w: Window<P>)
    requires IsAcked(w.acked, w.base)
    ensures |AckedSet(Drop(w).acked)| < |AckedSet(w.acked)|
  {
    assert AckedSet(Drop(w).acked) == AckedSet(w.acked) - {w.base};
  }

  /** The sliding loop, from any state at all. */
  function Slide<P>(w: Window<P>): Window<P>
    decreases |AckedSet(w.acked)|
  {
    if IsAcked(w.acked, w.base) then
      DropShrinks(w);
      Slide(Drop(w))
    else w
  }

  function Mark<P>(w: Window<P>, s: uint32): Window<P> { w.(acked := w.acked[s := true]) }

  function Ack<P>(w: Window<P>, s: uint32): Window<P> { Slide(Mark(w, s)) }

  // ---------- modular arithmetic ----------

  lemma MinusAfterAdvance(s: uint32, b: uint32)
    ensures s != b ==> Minus32(s, Plus32(b, 1)) == Minus32(s, b) - 1
    ensures s == b ==> Minus32(s, Plus32(b, 1)) == TWO_32 - 1 && Minus32(s, b) == 0
    ensures Minus32(s, b) == 0 ==> s == b
  {
  }

  lemma MinusOfNext(n: uint32, b: uint32)
    requires Minus32(n, b) < TWO_32 - 1
    ensures Minus32(Plus32(n, 1), b) == Minus32(n, b) + 1
  {
  }

  lemma PlusPlus(a: uint32, i: int, j: int)
    ensures Plus32(Plus32(a, i), j) == Plus32(a, i + j)
  {
  }

  lemma MinusIsPlus(s: uint32, b: uint32)
    ensures Plus32(b, Minus32(s, b)) == s
  {
  }

  lemma MinusOfPlus(b: uint32, i: nat)
    requires i < TWO_32
    ensures Minus32(Plus32(b, i), b) == i
  {
  }

  // ---------- the window invariant ----------

  function InFlight<P>(w: Window<P>): uint32 { Minus32(w.next, w.base) }

  /** The buffer holds exactly the modular interval [base, next), no longer than the window. */
  ghost predicate Interval<P>(w: Window<P>) {
    && InFlight(w) <= w.size
    && (forall s: uint32 :: s in w.buffer <==> Minus32(s, w.base) < InFlight(w))
    && (forall s :: s in w.acked ==> w.acked[s] && s in w.buffer)
  }

  ghost predicate Inv<P>(w: Window<P>) {
    Interval(w) && w.base !in w.acked
  }

  lemma NewInv<P>(size: uint16)
    ensures Inv(New<P>(size))
  {
  }

  lemma DropInterval<P>(w: Window<P>)
    requires Interval(w) && w.base in w.acked
    ensures Interval(Drop(w)) && InFlight(Drop(w)) == InFlight(w) - 1
  {
    var w' := Drop(w);
    MinusAfterAdvance(w.next, w.base);
    assert Minus32(w.base, w.base) < InFlight(w);
    forall s: uint32 ensures s in w'.buffer <==> Minus32(s, w'.base) < InFlight(w') {
      MinusAfterAdvance(s, w.base);
    }
  }

  lemma {:induction false} SlideInv<P>(w: Window<P>)
    requires Interval(w)
    ensures Inv(Slide(w))
    decreases |AckedSet(w.acked)|
  {
    if IsAcked(w.acked, w.base) {
      DropShrinks(w);
      DropInterval(w);
      SlideInv(Drop(w));
    }
  }

  /** `AddPacket` keeps the invariant exactly when the window is open and the packet is next in sequence. */
  lemma AddExact<P>(w: Window<P>, s: uint32, p: P)
    requires Inv(w)
    ensures Inv(Add(w, s, p)) <==> CanSend(w) && s == w.next
  {
    var w' := Add(w, s, p);
    MinusOfNext(w.next, w.base);
    if CanSend(w) && s == w.next {
      forall t: uint32 ensures t in w'.buffer <==> Minus32(t, w'.base) < InFlight(w') {
        SameDistance(t, w.next, w.base);
      }
    } else {
      assert w.next !in w.buffer;
      assert Inv(w') ==> (w.next in w'.buffer <==> Minus32(w.next, w.base) < InFlight(w'));
    }
  }

  lemma SameDistance(s: uint32, t: uint32, b: uint32)
    ensures Minus32(s, b) == Minus32(t, b) <==> s == t
  {
    MinusIsPlus(s, b);
    MinusIsPlus(t, b);
  }

  /** `AckPacket` keeps the invariant exactly when the acknowledged number is in flight. */
  lemma AckExact<P>(w: Window<P>, s: uint32)
    requires Inv(w)
    ensures Inv(Ack(w, s)) <==> s in w.buffer
  {
    var m := Mark(w, s);
    if s in w.buffer {
      assert Interval(m);
      SlideInv(m);
    } else if s != w.base {
      assert Slide(m) == m;
    } else {
      EmptyStall(w);
    }
  }

  /** Why the precondition matters: acknowledging the next number of an idle window moves base past next and
      closes the window although nothing is in flight. */
  lemma EmptyStall<P>(w: Window<P>)
    requires Inv(w) && w.base !in w.buffer
    ensures var w' := Ack(w, w.base); !Inv(w') && !CanSend(w') && w'.next != w'.base
  {
    assert InFlight(w) == 0 by {
      assert Minus32(w.base, w.base) == 0;
    }
    assert forall s :: s in w.acked ==> s in w.buffer;
    assert w.acked.Keys == {};
    var m := Mark(w, w.base);
    var d := Drop(m);
    assert d.acked == map[];
    assert Slide(d) == d;
    assert Slide(m) == d by {
      DropShrinks(m);
    }
    MinusAfterAdvance(w.next, w.base);
  }

  // ---------- acknowledgements in any order ----------

  function AckAll<P>(w: Window<P>, xs: seq<uint32>): Window<P> {
    if xs == [] then w else Ack(AckAll(w, xs[..|xs| - 1]), xs[|xs| - 1])
  }

  function MarkAll<P>(w: Window<P>, xs: seq<uint32>): Window<P> {
    if xs == [] then w else Mark(MarkAll(w, xs[..|xs| - 1]), xs[|xs| - 1])
  }

  predicate Fresh<P>(w: Window<P>, xs: seq<uint32>) {
    && (forall i :: 0 <= i < |xs| ==> !IsAcked(w.acked, xs[i]))
    && (forall i, j :: 0 <= i < j < |xs| ==> xs[i] != xs[j])
  }

  /** Sliding first and marking a new number after, or marking first: one more slide makes no difference. */
  lemma {:induction false} SlideMark<P>(w: Window<P>, x: uint32)
    requires !IsAcked(w.acked, x)
    ensures Slide(Mark(Slide(w), x)) == Slide(Mark(w, x))
    ensures forall s :: IsAcked(Slide(w).acked, s) ==> IsAcked(w.acked, s)
    decreases |AckedSet(w.acked)|
  {
    if IsAcked(w.acked, w.base) {
      DropShrinks(w);
      SlideMark(Drop(w), x);
      DropShrinks(Mark(w, x));
      assert Drop(Mark(w, x)) == Mark(Drop(w), x);
    }
  }

  lemma {:induction false} MarkAllAcked<P>(w: Window<P>, xs: seq<uint32>)
    ensures var m := MarkAll(w, xs); m.base == w.base && m.next == w.next && m.size == w.size && m.buffer == w.buffer
    ensures forall s :: s in MarkAll(w, xs).acked <==> s in w.acked || s in xs
    ensures forall s :: s in MarkAll(w, xs).acked ==>
              MarkAll(w, xs).acked[s] == (if s in xs then true else w.acked[s])
  {
    if xs != [] {
      var n := |xs| - 1;
      MarkAllAcked(w, xs[..n]);
      assert xs == xs[..n] + [xs[n]];
    }
  }

  /** Acknowledging one by one, sliding every time, is marking everything and sliding once. */
  lemma {:induction false} AckAllIsOneSlide<P>(w: Window<P>, xs: seq<uint32>)
    requires Fresh(w, xs) && xs != []
    ensures AckAll(w, xs) == Slide(MarkAll(w, xs))
  {
    var n := |xs| - 1;
    if n == 0 {
      assert AckAll(w, xs[..0]) == w && MarkAll(w, xs[..0]) == w;
    } else {
      AckAllIsOneSlide(w, xs[..n]);
      MarkAllAcked(w, xs[..n]);
      var m := MarkAll(w, xs[..n]);
      assert !IsAcked(m.acked, xs[n]);
      SlideMark(m, xs[n]);
    }
  }

  lemma EmptyTogether(xs: seq<uint32>, ys: seq<uint32>)
    requires forall s :: s in xs <==> s in ys
    ensures xs == [] <==> ys == []
  {
    if |xs| > 0 {
      assert xs[0] in xs;
    }
    if |ys| > 0 {
      assert ys[0] in ys;
    }
  }

  lemma MarkAllOrder<P>(w: Window<P>, xs: seq<uint32>, ys: seq<uint32>)
    requires forall s :: s in xs <==> s in ys
    ensures MarkAll(w, xs) == MarkAll(w, ys)
  {
    MarkAllAcked(w, xs);
    MarkAllAcked(w, ys);
    var a, b := MarkAll(w, xs).acked, MarkAll(w, ys).acked;
    assert forall s :: s in a <==> s in b;
    assert a == b;
  }

  /** Main result: from any state, distinct new acknowledgements lead to the same state in every order. */
  lemma AckConfluence<P>(w: Window<P>, xs: seq<uint32>, ys: seq<uint32>)
    requires Fresh(w, xs) && Fresh(w, ys)
    requires forall s :: s in xs <==> s in ys
    ensures AckAll(w, xs) == AckAll(w, ys)
  {
    EmptyTogether(xs, ys);
    if xs != [] {
      AckAllIsOneSlide(w, xs);
      AckAllIsOneSlide(w, ys);
      MarkAllOrder(w, xs, ys);
    }
  }

  // ---------- where the window ends up ----------

  /** The first `m` sequence numbers from `b` on. */
  function Run(b: uint32, m: nat): set<uint32> {
    if m == 0 then {} else Run(b, m - 1) + {Plus32(b, m - 1)}
  }

  lemma {:induction false} RunMembers(b: uint32, m: nat)
    requires m <= TWO_32
    ensures forall s: uint32 :: s in Run(b, m) <==> Minus32(s, b) < m
    ensures |Run(b, m)| == m
  {
    if m > 0 {
      RunMembers(b, m - 1);
      MinusOfPlus(b, m - 1);
      forall s: uint32 ensures s in Run(b, m) <==> Minus32(s, b) < m {
        SameDistance(s, Plus32(b, m - 1), b);
      }
    }
  }

  lemma {:induction false} RunFromNext(b: uint32, m: nat)
    ensures Run(b, m + 1) == {b} + Run(Plus32(b, 1), m)
  {
    if m == 0 {
      assert Run(b, 1) == Run(b, 0) + {Plus32(b, 0)};
    } else {
      RunFromNext(b, m - 1);
      PlusPlus(b, 1, m - 1);
    }
  }

  /** How far the loop slides. */
  function SlideLength<P>(w: Window<P>): nat
    decreases |AckedSet(w.acked)|
  {
    if IsAcked(w.acked, w.base) then
      DropShrinks(w);
      1 + SlideLength(Drop(w))
    else 0
  }

  /** The window with its first `m` numbers gone. */
  function Cut<P>(w: Window<P>, m: nat): Window<P> {
    w.(base := Plus32(w.base, m), buffer := w.buffer - Run(w.base, m), acked := w.acked - Run(w.base, m))
  }

  lemma CutDrop<P>(w: Window<P>, m: nat)
    ensures Cut(Drop(w), m) == Cut(w, m + 1)
  {
    RunFromNext(w.base, m);
    PlusPlus(w.base, 1, m);
    assert Drop(w).buffer - Run(Drop(w).base, m) == w.buffer - Run(w.base, m + 1);
    assert Drop(w).acked - Run(Drop(w).base, m) == w.acked - Run(w.base, m + 1);
  }

  lemma {:induction false} SlideCuts<P>(w: Window<P>)
    ensures Slide(w) == Cut(w, SlideLength(w))
    decreases |AckedSet(w.acked)|
  {
    if IsAcked(w.acked, w.base) {
      DropShrinks(w);
      SlideCuts(Drop(w));
      CutDrop(w, SlideLength(Drop(w)));
    } else {
      assert w.buffer - Run(w.base, 0) == w.buffer && w.acked - Run(w.base, 0) == w.acked;
    }
  }

  /** The loop removes exactly the maximal run of acknowledged numbers at the base. */
  lemma {:induction false} SlideMaximal<P>(w: Window<P>)
    ensures forall i :: 0 <= i < SlideLength(w) ==> IsAcked(w.acked, Plus32(w.base, i))
    ensures !IsAcked(Slide(w).acked, Slide(w).base)
    decreases |AckedSet(w.acked)|
  {
    if IsAcked(w.acked, w.base) {
      var d := Drop(w);
      DropShrinks(w);
      SlideMaximal(d);
      forall i | 0 <= i < SlideLength(w) ensures IsAcked(w.acked, Plus32(w.base, i)) {
        if i > 0 {
          PlusPlus(w.base, 1, i - 1);
          assert IsAcked(d.acked, Plus32(d.base, i - 1));
        }
      }
    }
  }

  /** Main result: after distinct acknowledgements of packets in flight, in whatever order, base is the first
      number not acknowledged, and exactly the numbers before it have left the buffer. */
  lemma FirstUnacknowledged<P>(w: Window<P>, xs: seq<uint32>) returns (m: nat)
    requires Inv(w) && Fresh(w, xs)
    requires forall i :: 0 <= i < |xs| ==> xs[i] in w.buffer
    ensures var w' := AckAll(w, xs);
      && Inv(w')
      && w'.base == Plus32(w.base, m) && m <= InFlight(w)
      && (forall i :: 0 <= i < m ==> Plus32(w.base, i) in w.acked || Plus32(w.base, i) in xs)
      && w'.base !in w.acked && w'.base !in xs
      && w'.buffer == w.buffer - Run(w.base, m)
      && w'.acked.Keys == (w.acked.Keys + set x | x in xs) - Run(w.base, m)
  {
    if xs == [] {
      m := 0;
      assert w.buffer - Run(w.base, 0) == w.buffer;
      assert w.acked.Keys == (w.acked.Keys + set x | x in xs) - Run(w.base, 0);
    } else {
      AckAllIsOneSlide(w, xs);
      MarkAllAcked(w, xs);
      var marked := MarkAll(w, xs);
      assert Interval(marked);
      SlideInv(marked);
      SlideCuts(marked);
      SlideMaximal(marked);
      m := SlideLength(marked);
      SlideWithinFlight(marked);
      assert w.acked.Keys + (set x | x in xs) == marked.acked.Keys;
      RunMembers(w.base, m);
      MinusOfPlus(w.base, m);
    }
  }

  lemma {:induction false} SlideWithinFlight<P>(w: Window<P>)
    requires Interval(w)
    ensures SlideLength(w) <= InFlight(w)
    decreases |AckedSet(w.acked)|
  {
    if IsAcked(w.acked, w.base) {
      DropShrinks(w);
      DropInterval(w);
      SlideWithinFlight(Drop(w));
    }
  }

  // ---------- runs ----------

  datatype Action<P> = Send(packet: P) | Receive(ack: uint32)

  function Act<P>(w: Window<P>, a: Action<P>): Window<P> {
    match a
    case Send(p) => Add(w, w.next, p)
    case Receive(s) => Ack(w, s)
  }

  /** The two guards: the caller tests `CanSend`, and only packets in flight are acknowledged. */
  predicate Guarded<P>(w: Window<P>, a: Action<P>) {
    match a
    case Send(_) => CanSend(w)
    case Receive(s) => s in w.buffer
  }

  function Play<P>(size: uint16, run: seq<Action<P>>): Window<P> {
    if run == [] then New(size) else Act(Play(size, run[..|run| - 1]), run[|run| - 1])
  }

  predicate Legal<P>(size: uint16, run: seq<Action<P>>) {
    run == [] || (Legal(size, run[..|run| - 1]) && Guarded(Play(size, run[..|run| - 1]), run[|run| - 1]))
  }

  function Sent<P>(run: seq<Action<P>>): nat {
    if run == [] then 0 else Sent(run[..|run| - 1]) + if run[|run| - 1].Send? then 1 else 0
  }

  lemma InFlightIsBuffered<P>(w: Window<P>)
    requires Interval(w)
    ensures |w.buffer| == InFlight(w)
  {
    RunMembers(w.base, InFlight(w));
    assert w.buffer.Keys == Run(w.base, InFlight(w));
  }

  /** The window is open exactly when the buffer has room. */
  lemma OpenExact<P>(w: Window<P>)
    requires Inv(w)
    ensures CanSend(w) <==> |w.buffer| < w.size
  {
    InFlightIsBuffered(w);
  }

  lemma AckAccounting<P>(w: Window<P>, s: uint32)
    requires Inv(w) && s in w.buffer
    ensures Inv(Ack(w, s)) && Ack(w, s).next == w.next
    ensures Ack(w, s).base == Plus32(w.base, SlideLength(Mark(w, s)))
    ensures |Ack(w, s).buffer| + SlideLength(Mark(w, s)) == |w.buffer|
  {
    var marked := Mark(w, s);
    assert Interval(marked);
    SlideInv(marked);
    SlideCuts(marked);
    InFlightIsBuffered(w);
    InFlightIsBuffered(Ack(w, s));
    SlideAdvance(marked);
  }

  lemma {:induction false} SlideAdvance<P>(w: Window<P>)
    requires Interval(w)
    ensures InFlight(Slide(w)) + SlideLength(w) == InFlight(w)
    decreases |AckedSet(w.acked)|
  {
    if IsAcked(w.acked, w.base) {
      DropShrinks(w);
      DropInterval(w);
      SlideAdvance(Drop(w));
    }
  }

  /** `sent` packets sent, `slid` slots slid past. */
  ghost predicate RunInv<P>(w: Window<P>, size: uint16, sent: nat, slid: nat) {
    && Inv(w) && w.size == size
    && sent == slid + |w.buffer|
    && w.base == slid % TWO_32 && w.next == sent % TWO_32
    && |w.buffer| <= size
  }

  lemma SendKeepsRunInv<P>(w: Window<P>, size: uint16, sent: nat, slid: nat, p: P)
    requires RunInv(w, size, sent, slid) && CanSend(w)
    ensures RunInv(Add(w, w.next, p), size, sent + 1, slid)
  {
    AddExact(w, w.next, p);
    InFlightIsBuffered(w);
    InFlightIsBuffered(Add(w, w.next, p));
    MinusOfNext(w.next, w.base);
    PlusPlus(0, sent, 1);
  }

  lemma AckKeepsRunInv<P>(w: Window<P>, size: uint16, sent: nat, slid: nat, s: uint32)
    requires RunInv(w, size, sent, slid) && s in w.buffer
    ensures RunInv(Ack(w, s), size, sent, slid + SlideLength(Mark(w, s)))
  {
    var m := SlideLength(Mark(w, s));
    AckAccounting(w, s);
    assert Ack(w, s).base == (slid + m) % TWO_32 by {
      assert w.base == Plus32(0, slid);
      PlusPlus(0, slid, m);
    }
    assert Ack(w, s).size == w.size by {
      SlideCuts(Mark(w, s));
    }
  }

  /** Main result on runs: after any number of guarded sends and acknowledgements, wrap-around included, the
      window is a valid interval, and packets sent = slots slid past + packets buffered, with the two
      uint32 fields the low 32 bits of the first two counts. */
  lemma {:induction false} WindowRun<P>(size: uint16, run: seq<Action<P>>) returns (slid: nat)
    requires Legal(size, run)
    ensures RunInv(Play(size, run), size, Sent(run), slid)
  {
    if run == [] {
      slid := 0;
    } else {
      var n := |run| - 1;
      var w := Play(size, run[..n]);
      slid := WindowRun(size, run[..n]);
      match run[n] {
        case Send(p) =>
          SendKeepsRunInv(w, size, Sent(run[..n]), slid, p);
        case Receive(s) =>
          AckKeepsRunInv(w, size, Sent(run[..n]), slid, s);
          slid := slid + SlideLength(Mark(w, s));
      }
    }
  }

  // ---------- listing what is unacknowledged ----------

  /** The loop of `GetUnackedPackets` from `s` on: its bound is a plain comparison, not a modular one. */
  function Collect<P>(w: Window<P>, s: uint32): seq<P>
    decreases w.next - s
  {
    if s >= w.next then []
    else (if s in w.buffer then [w.buffer[s]] else []) + Collect(w, s + 1)
  }

  lemma {:induction false} CollectFrom<P>(w: Window<P>, s: uint32)
    requires Inv(w) && w.base <= s <= w.next
    ensures |Collect(w, s)| == w.next - s
    ensures forall i :: 0 <= i < w.next - s ==> s + i in w.buffer && Collect(w, s)[i] == w.buffer[s + i]
    decreases w.next - s
  {
    if s < w.next {
      CollectFrom(w, s + 1);
      assert Minus32(s, w.base) == s - w.base;
    }
  }

  lemma AckedAreBuffered<P>(w: Window<P>)
    requires Inv(w)
    ensures |w.acked| == 0 <==> w.acked == map[]
    ensures w.buffer != map[] ==> |w.acked| < |w.buffer|
  {
    assert w.acked.Keys == {} <==> w.acked == map[];
    if w.buffer != map[] {
      var s :| s in w.buffer;
      assert w.base in w.buffer by {
        assert Minus32(w.base, w.base) == 0;
      }
      SubsetSize(w.acked.Keys, w.buffer.Keys - {w.base});
    }
  }

  /** A wrapped window: two packets in flight, none acknowledged, none listed. */
  lemma WrappedListsNothing<P>(p: P, q: P)
    ensures var w := Window(0xFFFF_FFFF, 1, 2, map[0xFFFF_FFFF := p, 0 := q], map[]);
      Inv(w) && |w.buffer| == 2 && Collect(w, w.base) == []
  {
    var w := Window(0xFFFF_FFFF, 1, 2, map[0xFFFF_FFFF := p, 0 := q], map[]);
    assert w.buffer.Keys == {0xFFFF_FFFF, 0};
    forall s: uint32 ensures s in w.buffer <==> Minus32(s, w.base) < 2 {
      MinusIsPlus(s, w.base);
    }
  }

  /** `GetUnackedPackets` lists the whole buffer, in sequence, if and only if the window has not wrapped. */
  lemma UnackedExact<P>(w: Window<P>)
    requires Inv(w)
    ensures |Collect(w, w.base)| == |w.buffer| <==> w.base <= w.next
    ensures w.base <= w.next ==> forall i :: 0 <= i < |w.buffer| ==>
              w.base + i in w.buffer && Collect(w, w.base)[i] == w.buffer[w.base + i]
    ensures w.base > w.next ==> Collect(w, w.base) == [] && w.buffer != map[]
  {
    InFlightIsBuffered(w);
    if w.base <= w.next {
      CollectFrom(w, w.base);
    }
  }

  /** It lists as many packets as are unacknowledged if and only if the window has not wrapped and none behind the
      first has been acknowledged. */
  lemma UnackedOnlyExact<P>(w: Window<P>)
    requires Inv(w)
    ensures |Collect(w, w.base)| == |w.buffer| - |w.acked| <==> w.base <= w.next && w.acked == map[]
  {
    hide Collect, Inv;
    UnackedExact(w);
    AckedAreBuffered(w);
  }

  // ---------- retransmission ----------

  /** `now - stamp > timeout` on int64. */
  predicate Overdue(stamp: int64, now: int64, timeout: int64) {
    WrapInt64(now - stamp) > timeout
  }

  /** On times that do not run backwards from 0 the difference is exact. */
  lemma OverdueExact(stamp: int64, now: int64, timeout: int64)
    requires 0 <= stamp <= now
    ensures Overdue(stamp, now, timeout) <==> now - stamp > timeout
  {
  }

  // ---------- the window object ----------

  class SlidingWindow {
    var baseSeq: uint32
    var nextSeq: uint32
    var windowSize: uint16
    var buffer: map<uint32, Packet>
    var acked: map<uint32, bool>

    function State(): Window<Packet>
      reads this
    {
      Window(baseSeq, nextSeq, windowSize, buffer, acked)
    }

    /** Every packet sits under its own sequence number, so no object is buffered twice. */
    ghost predicate Keyed()
      reads this
    {
      forall s :: s in buffer ==> buffer[s].seqNum == s
    }

    ghost predicate Valid()
      reads this
    {
      Inv(State()) && Keyed()
    }

    constructor (size: uint16)
      ensures State() == New(size) && Valid()
    {
      baseSeq, nextSeq, windowSize, buffer, acked := 0, 0, size, map[], map[];
      new;
      NewInv<Packet>(size);
    }

    method CanSendNow() returns (open: bool)
      ensures open <==> CanSend(State())
    {
      open := (nextSeq - baseSeq) % TWO_32 < windowSize;
    }

    method AddPacket(p: Packet)
      modifies this
      ensures State() == Add(old(State()), p.seqNum, p)
      ensures old(Keyed()) ==> Keyed()
      ensures old(Valid()) ==> (Valid() <==> CanSend(old(State())) && p.seqNum == old(nextSeq))
    {
      ghost var before := State();
      ghost var wasValid := Valid();
      buffer := buffer[p.seqNum := p];
      nextSeq := (nextSeq + 1) % TWO_32;
      if wasValid {
        AddExact(before, p.seqNum, p);
      }
    }

    /** The sliding loop ends from any state: each turn removes an acknowledged number. */
    method AckPacket(s: uint32)
      modifies this
      ensures State() == Ack(old(State()), s)
      ensures old(Keyed()) ==> Keyed()
      ensures old(Valid()) ==> (Valid() <==> s in old(buffer))
    {
      ghost var before := State();
      ghost var wasKeyed, wasValid := Keyed(), Valid();
      acked := acked[s := true];
      while IsAcked(acked, baseSeq)
        invariant Slide(State()) == Slide(Mark(before, s))
        invariant windowSize == before.size && nextSeq == before.next
        invariant wasKeyed ==> Keyed()
        decreases |AckedSet(acked)|
      {
        DropShrinks(State());
        buffer := buffer - {baseSeq};
        acked := acked - {baseSeq};
        baseSeq := (baseSeq + 1) % TWO_32;
      }
      if wasValid {
        AckExact(before, s);
      }
    }

    method GetUnackedPackets() returns (packets: seq<Packet>)
      ensures packets == Collect(State(), baseSeq)
    {
      packets := [];
      var s := baseSeq;
      while s < nextSeq
        invariant baseSeq <= s && (s <= nextSeq || s == baseSeq)
        invariant packets + Collect(State(), s) == Collect(State(), baseSeq)
        decreases nextSeq - s
      {
        if s in buffer {
          packets := packets + [buffer[s]];
        }
        s := s + 1;
      }
    }

    /** Selects exactly the buffered, unacknowledged, overdue packets, each once, and stamps only those. */
    method GetRetransmissionPackets(now: int64, timeout: int64) returns (packets: seq<Packet>)
      requires Keyed()
      modifies set s | s in buffer :: buffer[s]`timestamp
      ensures forall p :: p in packets <==>
                exists s :: s in buffer && buffer[s] == p && !IsAcked(acked, s) && Overdue(old(p.timestamp), now, timeout)
      ensures forall i, j :: 0 <= i < j < |packets| ==> packets[i] != packets[j]
      ensures forall s :: s in buffer ==>
                buffer[s].timestamp == if !IsAcked(acked, s) && Overdue(old(buffer[s].timestamp), now, timeout) then now
                                       else old(buffer[s].timestamp)
    {
      hide Overdue;
      packets := [];
      var todo := buffer.Keys;
      while todo != {}
        invariant todo <= buffer.Keys
        invariant forall i :: 0 <= i < |packets| ==>
                    var s := packets[i].seqNum;
                    && s in buffer && s !in todo && buffer[s] == packets[i]
                    && !IsAcked(acked, s) && Overdue(old(packets[i].timestamp), now, timeout)
        invariant forall s :: (s in buffer && s !in todo && !IsAcked(acked, s)
                     && Overdue(old(buffer[s].timestamp), now, timeout)) ==> buffer[s] in packets
        invariant forall i, j :: 0 <= i < j < |packets| ==> packets[i] != packets[j]
        invariant forall s :: s in buffer ==>
                    buffer[s].timestamp ==
                      if s !in todo && !IsAcked(acked, s) && Overdue(old(buffer[s].timestamp), now, timeout) then now
                      else old(buffer[s].timestamp)
        decreases todo
      {
        var s :| s in todo;
        var p := buffer[s];
        if !IsAcked(acked, s) && Overdue(p.timestamp, now, timeout) {
          packets := packets + [p];
          p.timestamp := now;
        }
        todo := todo - {s};
      }
    }
  }
}
