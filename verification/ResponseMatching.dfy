/** Request/response matching of the Lab 4 client as a step system: any number of `SendRequest` calls and
    `listenResponses` goroutines interleave over the `responses` map, its lock and the response channels. */
module ResponseMatching {

  /** What `parseResponse` yields; `tag` stands for everything but the id. */
  datatype Response = Response(id: string, tag: nat)

  datatype Result = Got(response: Response) | Failed

  /** Where one `SendRequest` call stands. */
  datatype RequestPc =
    | Starting                    // before Lock
    | Inserting                   // holds the write lock
    | Inserted                    // before Unlock
    | Sending                     // before conn.Write
    | Waiting                     // in the select
    | Leaving(result: Result)     // deferred function, before Lock
    | Deleting(result: Result)    // holds the write lock
    | Deleted(result: Result)     // before Unlock
    | Closing(result: Result)     // before close
    | Done(result: Result)

  /** Where one `listenResponses` goroutine stands. */
  datatype ListenerPc =
    | Reading
    | Parsed(response: Response)                // before RLock
    | Locked(response: Response)                // before the map lookup
    | Found(response: Response, chan: nat)      // before the non-blocking send
    | Unlocking                                 // before RUnlock

  /** A channel of capacity one. */
  datatype Channel = Channel(buffer: seq<Response>, closed: bool)

  datatype State = State(
    ids: seq<string>,
    requests: seq<RequestPc>, chans: seq<Channel>, responses: map<string, nat>,
    listeners: seq<ListenerPc>, readers: set<nat>, writers: set<nat>,
    // history, per request: values taken from its channel, and sends offered to its channel
    taken: seq<nat>, offers: seq<nat>)

  datatype Step =
    | Lock(r: nat) | Insert(r: nat) | Unlock(r: nat) | Write(r: nat, ok: bool)
    | Take(r: nat) | GiveUp(r: nat)
    | LockAgain(r: nat) | Delete(r: nat) | UnlockAgain(r: nat) | Close(r: nat)
    | Receive(l: nat, response: Response) | RLock(l: nat) | Lookup(l: nat) | Offer(l: nat) | RUnlock(l: nat)

  predicate IsListenerStep(step: Step) {
    step.Receive? || step.RLock? || step.Lookup? || step.Offer? || step.RUnlock?
  }

  predicate Distinct(ids: seq<string>) {
    forall i, j :: 0 <= i < j < |ids| ==> ids[i] != ids[j]
  }

  predicate LockFree(s: State) { s.readers == {} && s.writers == {} }

  predicate Shape(s: State) {
    && |s.requests| == |s.ids| == |s.chans| == |s.taken| == |s.offers|
    && Distinct(s.ids)
    && (forall l :: 0 <= l < |s.listeners| && s.listeners[l].Found? ==> s.listeners[l].chan < |s.ids|)
    && (forall id :: id in s.responses ==> s.responses[id] < |s.ids|)
  }

  /** Can `step` be taken?  The non-blocking send of a listener always can, even on a closed channel. */
  predicate Enabled(s: State, step: Step)
    requires Shape(s)
  {
    if IsListenerStep(step) then
      && step.l < |s.listeners|
      && match step
         case Receive(l, _) => s.listeners[l].Reading?
         case RLock(l) => s.listeners[l].Parsed? && s.writers == {}
         case Lookup(l) => s.listeners[l].Locked?
         case Offer(l) => s.listeners[l].Found?
         case _ => s.listeners[step.l].Unlocking?
    else
      && step.r < |s.requests|
      && match step
         case Lock(r) => s.requests[r].Starting? && LockFree(s)
         case Insert(r) => s.requests[r].Inserting?
         case Unlock(r) => s.requests[r].Inserted?
         case Write(r, _) => s.requests[r].Sending?
         case Take(r) => s.requests[r].Waiting? && s.chans[r].buffer != []
         case GiveUp(r) => s.requests[r].Waiting?
         case LockAgain(r) => s.requests[r].Leaving? && LockFree(s)
         case Delete(r) => s.requests[r].Deleting?
         case UnlockAgain(r) => s.requests[r].Deleted?
         case _ => s.requests[step.r].Closing?
  }

  /** The runtime panics of the source: sending on a closed channel, closing one twice. */
  predicate Panics(s: State, step: Step)
    requires Shape(s) && Enabled(s, step)
  {
    match step
    case Offer(l) => s.chans[s.listeners[l].chan].closed
    case Close(r) => s.chans[r].closed
    case _ => false
  }

  function Request(s: State, r: nat, pc: RequestPc): State
    requires r < |s.requests|
  {
    s.(requests := s.requests[r := pc])
  }

  function Listener(s: State, l: nat, pc: ListenerPc): State
    requires l < |s.listeners|
  {
    s.(listeners := s.listeners[l := pc])
  }

  function Apply(s: State, step: Step): State
    requires Shape(s) && Enabled(s, step)
  {
    match step
    case Lock(r) => Request(s, r, Inserting).(writers := s.writers + {r})
    case Insert(r) => Request(s, r, Inserted).(responses := s.responses[s.ids[r] := r])
    case Unlock(r) => Request(s, r, Sending).(writers := s.writers - {r})
    case Write(r, ok) => Request(s, r, if ok then Waiting else Leaving(Failed))
    case Take(r) =>
      var c := s.chans[r];
      Request(s, r, Leaving(Got(c.buffer[0]))).(
        chans := s.chans[r := c.(buffer := c.buffer[1..])], taken := s.taken[r := s.taken[r] + 1])
    case GiveUp(r) => Request(s, r, Leaving(Failed))
    case LockAgain(r) => Request(s, r, Deleting(s.requests[r].result)).(writers := s.writers + {r})
    case Delete(r) => Request(s, r, Deleted(s.requests[r].result)).(responses := s.responses - {s.ids[r]})
    case UnlockAgain(r) => Request(s, r, Closing(s.requests[r].result)).(writers := s.writers - {r})
    case Close(r) => Request(s, r, Done(s.requests[r].result)).(chans := s.chans[r := s.chans[r].(closed := true)])
    case Receive(l, response) => Listener(s, l, Parsed(response))
    case RLock(l) => Listener(s, l, Locked(s.listeners[l].response)).(readers := s.readers + {l})
    case Lookup(l) =>
      var response := s.listeners[l].response;
      if response.id in s.responses
      then Listener(s, l, Found(response, s.responses[response.id]))
      else Listener(s, l, Unlocking)
    case Offer(l) =>
      var Found(response, k) := s.listeners[l];
      var c := s.chans[k];
      var s' := Listener(s, l, Unlocking).(offers := s.offers[k := s.offers[k] + 1]);
      if c.buffer == [] then s'.(chans := s.chans[k := c.(buffer := [response])]) else s'
    case RUnlock(l) => Listener(s, l, Reading).(readers := s.readers - {l})
  }

  // ---------- invariants ----------

  /** Between its insert and its delete a request is in the map. */
  predicate Listed(pc: RequestPc) {
    pc.Inserted? || pc.Sending? || pc.Waiting? || pc.Leaving? || pc.Deleting?
  }

  predicate HoldsWrite(pc: RequestPc) {
    pc.Inserting? || pc.Inserted? || pc.Deleting? || pc.Deleted?
  }

  predicate HoldsRead(pc: ListenerPc) {
    pc.Locked? || pc.Found? || pc.Unlocking?
  }

  predicate Finishing(pc: RequestPc) {
    pc.Leaving? || pc.Deleting? || pc.Deleted? || pc.Closing? || pc.Done?
  }

  /** The lock: its holders are known, a writer excludes everyone else. */
  ghost predicate LockInv(s: State) {
    && (forall r :: r in s.writers <==> 0 <= r < |s.requests| && HoldsWrite(s.requests[r]))
    && (forall l :: l in s.readers <==> 0 <= l < |s.listeners| && HoldsRead(s.listeners[l]))
    && (s.writers != {} ==> s.readers == {})
    && (forall i, j :: i in s.writers && j in s.writers ==> i == j)
  }

  /** The map lists exactly the registered requests, each under its own id. */
  predicate MapInv(s: State)
    requires Shape(s)
  {
    && (forall r :: 0 <= r < |s.ids| && Listed(s.requests[r]) ==> MapsTo(s, r))
    && (forall id :: id in s.responses ==> Owned(s, id))
  }

  predicate MapsTo(s: State, r: nat)
    requires Shape(s) && r < |s.ids|
  {
    s.ids[r] in s.responses && s.responses[s.ids[r]] == r
  }

  predicate Owned(s: State, id: string)
    requires Shape(s) && id in s.responses
  {
    var r := s.responses[id];
    s.ids[r] == id && Listed(s.requests[r])
  }

  /** A listener about to send does so to the channel of the request with the response's id, still registered. */
  predicate FoundInv(s: State)
    requires Shape(s)
  {
    forall l :: 0 <= l < |s.listeners| && s.listeners[l].Found? ==> WellAimed(s, l)
  }

  predicate WellAimed(s: State, l: nat)
    requires Shape(s) && l < |s.listeners| && s.listeners[l].Found?
  {
    var Found(response, k) := s.listeners[l];
    s.ids[k] == response.id && Listed(s.requests[k])
  }

  predicate ChanInv(s: State)
    requires Shape(s)
  {
    forall r :: 0 <= r < |s.ids| ==> RequestInv(s, r)
  }

  predicate RequestInv(s: State, r: nat)
    requires Shape(s) && r < |s.ids|
  {
    var c, pc := s.chans[r], s.requests[r];
    && (c.closed <==> pc.Done?)
    && |c.buffer| <= 1
    && (c.buffer != [] ==> c.buffer[0].id == s.ids[r])
    && s.taken[r] == (if Finishing(pc) && pc.result.Got? then 1 else 0)
    && (Finishing(pc) && pc.result.Got? ==> pc.result.response.id == s.ids[r])
    && (s.offers[r] > 0 ==> |c.buffer| + s.taken[r] >= 1)
    && (s.offers[r] == 0 ==> c.buffer == [] && s.taken[r] == 0)
  }

  ghost predicate Inv(s: State) {
    Shape(s) && LockInv(s) && MapInv(s) && FoundInv(s) && ChanInv(s)
  }

  lemma ListenerStepLocks(s: State, step: Step)
    requires Inv(s) && Enabled(s, step) && IsListenerStep(step)
    ensures LockInv(Apply(s, step))
  {
  }

  lemma RequestStepLocks(s: State, step: Step)
    requires Inv(s) && Enabled(s, step) && !IsListenerStep(step)
    ensures LockInv(Apply(s, step))
  {
  }

  lemma ShapeKept(s: State, step: Step)
    requires Inv(s) && Enabled(s, step)
    ensures Shape(Apply(s, step))
  {
  }

  lemma ListedMapped(s: State, step: Step, r: nat)
    requires Inv(s) && Enabled(s, step) && r < |s.ids|
    ensures Shape(Apply(s, step)) && (Listed(Apply(s, step).requests[r]) ==> MapsTo(Apply(s, step), r))
  {
    hide LockInv, FoundInv, ChanInv;
    ShapeKept(s, step);
    if step.Insert? || step.Delete? {
      assert step.r != r ==> s.ids[step.r] != s.ids[r];
    } else {
      ListedBefore(s, step, r);
    }
  }

  lemma ListedBefore(s: State, step: Step, r: nat)
    requires Shape(s) && Enabled(s, step) && !step.Insert? && !step.Delete? && r < |s.ids|
    ensures Apply(s, step).responses == s.responses && Apply(s, step).ids == s.ids
    ensures r < |Apply(s, step).requests| && (Listed(Apply(s, step).requests[r]) <==> Listed(s.requests[r]))
  {
  }

  lemma MappedOwned(s: State, step: Step, id: string)
    requires Inv(s) && Enabled(s, step) && id in Apply(s, step).responses
    ensures Shape(Apply(s, step)) && Owned(Apply(s, step), id)
  {
    ShapeKept(s, step);
    if step.Insert? && id == s.ids[step.r] {
    } else {
      assert id in s.responses && Owned(s, id);
      assert Apply(s, step).responses[id] == s.responses[id];
    }
  }

  /** No request can leave the map while a listener holds the read lock. */
  lemma FoundKept(s: State, step: Step, l: nat)
    requires Inv(s) && Enabled(s, step) && l < |s.listeners| && Apply(s, step).listeners[l].Found?
    ensures Shape(Apply(s, step)) && WellAimed(Apply(s, step), l)
  {
    ShapeKept(s, step);
    if step.Lookup? && step.l == l {
      assert Owned(s, s.listeners[l].response.id);
    } else {
      assert s.listeners[l].Found? && WellAimed(s, l);
      assert l in s.readers;
      assert !step.Delete?;
    }
  }

  lemma OfferKept(s: State, l: nat, r: nat)
    requires Inv(s) && Enabled(s, Offer(l)) && r < |s.ids|
    ensures Shape(Apply(s, Offer(l))) && RequestInv(Apply(s, Offer(l)), r)
  {
    ShapeKept(s, Offer(l));
    assert RequestInv(s, r) && WellAimed(s, l);
  }

  lemma RequestKept(s: State, step: Step, r: nat)
    requires Inv(s) && Enabled(s, step) && r < |s.ids|
    ensures Shape(Apply(s, step)) && RequestInv(Apply(s, step), r)
  {
    ShapeKept(s, step);
    assert RequestInv(s, r);
    var s' := Apply(s, step);
    if step.Offer? {
      OfferKept(s, step.l, r);
    } else if IsListenerStep(step) || step.r != r {
      assert s'.requests[r] == s.requests[r] && s'.chans[r] == s.chans[r];
      assert s'.taken[r] == s.taken[r] && s'.offers[r] == s.offers[r];
    }
  }

  lemma InvKept(s: State, step: Step)
    requires Inv(s) && Enabled(s, step)
    ensures Inv(Apply(s, step)) && Apply(s, step).ids == s.ids
  {
    var s' := Apply(s, step);
    ShapeKept(s, step);
    if IsListenerStep(step) {
      ListenerStepLocks(s, step);
    } else {
      RequestStepLocks(s, step);
    }
    forall r | 0 <= r < |s'.ids| && Listed(s'.requests[r]) ensures MapsTo(s', r) {
      ListedMapped(s, step, r);
    }
    forall id | id in s'.responses ensures Owned(s', id) {
      MappedOwned(s, step, id);
    }
    forall l | 0 <= l < |s'.listeners| && s'.listeners[l].Found? ensures WellAimed(s', l) {
      FoundKept(s, step, l);
    }
    forall r | 0 <= r < |s'.ids| ensures RequestInv(s', r) {
      RequestKept(s, step, r);
    }
  }

  // ---------- runs ----------

  /** Calls with the given request ids, none begun, and `n` listeners. */
  function Initial(ids: seq<string>, n: nat): State {
    State(ids, seq(|ids|, _ => Starting), seq(|ids|, _ => Channel([], false)), map[],
          seq(n, _ => Reading), {}, {}, seq(|ids|, _ => 0), seq(|ids|, _ => 0))
  }

  ghost predicate Reaches(ids: seq<string>, n: nat, steps: seq<Step>, s: State)
    decreases |steps|
  {
    if steps == [] then s == Initial(ids, n)
    else
      var k := |steps| - 1;
      exists p :: Reaches(ids, n, steps[..k], p) && Shape(p) && Enabled(p, steps[k]) && s == Apply(p, steps[k])
  }

  ghost predicate Reachable(ids: seq<string>, n: nat, s: State) {
    exists steps :: Reaches(ids, n, steps, s)
  }

  lemma InitialInv(ids: seq<string>, n: nat)
    requires Distinct(ids)
    ensures Inv(Initial(ids, n))
  {
  }

  lemma {:induction false} InvInvariant(ids: seq<string>, n: nat, steps: seq<Step>, s: State)
    requires Distinct(ids) && Reaches(ids, n, steps, s)
    ensures Inv(s) && s.ids == ids
    decreases |steps|
  {
    if steps == [] {
      InitialInv(ids, n);
    } else {
      var k := |steps| - 1;
      var p :| Reaches(ids, n, steps[..k], p) && Shape(p) && Enabled(p, steps[k]) && s == Apply(p, steps[k]);
      var step := steps[k];
      InvInvariant(ids, n, steps[..k], p);
      InvKept(p, step);
    }
  }

  // ---------- main results ----------

  /** No reachable state allows a send on a closed channel or a second close. */
  lemma NoPanic(ids: seq<string>, n: nat, s: State, step: Step)
    requires Distinct(ids) && Reachable(ids, n, s)
    requires Shape(s) && Enabled(s, step)
    ensures !Panics(s, step)
  {
    var steps :| Reaches(ids, n, steps, s);
    InvInvariant(ids, n, steps, s);
    match step {
      case Offer(l) =>
        assert WellAimed(s, l);
        assert RequestInv(s, s.listeners[l].chan);
      case Close(r) =>
        assert RequestInv(s, r);
      case _ =>
    }
  }

  function ReaderStep(s: State, l: nat): Step
    requires l < |s.listeners| && HoldsRead(s.listeners[l])
  {
    match s.listeners[l]
    case Locked(_) => Lookup(l)
    case Found(_, _) => Offer(l)
    case Unlocking => RUnlock(l)
  }

  function WriterStep(s: State, r: nat): Step
    requires r < |s.requests| && HoldsWrite(s.requests[r])
  {
    match s.requests[r]
    case Inserting => Insert(r)
    case Inserted => Unlock(r)
    case Deleting(_) => Delete(r)
    case Deleted(_) => UnlockAgain(r)
  }

  lemma ReaderMoves(s: State, l: nat)
    requires Inv(s) && l in s.readers
    ensures l < |s.listeners| && HoldsRead(s.listeners[l]) && Enabled(s, ReaderStep(s, l))
  {
  }

  lemma WriterMoves(s: State, r: nat)
    requires Inv(s) && r in s.writers
    ensures r < |s.requests| && HoldsWrite(s.requests[r]) && Enabled(s, WriterStep(s, r))
  {
  }

  /** Nobody blocks while holding the lock: each holder's own next step is enabled. */
  lemma LockHoldersMove(ids: seq<string>, n: nat, s: State, i: nat)
    requires Distinct(ids) && Reachable(ids, n, s)
    ensures Shape(s)
    ensures i in s.readers ==>
              i < |s.listeners| && HoldsRead(s.listeners[i]) && Enabled(s, ReaderStep(s, i)) && s.writers == {}
    ensures i in s.writers ==>
              i < |s.requests| && HoldsWrite(s.requests[i]) && Enabled(s, WriterStep(s, i)) && s.writers == {i}
  {
    var steps :| Reaches(ids, n, steps, s);
    InvInvariant(ids, n, steps, s);
    if i in s.readers {
      ReaderMoves(s, i);
    }
    if i in s.writers {
      WriterMoves(s, i);
    }
  }

  /** No deadlock: while some call is unfinished, a step other than a new datagram's arrival is enabled. */
  lemma AlwaysProgress(ids: seq<string>, n: nat, s: State, r: nat) returns (step: Step)
    requires Distinct(ids) && Reachable(ids, n, s)
    requires r < |s.requests| && !s.requests[r].Done?
    ensures Shape(s) && Enabled(s, step) && !step.Receive?
  {
    var steps :| Reaches(ids, n, steps, s);
    InvInvariant(ids, n, steps, s);
    if s.readers != {} {
      var l :| l in s.readers;
      ReaderMoves(s, l);
      step := ReaderStep(s, l);
    } else if s.writers != {} {
      var w :| w in s.writers;
      WriterMoves(s, w);
      step := WriterStep(s, w);
    } else {
      step := match s.requests[r]
        case Starting => Lock(r)
        case Sending => Write(r, true)
        case Waiting => GiveUp(r)
        case Leaving(_) => LockAgain(r)
        case _ => Close(r);
    }
  }

  /** The call is over and returned a response. */
  predicate Returned(pc: RequestPc) {
    pc.Done? && pc.result.Got?
  }

  /** A call consumes at most one response, and only one that carries its own id; so no response reaches two. */
  lemma OwnResponseOnce(ids: seq<string>, n: nat, s: State, r: nat)
    requires Distinct(ids) && Reachable(ids, n, s) && r < |ids|
    ensures |s.requests| == |s.taken| == |ids|
    ensures s.taken[r] <= 1
    ensures s.requests[r].Done? && s.requests[r].result.Got? ==>
              s.taken[r] == 1 && s.requests[r].result.response.id == ids[r]
    ensures s.requests[r].Done? && s.requests[r].result.Failed? ==> s.taken[r] == 0
    ensures forall q :: 0 <= q < |ids| && q != r && Returned(s.requests[q]) && Returned(s.requests[r]) ==>
              s.requests[q].result.response != s.requests[r].result.response
  {
    var steps :| Reaches(ids, n, steps, s);
    InvInvariant(ids, n, steps, s);
    assert RequestInv(s, r);
    forall q | 0 <= q < |ids| && q != r && Returned(s.requests[q]) && Returned(s.requests[r])
      ensures s.requests[q].result.response != s.requests[r].result.response
    {
      assert RequestInv(s, q);
      assert ids[q] != ids[r];
    }
  }

  /** Once a listener has offered a waiting call a response, the call can take one. */
  lemma NothingLost(ids: seq<string>, n: nat, s: State, r: nat)
    requires Distinct(ids) && Reachable(ids, n, s) && r < |ids|
    requires |s.requests| == |s.offers| == |ids| && s.requests[r].Waiting? && s.offers[r] > 0
    ensures Shape(s) && Enabled(s, Take(r))
  {
    var steps :| Reaches(ids, n, steps, s);
    InvInvariant(ids, n, steps, s);
    assert RequestInv(s, r);
  }

  /** No leak: while the map has an entry, the call it belongs to has not returned. */
  lemma NoLeak(ids: seq<string>, n: nat, s: State, id: string)
    requires Distinct(ids) && Reachable(ids, n, s) && id in s.responses
    ensures var r := s.responses[id];
      r < |ids| && r < |s.requests| && ids[r] == id && !s.requests[r].Done?
  {
    var steps :| Reaches(ids, n, steps, s);
    InvInvariant(ids, n, steps, s);
    assert Owned(s, id);
  }

  // ---------- delivery ----------

  lemma LookupFinds(s: State, l: nat, r: nat)
    requires Inv(s) && l < |s.listeners| && s.listeners[l].Locked?
    requires r < |s.ids| && s.ids[r] == s.listeners[l].response.id && Listed(s.requests[r])
    ensures Apply(s, Lookup(l)) == Listener(s, l, Found(s.listeners[l].response, r))
  {
    hide LockInv, FoundInv, ChanInv;
    assert MapsTo(s, r);
  }

  lemma LookupMisses(s: State, l: nat)
    requires Inv(s) && l < |s.listeners| && s.listeners[l].Locked?
    requires forall r :: 0 <= r < |s.ids| && s.ids[r] == s.listeners[l].response.id ==> !Listed(s.requests[r])
    ensures Apply(s, Lookup(l)) == Listener(s, l, Unlocking)
  {
    hide LockInv, FoundInv, ChanInv;
    assert forall id :: id in s.responses ==> Owned(s, id);
  }

  lemma OfferExact(s: State, l: nat, response: Response, r: nat)
    requires Shape(s) && l < |s.listeners| && s.listeners[l] == Found(response, r)
    ensures Enabled(s, Offer(l)) && r < |s.ids|
    ensures var s' := Apply(s, Offer(l));
      && s'.listeners == s.listeners[l := Unlocking] && s'.requests == s.requests
      && s'.readers == s.readers && s'.writers == s.writers && s'.ids == s.ids
      && s'.offers == s.offers[r := s.offers[r] + 1]
      && s'.chans == if s.chans[r].buffer == [] then s.chans[r := Channel([response], s.chans[r].closed)]
                     else s.chans
  {
  }

  /** A listener that holds the lock with a response for a registered call looks it up and offers it to that call's
      channel, which takes it exactly if it is empty. */
  lemma ResponseOffered(ids: seq<string>, n: nat, s: State, l: nat, r: nat)
    requires Distinct(ids) && Reachable(ids, n, s) && l < |s.listeners| && s.listeners[l].Locked?
    requires |s.ids| == |s.requests| && r < |s.ids|
    requires s.ids[r] == s.listeners[l].response.id && Listed(s.requests[r])
    ensures Shape(s) && Enabled(s, Lookup(l)) && Shape(Apply(s, Lookup(l))) && Enabled(Apply(s, Lookup(l)), Offer(l))
    ensures var response, s2 := s.listeners[l].response, Apply(Apply(s, Lookup(l)), Offer(l));
      && s2.listeners == s.listeners[l := Unlocking] && s2.requests == s.requests
      && s2.readers == s.readers && s2.writers == s.writers && s2.ids == s.ids
      && s2.offers == s.offers[r := s.offers[r] + 1]
      && s2.chans == if s.chans[r].buffer == [] then s.chans[r := Channel([response], s.chans[r].closed)]
                     else s.chans
  {
    hide Apply, LockInv, FoundInv, ChanInv, MapInv;
    var steps :| Reaches(ids, n, steps, s);
    InvInvariant(ids, n, steps, s);
    ShapeKept(s, Lookup(l));
    LookupFinds(s, l, r);
    OfferExact(Apply(s, Lookup(l)), l, s.listeners[l].response, r);
  }

  /** With a response for no registered call it gives the lock back and leaves every channel as it was. */
  lemma ResponseDropped(ids: seq<string>, n: nat, s: State, l: nat)
    requires Distinct(ids) && Reachable(ids, n, s) && l < |s.listeners| && s.listeners[l].Locked?
    requires |s.ids| == |s.requests|
    requires forall r :: 0 <= r < |s.ids| && s.ids[r] == s.listeners[l].response.id ==> !Listed(s.requests[r])
    ensures Shape(s) && Enabled(s, Lookup(l)) && Apply(s, Lookup(l)) == Listener(s, l, Unlocking)
  {
    var steps :| Reaches(ids, n, steps, s);
    InvInvariant(ids, n, steps, s);
    LookupMisses(s, l);
  }

  /** How a call that has not begun to leave comes to leave: with what it took from its own channel, or empty-handed
      after a failed write or the end of its wait. */
  lemma CallEnds(s: State, step: Step, r: nat)
    requires Inv(s) && Enabled(s, step) && r < |s.requests| && !Finishing(s.requests[r])
    ensures r < |Apply(s, step).requests|
    ensures var pc := Apply(s, step).requests[r];
      && (step == Take(r) ==> s.chans[r].buffer != [] && pc == Leaving(Got(s.chans[r].buffer[0])))
      && (step == GiveUp(r) || step == Write(r, false) ==> pc == Leaving(Failed))
      && (step != Take(r) && step != GiveUp(r) && step != Write(r, false) ==> !Finishing(pc))
  {
  }

  lemma Advance(ids: seq<string>, n: nat, s: State, step: Step) returns (s': State)
    requires Distinct(ids) && Reachable(ids, n, s) && Shape(s) && Enabled(s, step)
    ensures Reachable(ids, n, s') && s' == Apply(s, step) && Shape(s')
  {
    s' := Apply(s, step);
    var steps :| Reaches(ids, n, steps, s);
    var longer := steps + [step];
    assert longer[..|longer| - 1] == steps;
    assert Reaches(ids, n, longer, s');
    InvInvariant(ids, n, longer, s');
  }

  /** The state of one call and one listener, with nobody holding the lock. */
  ghost predicate Stand(ids: seq<string>, n: nat, s: State, r: nat, pc: RequestPc, listener: ListenerPc) {
    && Reachable(ids, n, s) && Shape(s) && s.ids == ids && LockFree(s)
    && r < |ids| && s.requests[r] == pc
    && 0 < |s.listeners| && s.listeners[0] == listener
  }

  lemma Registers(ids: seq<string>, n: nat, s: State, r: nat) returns (s': State)
    requires Distinct(ids) && Stand(ids, n, s, r, Starting, Reading)
    ensures Stand(ids, n, s', r, Waiting, Reading) && s'.chans == s.chans
  {
    s' := Advance(ids, n, s, Lock(r));
    s' := Advance(ids, n, s', Insert(r));
    s' := Advance(ids, n, s', Unlock(r));
    s' := Advance(ids, n, s', Write(r, true));
  }

  lemma Serves(ids: seq<string>, n: nat, s: State, r: nat, response: Response) returns (s': State)
    requires Distinct(ids) && Stand(ids, n, s, r, Waiting, Reading)
    requires response.id == ids[r] && s.chans[r].buffer == []
    ensures Stand(ids, n, s', r, Waiting, Reading) && s'.chans[r].buffer == [response]
  {
    s' := Locks(ids, n, s, r, response);
    ResponseOffered(ids, n, s', 0, r);
    hide Apply, Listed;
    s' := Advance(ids, n, s', Lookup(0));
    s' := Advance(ids, n, s', Offer(0));
    s' := Unlocks(ids, n, s', r);
  }

  lemma Locks(ids: seq<string>, n: nat, s: State, r: nat, response: Response) returns (s': State)
    requires Distinct(ids) && Stand(ids, n, s, r, Waiting, Reading)
    ensures Reachable(ids, n, s') && Shape(s') && s'.ids == ids
    ensures s' == s.(listeners := s.listeners[0 := Locked(response)], readers := {0})
  {
    s' := Advance(ids, n, s, Receive(0, response));
    s' := Advance(ids, n, s', RLock(0));
  }

  lemma Unlocks(ids: seq<string>, n: nat, s: State, r: nat) returns (s': State)
    requires Distinct(ids) && Reachable(ids, n, s) && Shape(s) && s.ids == ids
    requires r < |ids| && s.requests[r] == Waiting && 0 < |s.listeners| && s.listeners[0] == Unlocking
    requires s.readers == {0} && s.writers == {}
    ensures Stand(ids, n, s', r, Waiting, Reading) && s'.chans == s.chans
  {
    s' := Advance(ids, n, s, RUnlock(0));
  }

  lemma Returns(ids: seq<string>, n: nat, s: State, r: nat, response: Response) returns (s': State)
    requires Distinct(ids) && Stand(ids, n, s, r, Waiting, Reading) && s.chans[r].buffer == [response]
    ensures Stand(ids, n, s', r, Done(Got(response)), Reading)
  {
    s' := Advance(ids, n, s, Take(r));
    s' := Leaves(ids, n, s', r, Got(response));
  }

  lemma Leaves(ids: seq<string>, n: nat, s: State, r: nat, result: Result) returns (s': State)
    requires Distinct(ids) && Stand(ids, n, s, r, Leaving(result), Reading)
    ensures Stand(ids, n, s', r, Done(result), Reading)
  {
    s' := Advance(ids, n, s, LockAgain(r));
    s' := Advance(ids, n, s', Delete(r));
    s' := Advance(ids, n, s', UnlockAgain(r));
    s' := Advance(ids, n, s', Close(r));
  }

  /** Every call can be answered: with a listener, some run ends with the call returning any given response that
      carries its id. */
  lemma CallAnswered(ids: seq<string>, n: nat, r: nat, response: Response) returns (s: State)
    requires Distinct(ids) && n >= 1 && r < |ids| && response.id == ids[r]
    ensures Reachable(ids, n, s) && r < |s.requests| && s.requests[r] == Done(Got(response))
  {
    s := Initial(ids, n);
    assert Reaches(ids, n, [], s);
    InitialInv(ids, n);
    s := Registers(ids, n, s, r);
    s := Serves(ids, n, s, r, response);
    s := Returns(ids, n, s, r, response);
  }
}
