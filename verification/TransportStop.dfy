/**
  * Stopping a transport (ba-transport.c): the `stopping` flag, the callers that set it, the pipe to the thread
  * manager and the manager itself, interleaved with whatever the two PCMs do.
  */
module TransportStop {
  import opened PcmStop

  /** The commands in the pipe. */
  datatype Command = CancelThreads | CancelIfNoClients

  /**
    * A call of ba_transport_stop_async after it has set the flag: the PCMs that it has marked STOPPING so far.
    * Every other call has done its one step.
    */
  datatype Caller = Marking(marked: nat)

  /**
    * The manager: in poll; marking PCMs after it found no clients; about to stop PCM number next; inside the
    * stop of that PCM, which is the call number call; done with both and about to clear the flag.
    */
  datatype Manager = Polls | Marks(marked: nat) | Stops(next: nat) | InStop(next: nat, call: nat) | Clears

  datatype Transport = Transport(
    stopping: bool, pcms: seq<PcmStop.State>, callers: map<nat, Caller>, pipe: seq<Command>, manager: Manager,
      failed: bool)

  datatype Act =
    | Pcm(k: nat, a: Action)
    | StopAsync(caller: nat)
    | Mark(caller: nat)
    | Send(caller: nat, ok: bool)
    | AskIfNoClients(ok: bool)
    | Timeout(clients: bool)
    | Receive
    | ManagerMarks
    | ManagerStops(call: nat)
    | ManagerWaits(a: Action)
    | ManagerClears
    | Acquire

  const BOTH: nat := 2

  /** Steps of a PCM that anybody may take: starts, state changes other than STOPPING, exits of its threads. */
  predicate Outside(a: Action) {
    a.SetIdle? || a.SetRunning? || a.Start? || a.Exit?
  }

  /** PCM number k takes step a. */
  function Step(t: Transport, k: nat, a: Action): Option<Transport> {
    if k >= |t.pcms| then None
    else match Next(t.pcms[k], a)
      case None => None
      case Some(p) => Some(t.(pcms := t.pcms[k := p]))
  }

  /** Whether the manager's own call of ba_transport_pcm_stop has returned. */
  predicate StopDone(p: PcmStop.State, call: nat) {
    call in p.calls && p.calls[call].Returned?
  }

  function Do(t: Transport, a: Act): Option<Transport> {
    match a
    case Pcm(k, b) => if Outside(b) then Step(t, k, b) else None
    case StopAsync(c) =>
      if c in t.callers then None
      else if t.stopping then Some(t)
      else Some(t.(stopping := true, callers := t.callers[c := Marking(0)]))
    case Mark(c) =>
      if c !in t.callers || t.callers[c].marked >= BOTH then None
      else
        (match Step(t, t.callers[c].marked, SetStopping)
         case None => None
         case Some(u) => Some(u.(callers := t.callers[c := Marking(t.callers[c].marked + 1)])))
    case Send(c, ok) =>
      if c !in t.callers || t.callers[c].marked != BOTH then None
      else if ok then Some(t.(callers := t.callers - {c}, pipe := t.pipe + [CancelThreads]))
      else Some(t.(callers := t.callers - {c}, failed := true))
    case AskIfNoClients(ok) => if ok then Some(t.(pipe := t.pipe + [CancelIfNoClients])) else Some(t)
    case Timeout(clients) =>
      if !t.manager.Polls? then None
      else if !t.stopping && !clients then Some(t.(stopping := true, manager := Marks(0)))
      else Some(t)
    case Receive =>
      if !t.manager.Polls? || t.pipe == [] then None
      else Some(t.(pipe := t.pipe[1..], manager := if t.pipe[0].CancelThreads? then Stops(0) else Polls))
    case ManagerMarks =>
      if !t.manager.Marks? then None
      else if t.manager.marked >= BOTH then Some(t.(manager := Stops(0)))
      else
        (match Step(t, t.manager.marked, SetStopping)
         case None => None
         case Some(u) => Some(u.(manager := Marks(t.manager.marked + 1))))
    case ManagerStops(call) =>
      if !t.manager.Stops? then None
      else if t.manager.next >= BOTH then Some(t.(manager := Clears))
      else
        (match Step(t, t.manager.next, Enter(call))
         case None => None
         case Some(u) => Some(u.(manager := InStop(t.manager.next, call))))
    case ManagerWaits(b) =>
      if !t.manager.InStop? || t.manager.next >= |t.pcms| then None
      else if StopDone(t.pcms[t.manager.next], t.manager.call) then Some(t.(manager := Stops(t.manager.next + 1)))
      else if b == Wake(t.manager.call) || b == JoinReturns(t.manager.call) || b == Publish(t.manager.call) then
        Step(t, t.manager.next, b)
      else None
    case ManagerClears => if t.manager.Clears? then Some(t.(stopping := false, manager := Polls)) else None
    case Acquire => if t.stopping then None else Some(t)
  }

  const START := Transport(false, [INIT, INIT], map[], [], Polls, false)

  /** Who has to see to it that the flag is cleared. */
  datatype Token = ByCaller(caller: nat) | InPipe(place: nat) | ByManager

  predicate Owes(t: Transport, o: Token) {
    match o
    case ByCaller(c) => c in t.callers
    case InPipe(i) => i < |t.pipe| && t.pipe[i].CancelThreads?
    case ByManager => !t.manager.Polls?
  }

  /** Exactly one obligation while the flag is set, none otherwise. */
  ghost predicate OneObligation(t: Transport) {
    && (forall o, p | Owes(t, o) && Owes(t, p) :: o == p)
    && (t.stopping <==> exists o :: Owes(t, o))
  }

  /** PCM number k is STOPPING or JOINING. */
  predicate Ending(t: Transport, k: nat) {
    k < |t.pcms| && (t.pcms[k].pcm.Stopping? || t.pcms[k].pcm.Joining?)
  }

  /** While the manager stops the PCMs, those before its next one are not ending any more. */
  ghost predicate Ended(t: Transport) {
    match t.manager
    case Stops(next) => forall k: nat | k < next :: !Ending(t, k)
    case InStop(next, call) =>
      && (forall k: nat | k < next :: !Ending(t, k))
      && next < BOTH && next < |t.pcms| && call in t.pcms[next].calls
      && (t.pcms[next].calls[call].Returned? ==> !Ending(t, next))
    case Clears => forall k: nat :: !Ending(t, k)
    case _ => true
  }

  ghost predicate Good(t: Transport)
  {
    && |t.pcms| == BOTH && (forall k | 0 <= k < BOTH :: Inv(t.pcms[k]))
    && OneObligation(t)
    && (!t.stopping ==> forall k: nat :: !Ending(t, k))
    && Ended(t)
  }

  lemma StartGood()
    ensures Good(START)
  {
    InitInv();
    assert forall o :: !Owes(START, o);
  }

  /** Steps of a PCM that anybody may take do not make it STOPPING or JOINING. */
  lemma OutsideKeeps(p: PcmStop.State, a: Action)
    requires Outside(a) && Next(p, a).Some?
    ensures var r := Next(p, a).value;
      && (r.pcm.Stopping? || r.pcm.Joining? ==> p.pcm.Stopping? || p.pcm.Joining?)
      && r.calls == p.calls
  {
  }

  lemma PcmGood(t: Transport, k: nat, a: Action)
    requires Good(t) && Do(t, Pcm(k, a)).Some?
    ensures Good(Do(t, Pcm(k, a)).value)
  {
    hide Inv, Next;
    var u := Do(t, Pcm(k, a)).value;
    OutsideKeeps(t.pcms[k], a);
    StepInv(t.pcms[k], a);
    assert forall o :: Owes(u, o) <==> Owes(t, o);
    assert forall j: nat :: Ending(u, j) ==> Ending(t, j);
  }

  lemma SamePcms(t: Transport, u: Transport)
    requires u.pcms == t.pcms
    ensures forall k: nat :: Ending(u, k) <==> Ending(t, k)
  {
  }

  lemma CallerGood(t: Transport, a: Act)
    requires Good(t) && Do(t, a).Some?
      && (a.StopAsync? || a.Mark? || (a.Send? && a.ok) || a.AskIfNoClients? || a.Acquire?)
    ensures Good(Do(t, a).value)
  {
    hide Inv, Next;
    var u := Do(t, a).value;
    match a
    case StopAsync(c) =>
      SamePcms(t, u);
      if !t.stopping {
        assert !Owes(t, ByManager);
        assert Owes(u, ByCaller(c));
        assert forall o | Owes(u, o) :: o == ByCaller(c) || Owes(t, o);
      }
    case Mark(c) =>
      assert Owes(t, ByCaller(c));
      assert !Owes(t, ByManager);
      StepInv(t.pcms[t.callers[c].marked], SetStopping);
      assert forall o :: Owes(u, o) <==> Owes(t, o);
    case Send(c, ok) =>
      assert Owes(t, ByCaller(c)) && !Owes(t, ByManager);
      assert Owes(u, InPipe(|t.pipe|));
      forall o | Owes(u, o) ensures o == InPipe(|t.pipe|) {
        assert o == InPipe(|t.pipe|) || Owes(t, o);
      }
    case AskIfNoClients(ok) =>
      SamePcms(t, u);
      assert forall o :: Owes(u, o) <==> Owes(t, o);
    case Acquire =>
  }

  lemma ManagerGood(t: Transport, a: Act)
    requires Good(t) && Do(t, a).Some? && (a.Timeout? || a.Receive? || a.ManagerMarks? || a.ManagerClears?)
    ensures Good(Do(t, a).value)
  {
    hide Inv, Next;
    var u := Do(t, a).value;
    match a
    case Timeout(clients) =>
      if !t.stopping && !clients {
        assert Owes(u, ByManager);
        assert forall o | Owes(u, o) :: o == ByManager || Owes(t, o);
      }
    case Receive =>
      SamePcms(t, u);
      if t.pipe[0].CancelThreads? {
        assert Owes(t, InPipe(0)) && Owes(u, ByManager);
        forall i: nat ensures !Owes(u, InPipe(i)) {
          OneForward(t, u, i);
        }
        forall c: nat ensures !Owes(u, ByCaller(c)) {
          assert Owes(u, ByCaller(c)) ==> Owes(t, ByCaller(c));
        }
      } else {
        Shifted(t, u);
      }
    case ManagerMarks =>
      assert Owes(t, ByManager);
      if t.manager.marked < BOTH {
        StepInv(t.pcms[t.manager.marked], SetStopping);
      }
      assert forall o :: Owes(u, o) <==> Owes(t, o);
    case ManagerClears =>
      SamePcms(t, u);
      assert Owes(t, ByManager);
      assert forall o :: !Owes(u, o) by {
        forall o ensures !Owes(u, o) {
          assert Owes(u, o) ==> o != ByManager && Owes(t, o);
        }
      }
  }

  lemma OneForward(t: Transport, u: Transport, i: nat)
    requires t.pipe != [] && u.pipe == t.pipe[1..]
    ensures Owes(u, InPipe(i)) ==> Owes(t, InPipe(i + 1))
  {
  }

  /** Reading another command moves the one in the pipe, if there is one, a place forward. */
  lemma Shifted(t: Transport, u: Transport)
    requires OneObligation(t) && t.pipe != [] && !t.pipe[0].CancelThreads? && t.manager.Polls?
      && u == t.(pipe := t.pipe[1..])
    ensures OneObligation(u)
  {
    forall o, p | Owes(u, o) && Owes(u, p) ensures o == p {
      var o' := if o.InPipe? then InPipe(o.place + 1) else o;
      var p' := if p.InPipe? then InPipe(p.place + 1) else p;
      assert Owes(t, o') && Owes(t, p');
    }
    if t.stopping {
      var o :| Owes(t, o);
      assert Owes(u, if o.InPipe? then InPipe(o.place - 1) else o);
    }
    if o :| Owes(u, o) {
      assert Owes(t, if o.InPipe? then InPipe(o.place + 1) else o);
    }
  }

  /** The manager's stop of a PCM comes in, or there is none left to stop. */
  lemma StopsGood(t: Transport, call: nat)
    requires Good(t) && Do(t, ManagerStops(call)).Some?
    ensures Good(Do(t, ManagerStops(call)).value)
  {
    hide Inv;
    var u, n := Do(t, ManagerStops(call)).value, t.manager.next;
    assert Owes(t, ByManager);
    assert forall o :: Owes(u, o) <==> Owes(t, o);
    if n < BOTH {
      StepInv(t.pcms[n], Enter(call));
      assert call in u.pcms[n].calls && (u.pcms[n].calls[call].Returned? ==> u.pcms[n].pcm.Terminated?);
      assert forall k: nat | k < n :: Ending(u, k) ==> Ending(t, k);
    } else {
      SamePcms(t, u);
      assert forall k: nat :: !Ending(t, k);
    }
  }

  /** It waits for the thread and goes on to the next one. */
  lemma WaitsGood(t: Transport, a: Action)
    requires Good(t) && Do(t, ManagerWaits(a)).Some?
    ensures Good(Do(t, ManagerWaits(a)).value)
  {
    hide Inv;
    var u, n := Do(t, ManagerWaits(a)).value, t.manager.next;
    assert Owes(t, ByManager);
    assert forall o :: Owes(u, o) <==> Owes(t, o);
    if StopDone(t.pcms[n], t.manager.call) {
      SamePcms(t, u);
    } else {
      StepInv(t.pcms[n], a);
      assert u.pcms[n].calls[t.manager.call].Returned? ==> u.pcms[n].pcm.Terminated?;
      assert forall k: nat | k < n :: Ending(u, k) ==> Ending(t, k);
    }
  }

  /** Every step but a failed write keeps the invariant. */
  lemma DoGood(t: Transport, a: Act)
    requires Good(t) && Do(t, a).Some? && (a.Send? ==> a.ok)
    ensures Good(Do(t, a).value)
  {
    hide Good, Do;
    match a
    case Pcm(k, b) => PcmGood(t, k, b);
    case StopAsync(_) | Mark(_) | Send(_, _) | AskIfNoClients(_) | Acquire => CallerGood(t, a);
    case Timeout(_) | Receive | ManagerMarks | ManagerClears => ManagerGood(t, a);
    case ManagerStops(call) => StopsGood(t, call);
    case ManagerWaits(b) => WaitsGood(t, b);
  }

  function Go(t: Transport, acts: seq<Act>): Option<Transport>
    decreases |acts|
  {
    if acts == [] then Some(t)
    else match Do(t, acts[0])
      case None => None
      case Some(u) => Go(u, acts[1..])
  }

  lemma {:induction false} GoGood(t: Transport, acts: seq<Act>)
    requires Good(t) && Go(t, acts).Some? && forall a | a in acts && a.Send? :: a.ok
    ensures Good(Go(t, acts).value)
    decreases |acts|
  {
    if acts != [] {
      hide Good;
      DoGood(t, acts[0]);
      GoGood(Do(t, acts[0]).value, acts[1..]);
    }
  }

  /**
    * Over any run in which the writes to the pipe succeed there is exactly one obligation to clear the flag while
    * it is set and none otherwise, and no PCM is STOPPING or JOINING while it is clear: an acquisition, which
    * waits for that, never goes on during a join.
    */
  lemma Protocol(acts: seq<Act>)
    requires Go(START, acts).Some? && forall a | a in acts && a.Send? :: a.ok
    ensures var t := Go(START, acts).value;
      && OneObligation(t)
      && (!t.stopping ==> forall k: nat :: !Ending(t, k))
      && (Do(t, Acquire).Some? ==> forall k: nat :: !Ending(t, k))
  {
    StartGood();
    GoGood(START, acts);
  }

  /**
    * Only a stop call, or the timer when no client is left, sets the flag, and only the manager, at the end of a
    * stop, clears it. A stop call while it is set does nothing. Messages leave the pipe in the order they came in.
    */
  lemma FlagChanges(t: Transport, a: Act)
    requires Do(t, a).Some?
    ensures var u := Do(t, a).value;
      && (!t.stopping && u.stopping <==>
        !t.stopping && (a.StopAsync? || (a.Timeout? && !a.clients && t.manager.Polls?)))
      && (t.stopping && !u.stopping <==> t.stopping && a.ManagerClears? && t.manager.Clears?)
      && (t.stopping && a.StopAsync? ==> u == t)
      && (a.Acquire? ==> u == t && !t.stopping)
      && (u.failed <==> t.failed || (a.Send? && !a.ok))
      && (a.Receive? ==> t.pipe == [t.pipe[0]] + u.pipe)
      && (a.Send? && a.ok ==> u.pipe == t.pipe + [CancelThreads])
      && (a.AskIfNoClients? && a.ok ==> u.pipe == t.pipe + [CancelIfNoClients])
      && (a.Receive? || (a.Send? && a.ok) || (a.AskIfNoClients? && a.ok) || u.pipe == t.pipe)
  {
  }

  /** A failed write leaves the flag set with nobody to clear it. */
  lemma FailedWrite(t: Transport, c: nat)
    requires Good(t) && Do(t, Send(c, false)).Some?
    ensures Stuck(Do(t, Send(c, false)).value)
  {
    var u := Do(t, Send(c, false)).value;
    assert Owes(t, ByCaller(c));
    forall o ensures !Owes(u, o) {
      assert Owes(u, o) ==> o != ByCaller(c) && Owes(t, o);
    }
  }

  ghost predicate Stuck(t: Transport) {
    t.stopping && forall o :: !Owes(t, o)
  }

  /** From then on it is never cleared: every later stop call and acquisition waits for ever. */
  lemma {:induction false} StuckForEver(t: Transport, acts: seq<Act>)
    requires Stuck(t) && Go(t, acts).Some?
    ensures Stuck(Go(t, acts).value) && Do(Go(t, acts).value, Acquire).None?
    decreases |acts|
  {
    if acts != [] {
      StuckStep(t, acts[0]);
      StuckForEver(Do(t, acts[0]).value, acts[1..]);
    }
  }

  /** Over any run from the start the flag can be cleared again, or is clear, exactly if no write has failed. */
  lemma {:induction false} StuckExactly(t: Transport, acts: seq<Act>)
    requires Go(t, acts).Some? && (if t.failed then Stuck(t) else Good(t))
    ensures var u := Go(t, acts).value; if u.failed then Stuck(u) else Good(u)
    decreases |acts|
  {
    if acts != [] {
      var a := acts[0];
      var u := Do(t, a).value;
      if t.failed {
        StuckStep(t, a);
        FailedStays(t, a);
      } else if a.Send? && !a.ok {
        FailedWrite(t, a.caller);
      } else {
        DoGood(t, a);
        FailedStays(t, a);
      }
      hide Do, Good, Stuck;
      StuckExactly(u, acts[1..]);
    }
  }

  lemma FailedStays(t: Transport, a: Act)
    requires Do(t, a).Some?
    ensures Do(t, a).value.failed <==> t.failed || (a.Send? && !a.ok)
  {
    hide Next;
  }

  lemma NeverBoth(t: Transport)
    ensures !(Good(t) && Stuck(t))
  {
  }

  /** After any run from the start the flag is set with nobody to clear it exactly if a write has failed. */
  lemma FailedIsStuck(acts: seq<Act>)
    requires Go(START, acts).Some?
    ensures Go(START, acts).value.failed <==> Stuck(Go(START, acts).value)
  {
    StartGood();
    StuckExactly(START, acts);
    NeverBoth(Go(START, acts).value);
  }

  lemma NobodyOwes(t: Transport)
    requires Stuck(t)
    ensures t.manager.Polls? && forall c: nat :: c !in t.callers
  {
    assert !Owes(t, ByManager);
    forall c: nat ensures c !in t.callers {
      assert !Owes(t, ByCaller(c));
    }
  }

  lemma StuckStep(t: Transport, a: Act)
    requires Stuck(t) && Do(t, a).Some?
    ensures Stuck(Do(t, a).value)
  {
    hide Next;
    var u := Do(t, a).value;
    NobodyOwes(t);
    if a.Receive? {
      assert !Owes(t, InPipe(0));
    }
    forall o ensures !Owes(u, o) {
      assert !Owes(t, o);
      if a.Receive? && o.InPipe? {
        assert !Owes(t, InPipe(o.place + 1));
      }
    }
  }
}
