/**
  * Whether a stop of a transport comes to its end: when there is a run that clears the flag, and when no run does.
  */
module TransportEnd {
  import opened PcmStop
  import opened TransportStop

  // ---------------------------------------------------------------------------------------------
  // Nobody but the manager stops PCMs, one at a time.

  /**
    * All stop calls of a PCM have returned, but the manager's present one, which joins the thread; and callers mark
    * no PCM twice.
    */
  ghost predicate Sole(t: Transport) {
    && (forall c | c in t.callers :: t.callers[c].marked <= BOTH)
    && forall k: nat, c: nat | k < |t.pcms| && c in t.pcms[k].calls ::
      t.pcms[k].calls[c].Returned? || (t.manager == InStop(k, c) && !t.pcms[k].calls[c].Waiting?)
  }

  /** No stop call of the PCM is under way. */
  predicate Quiet(p: PcmStop.State) {
    forall c | c in p.calls :: p.calls[c].Returned?
  }

  lemma OutsideSole(p: PcmStop.State, a: Action)
    requires (Outside(a) || a.SetStopping?) && Next(p, a).Some?
    ensures Next(p, a).value.calls == p.calls
  {
  }

  /** A stop of a quiet PCM joins its thread or returns at once. */
  lemma EnterQuiet(p: PcmStop.State, call: nat)
    requires Inv(p) && Quiet(p) && Next(p, Enter(call)).Some?
    ensures var r := Next(p, Enter(call)).value;
      && r.calls.Keys == p.calls.Keys + {call} && (r.calls[call].Joins? || r.calls[call].Returned?)
      && forall c | c in p.calls :: c != call && r.calls[c] == p.calls[c]
  {
    assert forall c :: !Joiner(p, c);
  }

  lemma WaitSole(p: PcmStop.State, a: Action, call: nat)
    requires (a == Wake(call) || a == JoinReturns(call) || a == Publish(call)) && Next(p, a).Some?
    ensures var r := Next(p, a).value;
      && r.calls.Keys == p.calls.Keys && call in r.calls && !r.calls[call].Waiting?
      && forall c | c in p.calls && c != call :: r.calls[c] == p.calls[c]
  {
  }

  /** Every step keeps that. */
  lemma SoleStep(t: Transport, a: Act)
    requires Sole(t) && |t.pcms| == BOTH && (forall k | 0 <= k < BOTH :: Inv(t.pcms[k])) && Do(t, a).Some?
    requires t.manager.InStop? ==> t.manager.next < BOTH
    ensures Sole(Do(t, a).value)
  {
    hide Inv, Next;
    var u := Do(t, a).value;
    match a
    case Pcm(k, b) => OutsideSole(t.pcms[k], b);
    case Mark(c) => OutsideSole(t.pcms[t.callers[c].marked], SetStopping);
    case ManagerMarks =>
      if t.manager.marked < BOTH {
        OutsideSole(t.pcms[t.manager.marked], SetStopping);
      }
    case ManagerStops(call) =>
      if t.manager.next < BOTH {
        EnterQuiet(t.pcms[t.manager.next], call);
      }
    case ManagerWaits(b) =>
      if !StopDone(t.pcms[t.manager.next], t.manager.call) {
        WaitSole(t.pcms[t.manager.next], b, t.manager.call);
      }
    case _ =>
  }

  // ---------------------------------------------------------------------------------------------
  // What is in the way.

  /** A thread of PCM number k was started and the PCM is not marked STOPPING. */
  predicate Alive(t: Transport, k: nat) {
    k < |t.pcms| && (t.pcms[k].pcm.Starting? || t.pcms[k].pcm.Running?)
  }

  predicate Marks(t: Transport, c: nat, k: nat) {
    c in t.callers && t.callers[c].marked <= k
  }

  /** PCM number k is still going to be marked STOPPING. */
  ghost predicate ToMark(t: Transport, k: nat) {
    (exists c :: Marks(t, c, k)) || (t.manager.Marks? && t.manager.marked <= k)
  }

  /** The manager has gone on to PCM number k, or beyond it. */
  predicate Reached(t: Transport, k: nat) {
    match t.manager
    case Stops(next) => k < next
    case InStop(next, _) => k <= next
    case Clears => true
    case _ => false
  }

  /** No PCM was started after it was marked, with its stop still to come. */
  ghost predicate Stoppable(t: Transport) {
    forall k: nat | k < BOTH && Alive(t, k) :: ToMark(t, k) || Reached(t, k)
  }

  /** Such a PCM is never marked again, and the manager cannot stop it. */
  ghost predicate Blocked(t: Transport, k: nat) {
    t.stopping && k < BOTH && |t.pcms| == BOTH && Alive(t, k) && !ToMark(t, k) && !Reached(t, k)
  }

  lemma AliveStays(p: PcmStop.State, a: Action)
    requires p.pcm.Starting? || p.pcm.Running?
    ensures Outside(a) && Next(p, a).Some? ==> Next(p, a).value.pcm.Starting? || Next(p, a).value.pcm.Running?
    ensures a.Enter? ==> Next(p, a).None?
  {
  }

  lemma BlockedStep(t: Transport, k: nat, a: Act)
    requires Blocked(t, k) && Do(t, a).Some?
    ensures Blocked(Do(t, a).value, k)
  {
    hide Next;
    var u := Do(t, a).value;
    assert forall c | Marks(u, c, k) :: Marks(t, c, k);
    match a
    case Pcm(j, b) => AliveStays(t.pcms[k], b);
    case Mark(c) => assert !Marks(t, c, k);
    case ManagerStops(call) => AliveStays(t.pcms[k], Enter(call));
    case _ =>
  }

  lemma {:induction false} BlockedForEver(t: Transport, k: nat, acts: seq<Act>)
    requires Blocked(t, k) && Go(t, acts).Some?
    ensures Blocked(Go(t, acts).value, k)
    decreases |acts|
  {
    if acts != [] {
      hide Do, Blocked;
      BlockedStep(t, k, acts[0]);
      BlockedForEver(Do(t, acts[0]).value, k, acts[1..]);
    }
  }

  // ---------------------------------------------------------------------------------------------
  // A run that clears the flag.

  ghost predicate Sound(t: Transport) {
    Good(t) && Sole(t) && Stoppable(t) && t.stopping
  }

  /** No new stop, and no write fails. */
  predicate Finishes(a: Act) {
    a.Mark? || (a.Send? && a.ok) || a.Receive? || a.ManagerMarks? || a.ManagerStops? || a.ManagerWaits? ||
    a.ManagerClears? || (a.Pcm? && a.a.Exit?)
  }

  /** A run of such steps to a state in which the flag is clear. */
  ghost predicate Clearing(t: Transport, acts: seq<Act>) {
    && (forall a | a in acts :: Finishes(a))
    && Go(t, acts).Some? && !Go(t, acts).value.stopping && Do(Go(t, acts).value, Acquire).Some?
  }

  lemma OneMore(t: Transport, a: Act, acts: seq<Act>)
    requires Finishes(a) && Do(t, a).Some? && Clearing(Do(t, a).value, acts)
    ensures Clearing(t, [a] + acts)
  {
    hide Do, Finishes;
    assert ([a] + acts)[1..] == acts;
  }

  lemma KeepsSound(t: Transport, a: Act)
    requires Good(t) && Sole(t) && Finishes(a) && Do(t, a).Some?
    ensures Good(Do(t, a).value) && Sole(Do(t, a).value)
  {
    DoGood(t, a);
    hide Inv;
    SoleStep(t, a);
  }

  /** While the manager is busy nobody else has anything left to do. */
  lemma ManagerAlone(t: Transport)
    requires Good(t) && !t.manager.Polls?
    ensures t.callers == map[] && t.stopping
    ensures forall i | 0 <= i < |t.pipe| :: !t.pipe[i].CancelThreads?
  {
    hide Inv;
    assert Owes(t, ByManager);
    forall c: nat ensures c !in t.callers {
      assert c in t.callers ==> Owes(t, ByCaller(c));
    }
    forall i: nat | i < |t.pipe| ensures !t.pipe[i].CancelThreads? {
      assert t.pipe[i].CancelThreads? ==> Owes(t, InPipe(i));
    }
  }

  lemma Clear(t: Transport) returns (acts: seq<Act>)
    requires Sound(t) && t.manager.Clears?
    ensures Clearing(t, acts)
  {
    acts := [ManagerClears];
    assert acts[1..] == [];
    assert Go(Do(t, ManagerClears).value, []) == Do(t, ManagerClears);
  }

  lemma FreshCall(s: set<nat>) returns (c: nat)
    ensures c !in s
  {
    var max: nat := 0;
    var rest := s;
    while rest != {}
      invariant rest <= s && forall y | y in s && y !in rest :: y <= max
      decreases rest
    {
      var x :| x in rest;
      max := if x > max then x else max;
      rest := rest - {x};
    }
    c := max + 1;
  }

  /** How far the manager has still to go. */
  function Left(t: Transport): nat {
    match t.manager
    case Marks(m) => 20 + if m < BOTH then BOTH - m else 0
    case Stops(n) => if n < BOTH then 6 * (BOTH - n) + 1 else 1
    case InStop(n, call) => if n < BOTH then 6 * (BOTH - n) - 5 + StopLeft(t, n, call) else 1
    case _ => 0
  }

  function StopLeft(t: Transport, n: nat, call: nat): (k: nat)
    ensures k <= 4
  {
    if n >= |t.pcms| || call !in t.pcms[n].calls then 0
    else match t.pcms[n].calls[call]
      case Joins(thread) => if thread in t.pcms[n].exited then 3 else 4
      case Joined(_) => 2
      case Returned(_) => 1
      case Waiting(_) => 0
  }

  /** The step leads on. */
  ghost predicate Onward(t: Transport, a: Act) {
    && Finishes(a) && Do(t, a).Some?
    && var u := Do(t, a).value;
    u.stopping && !u.manager.Polls? && Stoppable(u) && Left(u) < Left(t)
  }

  lemma MarkedByManager(t: Transport)
    requires t.callers == map[]
    ensures forall k: nat :: ToMark(t, k) <==> t.manager.Marks? && t.manager.marked <= k
  {
    assert forall c, k :: !Marks(t, c, k);
  }

  /** A step after which no PCM is alive that was not, or that is in the way of the manager. */
  lemma StoppableAfter(t: Transport, a: Act)
    requires Stoppable(t) && Do(t, a).Some? && t.callers == map[] == Do(t, a).value.callers
    requires var u := Do(t, a).value;
      && (forall k: nat | k < BOTH && Alive(u, k) :: Alive(t, k))
      && (forall k: nat | k < BOTH && Alive(u, k) && t.manager.Marks? && t.manager.marked <= k ::
        u.manager.Marks? && u.manager.marked <= k)
      && (forall k: nat | k < BOTH && Alive(u, k) && Reached(t, k) :: Reached(u, k))
    ensures Stoppable(Do(t, a).value)
  {
    hide Do;
    MarkedByManager(t);
    MarkedByManager(Do(t, a).value);
  }

  /** The manager stops its next PCM. */
  lemma StopsNext(t: Transport) returns (a: Act)
    requires Sound(t) && t.manager.Stops?
    ensures Onward(t, a)
  {
    ManagerAlone(t);
    var n := t.manager.next;
    if n < BOTH {
      var call := FreshCall(t.pcms[n].calls.Keys);
      a := ManagerStops(call);
      MarkedByManager(t);
      assert !Alive(t, n);
      Enters(t, n, call);
      EnterEnds(t.pcms[n], call);
    } else {
      a := ManagerStops(0);
    }
    hide Next, Good, Sole;
    StoppableAfter(t, a);
  }

  lemma EnterEnds(p: PcmStop.State, call: nat)
    requires Next(p, Enter(call)).Some?
    ensures !Next(p, Enter(call)).value.pcm.Starting? && !Next(p, Enter(call)).value.pcm.Running?
  {
  }

  lemma Enters(t: Transport, n: nat, call: nat)
    requires Good(t) && Sole(t) && t.manager == Stops(n) && n < BOTH && !Alive(t, n) && call !in t.pcms[n].calls
    ensures Next(t.pcms[n], Enter(call)).Some?
    ensures var r := Next(t.pcms[n], Enter(call)).value; call in r.calls && !r.calls[call].Waiting?
  {
    var p := t.pcms[n];
    assert Quiet(p);
    assert forall c :: !Joiner(p, c);
  }

  /** The stop of a PCM goes on: its thread exits and is joined, and the end is published. */
  lemma InStopNext(t: Transport) returns (a: Act)
    requires Sound(t) && t.manager.InStop?
    ensures Onward(t, a)
  {
    ManagerAlone(t);
    var n, call := t.manager.next, t.manager.call;
    var p := t.pcms[n];
    if p.calls[call].Returned? {
      a := ManagerWaits(SetIdle);
    } else if p.calls[call].Joined? {
      a := ManagerWaits(Publish(call));
    } else {
      assert Joiner(p, call);
      var thread := p.calls[call].thread;
      a := if thread in p.exited then ManagerWaits(JoinReturns(call)) else Pcm(n, Exit(thread));
    }
    hide Good, Sole;
    StoppableAfter(t, a);
  }

  lemma MarksNext(t: Transport) returns (a: Act)
    requires Sound(t) && t.manager.Marks?
    ensures Onward(t, a)
  {
    ManagerAlone(t);
    a := ManagerMarks;
    hide Good, Sole;
    StoppableAfter(t, a);
  }

  /** Once the manager is at work it comes to its end. */
  lemma {:induction false} ManagerEnds(t: Transport) returns (acts: seq<Act>)
    requires Sound(t) && !t.manager.Polls?
    ensures Clearing(t, acts)
    decreases Left(t)
  {
    if t.manager.Clears? {
      acts := Clear(t);
    } else {
      var a;
      if t.manager.Stops? {
        a := StopsNext(t);
      } else if t.manager.InStop? {
        a := InStopNext(t);
      } else {
        a := MarksNext(t);
      }
      hide Do, Good, Sole, Left, Stoppable, Clearing, Finishes;
      KeepsSound(t, a);
      acts := ManagerEnds(Do(t, a).value);
      OneMore(t, a, acts);
      acts := [a] + acts;
    }
  }

  /** The manager reads the commands in front of the one that is to clear the flag, and then that one. */
  lemma {:induction false} PipeEnds(t: Transport, i: nat) returns (acts: seq<Act>)
    requires Sound(t) && t.manager.Polls? && Owes(t, InPipe(i))
    ensures Clearing(t, acts)
    decreases i
  {
    var u := Do(t, Receive).value;
    KeepsSound(t, Receive);
    OnlyPipe(t, i);
    StoppableAfter(t, Receive);
    if i == 0 {
      acts := ManagerEnds(u);
    } else {
      assert Owes(u, InPipe(i - 1));
      acts := PipeEnds(u, i - 1);
    }
    OneMore(t, Receive, acts);
    acts := [Receive] + acts;
  }

  lemma OnePlace(t: Transport, i: nat)
    requires OneObligation(t) && Owes(t, InPipe(i))
    ensures t.pipe[0].CancelThreads? ==> i == 0
  {
    assert Owes(t, InPipe(0)) <==> t.pipe[0].CancelThreads?;
  }

  /** The one obligation is in the pipe. */
  lemma OnlyPipe(t: Transport, i: nat)
    requires Good(t) && Stoppable(t) && Owes(t, InPipe(i))
    ensures t.callers == map[] && t.manager.Polls? && t.pipe != [] && (i > 0 ==> !t.pipe[0].CancelThreads?)
    ensures forall k: nat | k < BOTH :: !Alive(t, k)
  {
    hide Inv;
    forall c: nat ensures c !in t.callers {
      assert c in t.callers ==> Owes(t, ByCaller(c));
    }
    assert !t.manager.Polls? ==> Owes(t, ByManager);
    OnePlace(t, i);
    MarkedByManager(t);
  }

  /** A caller marks the PCMs that are left and writes its command. */
  lemma {:induction false} CallerEnds(t: Transport, c: nat) returns (acts: seq<Act>)
    requires Sound(t) && c in t.callers
    ensures Clearing(t, acts)
    decreases BOTH - t.callers[c].marked
  {
    OnlyCaller(t, c);
    var a := if t.callers[c].marked < BOTH then Mark(c) else Send(c, true);
    CallerOn(t, c, a);
    var u := Do(t, a).value;
    KeepsSound(t, a);
    hide Good, Sole, Stoppable;
    if t.callers[c].marked < BOTH {
      acts := CallerEnds(u, c);
    } else {
      assert Owes(u, InPipe(|t.pipe|));
      acts := PipeEnds(u, |t.pipe|);
    }
    OneMore(t, a, acts);
    acts := [a] + acts;
  }

  lemma OnlyCaller(t: Transport, c: nat)
    requires Good(t) && c in t.callers
    ensures t.manager.Polls? && forall d | d in t.callers :: d == c
  {
    hide Inv;
    assert Owes(t, ByCaller(c));
    assert !t.manager.Polls? ==> Owes(t, ByManager);
    forall d | d in t.callers ensures d == c {
      assert Owes(t, ByCaller(d));
    }
  }

  lemma CallerOn(t: Transport, c: nat, a: Act)
    requires Stoppable(t) && |t.pcms| == BOTH && t.manager.Polls? && c in t.callers && t.callers[c].marked <= BOTH
    requires forall d | d in t.callers :: d == c
    requires a == if t.callers[c].marked < BOTH then Mark(c) else Send(c, true)
    ensures Do(t, a).Some? && Stoppable(Do(t, a).value) && Do(t, a).value.stopping == t.stopping
    ensures Do(t, a).value.manager.Polls?
    ensures a.Mark? ==> c in Do(t, a).value.callers && Do(t, a).value.callers[c].marked == t.callers[c].marked + 1
    ensures a.Send? ==> Do(t, a).value.pipe == t.pipe + [CancelThreads]
  {
    var u := Do(t, a).value;
    assert Marks(t, c, t.callers[c].marked);
    forall k: nat | k < BOTH && Alive(u, k) ensures ToMark(u, k) {
      assert Alive(t, k);
      assert Marks(u, c, k);
    }
  }

  lemma StopEnds(t: Transport) returns (acts: seq<Act>)
    requires Sound(t)
    ensures Clearing(t, acts)
  {
    var o :| Owes(t, o);
    match o
    case ByCaller(c) => acts := CallerEnds(t, c);
    case InPipe(i) =>
      OnlyPipe(t, i);
      acts := PipeEnds(t, i);
    case ByManager => acts := ManagerEnds(t);
  }

  // ---------------------------------------------------------------------------------------------
  // All runs.

  lemma {:induction false} FailedForEver(t: Transport, acts: seq<Act>)
    requires t.failed && Go(t, acts).Some?
    ensures Go(t, acts).value.failed
    decreases |acts|
  {
    if acts != [] {
      FailedStays(t, acts[0]);
      FailedForEver(Do(t, acts[0]).value, acts[1..]);
    }
  }

  lemma {:induction false} GoSole(t: Transport, acts: seq<Act>)
    requires Good(t) && Sole(t) && Go(t, acts).Some? && !Go(t, acts).value.failed
    ensures Good(Go(t, acts).value) && Sole(Go(t, acts).value)
    decreases |acts|
  {
    if acts != [] {
      hide Inv, Do;
      var a := acts[0];
      FailedStays(t, a);
      if a.Send? && !a.ok {
        FailedForEver(Do(t, a).value, acts[1..]);
      } else {
        DoGood(t, a);
        SoleStep(t, a);
        GoSole(Do(t, a).value, acts[1..]);
      }
    }
  }

  lemma StartSole()
    ensures Sole(START)
  {
  }

  /** A stop can always be asked for; it sets the flag, and the first one under way marks both PCMs and writes. */
  lemma StopBegins(t: Transport, c: nat)
    requires Good(t) && !t.stopping
    ensures var u := Do(t, StopAsync(c));
      && u.Some? && u.value.stopping && c in u.value.callers && u.value.callers[c].marked == 0
      && Do(u.value, Acquire).None? && Do(u.value, Mark(c)).Some?
  {
    hide Inv;
    assert c in t.callers ==> Owes(t, ByCaller(c));
  }

  /** The steps can be taken, and the flag is clear after them. */
  predicate Cleared(t: Transport, acts: seq<Act>) {
    Go(t, acts).Some? && !Go(t, acts).value.stopping
  }

  /**
    * After any run from the start: the flag can be cleared again exactly if no write has failed and no PCM was
    * started after it was marked with its stop still to come; and then the steps that are left of the stops
    * under way clear it, without any new stop, and acquisitions go on.
    */
  lemma ClearedExactly(acts: seq<Act>)
    requires Go(START, acts).Some?
    ensures var t := Go(START, acts).value;
      && ((exists more :: Cleared(t, more))
        <==> !t.stopping || (!t.failed && Stoppable(t)))
      && (t.stopping && !t.failed && Stoppable(t) ==> exists more :: Clearing(t, more))
  {
    hide Do, Inv, Sole, Stoppable, OneObligation;
    var t := Go(START, acts).value;
    StartGood();
    StartSole();
    if t.failed {
      FailedIsStuck(acts);
      forall more | Go(t, more).Some? ensures !Cleared(t, more) {
        StuckForEver(t, more);
      }
    } else {
      GoSole(START, acts);
      if t.stopping && Stoppable(t) {
        var more := StopEnds(t);
        assert Cleared(t, more);
      } else if t.stopping {
        NeverStopped(t);
      } else {
        var none: seq<Act> := [];
        assert Cleared(t, none);
      }
    }
  }

  lemma NeverStopped(t: Transport)
    requires t.stopping && |t.pcms| == BOTH && !Stoppable(t)
    ensures forall more :: !Cleared(t, more)
  {
    var k: nat :| k < BOTH && Alive(t, k) && !(ToMark(t, k) || Reached(t, k));
    forall more | Go(t, more).Some? ensures !Cleared(t, more) {
      BlockedForEver(t, k, more);
    }
  }
}
