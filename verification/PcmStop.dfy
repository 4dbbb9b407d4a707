/**
  * The life of the IO threads of one PCM (ba-transport-pcm.c): any interleaving of the steps that its mutex
  * makes atomic, by any number of stop calls, by starts, state changes and the threads themselves.
  */
module PcmStop {

  datatype PcmState = Idle | Starting | Running | Stopping | Joining | Terminated

  datatype Option<T> = None | Some(value: T)

  /** Where a call of ba_transport_pcm_stop is; thread is the one that was live when it came in, if any. */
  datatype Phase =
    | Waiting(thread: nat)
    | Joins(thread: nat)
    | Joined(thread: nat)
    | Returned(live: Option<nat>)

  /**
    * Threads are numbered as they are created, the last one is the one that `tid` names; cancels and joins
    * count the calls of pthread_cancel and of pthread_join that returned for each of them.
    */
  datatype State = State(pcm: PcmState, cancels: seq<nat>, joins: seq<nat>, exited: set<nat>, calls: map<nat, Phase>)

  datatype Action =
    | SetIdle | SetRunning | SetStopping
    | Start(created: bool)
    | Exit(thread: nat)
    | Enter(call: nat)
    | Wake(call: nat)
    | JoinReturns(call: nat)
    | Publish(call: nat)

  const INIT := State(Terminated, [], [], {}, map[])

  /** A thread was started and not joined yet. */
  predicate Live(p: PcmState) {
    p.Starting? || p.Running? || p.Stopping? || p.Joining?
  }

  function Rank(p: PcmState): nat {
    match p
    case Idle => 0
    case Starting => 1
    case Running => 2
    case Stopping => 3
    case Joining => 4
    case Terminated => 5
  }

  /** The transitions that ba_transport_pcm_state_set accepts. */
  predicate Allowed(from: PcmState, to: PcmState) {
    || Rank(to) == Rank(from) + 1
    || (to.Idle? && from.Terminated?)
    || (to.Stopping? && from.Starting?)
    || (to.Terminated? && (from.Idle? || from.Starting?))
  }

  /** A state leads to the next one of its life, and from TERMINATED back to IDLE; stopping may skip RUNNING. */
  lemma AllowedAre(from: PcmState, to: PcmState)
    ensures Allowed(from, to) <==> (from, to) in {(Idle, Starting), (Starting, Running), (Running, Stopping),
      (Stopping, Joining), (Joining, Terminated), (Terminated, Idle), (Starting, Stopping), (Idle, Terminated),
      (Starting, Terminated)}
  {
  }

  /** ba_transport_pcm_state_set: a transition that is not allowed changes nothing. */
  function Set(s: State, to: PcmState): State {
    if Allowed(s.pcm, to) then s.(pcm := to) else s
  }

  /** The last thread that was created. */
  function Tid(s: State): int {
    |s.cancels| - 1
  }

  /**
    * One step; None when it cannot be taken. A stop that finds a thread STARTING or RUNNING is an assertion
    * failure in the source, and starts come from IDLE.
    */
  function Next(s: State, a: Action): Option<State> {
    match a
    case SetIdle => Some(Set(s, Idle))
    case SetRunning => Some(Set(s, Running))
    case SetStopping => Some(Set(s, Stopping))
    case Start(created) =>
      if s.pcm != Idle then None
      else if created then Some(s.(pcm := Starting, cancels := s.cancels + [0], joins := s.joins + [0]))
      else Some(s.(pcm := Terminated))
    case Exit(thread) => if thread < |s.cancels| then Some(s.(exited := s.exited + {thread})) else None
    case Enter(call) =>
      if call in s.calls then None
      else
        (match s.pcm
         case Idle => Some(s.(pcm := Terminated, calls := s.calls[call := Returned(None)]))
         case Joining =>
           if Tid(s) >= 0 then Some(s.(calls := s.calls[call := Waiting(Tid(s))])) else None
         case Terminated => Some(s.(calls := s.calls[call := Returned(None)]))
         case Stopping =>
           if Tid(s) < 0 then None
           else Some(s.(pcm := Joining, cancels := s.cancels[Tid(s) := s.cancels[Tid(s)] + 1],
                        calls := s.calls[call := Joins(Tid(s))]))
         case _ => None)
    case Wake(call) =>
      if call in s.calls && s.calls[call].Waiting? && s.pcm == Terminated
      then Some(s.(calls := s.calls[call := Returned(Some(s.calls[call].thread))])) else None
    case JoinReturns(call) =>
      if call in s.calls && s.calls[call].Joins? && s.calls[call].thread in s.exited && s.calls[call].thread < |s.joins|
      then
        var t := s.calls[call].thread;
        Some(s.(joins := s.joins[t := s.joins[t] + 1], calls := s.calls[call := Joined(t)]))
      else None
    case Publish(call) =>
      if call in s.calls && s.calls[call].Joined?
      then Some(s.(pcm := Terminated, calls := s.calls[call := Returned(Some(s.calls[call].thread))])) else None
  }

  /** The call that cancelled the live thread and has not published yet. */
  predicate Joiner(s: State, call: nat) {
    call in s.calls && (s.calls[call].Joins? || s.calls[call].Joined?)
  }

  /** All threads but possibly the last were cancelled once and joined once. */
  ghost predicate Inv(s: State) {
    && |s.joins| == |s.cancels|
    && (forall t | 0 <= t < |s.cancels| && !(Live(s.pcm) && t == Tid(s)) :: s.cancels[t] == 1 && s.joins[t] == 1)
    && (Live(s.pcm) ==> |s.cancels| > 0)
    && (Live(s.pcm) && !s.pcm.Joining? ==> s.cancels[Tid(s)] == 0 && s.joins[Tid(s)] == 0)
    && (forall c, d | Joiner(s, c) && Joiner(s, d) :: c == d)
    && (s.pcm.Joining? <==> exists c :: Joiner(s, c))
    && (forall c | Joiner(s, c) ::
      s.calls[c].thread == Tid(s) && s.cancels[Tid(s)] == 1 && s.joins[Tid(s)] == if s.calls[c].Joined? then 1 else 0)
    && (forall c | c in s.calls && s.calls[c].Waiting? :: s.calls[c].thread < |s.cancels|)
    && (forall c | c in s.calls && s.calls[c].Returned? && s.calls[c].live.Some? ::
      s.calls[c].live.value < |s.joins| && s.joins[s.calls[c].live.value] == 1)
  }

  lemma InitInv()
    ensures Inv(INIT)
  {
  }

  /** A stop call always comes in, but when a thread was started that is not marked STOPPING. */
  lemma StopComesIn(s: State, call: nat)
    requires Inv(s) && call !in s.calls
    ensures Next(s, Enter(call)).None? <==> s.pcm.Starting? || s.pcm.Running?
    ensures Next(s, Enter(call)).Some? ==> call in Next(s, Enter(call)).value.calls
    ensures s.pcm.Stopping? ==> Next(s, Enter(call)).value.cancels[Tid(s)] == 1
  {
    if s.pcm.Joining? {
      var c :| Joiner(s, c);
    }
  }

  /**
    * Each state is entered by one kind of step from the states it may follow. Threads are made by starts that
    * succeed, and a start that fails ends TERMINATED.
    */
  lemma StatesEntered(s: State, a: Action)
    requires Inv(s) && Next(s, a).Some?
    ensures var t := Next(s, a).value;
      && (t.pcm.Starting? && t.pcm != s.pcm <==> a == Start(true))
      && (t.pcm.Running? && t.pcm != s.pcm <==> a.SetRunning? && s.pcm.Starting?)
      && (t.pcm.Stopping? && t.pcm != s.pcm <==> a.SetStopping? && (s.pcm.Starting? || s.pcm.Running?))
      && (t.pcm.Joining? && t.pcm != s.pcm <==> a.Enter? && s.pcm.Stopping?)
      && (t.pcm.Terminated? && t.pcm != s.pcm <==> a.Publish? || (s.pcm.Idle? && (a.Enter? || a == Start(false))))
      && (t.pcm.Idle? && t.pcm != s.pcm <==> a.SetIdle? && s.pcm.Terminated?)
      && |t.cancels| == (if a == Start(true) then |s.cancels| + 1 else |s.cancels|)
    ensures a.Start? ==> s.pcm.Idle?
  {
    if a.Publish? {
      assert Joiner(s, a.call);
    }
  }

  /** Every step keeps the invariant. */
  lemma StepInv(s: State, a: Action)
    requires Inv(s) && Next(s, a).Some?
    ensures Inv(Next(s, a).value)
  {
    match a
    case Enter(call) => EnterInv(s, call);
    case JoinReturns(call) => JoinInv(s, call);
    case Publish(call) => PublishInv(s, call);
    case Start(created) => StartInv(s, created);
    case Wake(call) => WakeInv(s, call);
    case _ => SetInv(s, a);
  }

  lemma SetInv(s: State, a: Action)
    requires Inv(s) && Next(s, a).Some? && (a.SetIdle? || a.SetRunning? || a.SetStopping? || a.Exit?)
    ensures Inv(Next(s, a).value)
  {
    var r := Next(s, a).value;
    assert forall c :: Joiner(r, c) <==> Joiner(s, c);
  }

  lemma StartInv(s: State, created: bool)
    requires Inv(s) && Next(s, Start(created)).Some?
    ensures Inv(Next(s, Start(created)).value)
  {
    var r := Next(s, Start(created)).value;
    assert forall c :: Joiner(r, c) <==> Joiner(s, c);
  }

  lemma WakeInv(s: State, call: nat)
    requires Inv(s) && Next(s, Wake(call)).Some?
    ensures Inv(Next(s, Wake(call)).value)
  {
    var r := Next(s, Wake(call)).value;
    assert forall c :: Joiner(r, c) <==> Joiner(s, c);
  }

  lemma EnterInv(s: State, call: nat)
    requires Inv(s) && Next(s, Enter(call)).Some?
    ensures Inv(Next(s, Enter(call)).value)
  {
    var r := Next(s, Enter(call)).value;
    if s.pcm.Stopping? {
      assert Joiner(r, call);
      assert forall c | Joiner(r, c) :: c == call || Joiner(s, c);
    } else {
      assert forall c :: Joiner(r, c) <==> Joiner(s, c);
    }
  }

  lemma JoinInv(s: State, call: nat)
    requires Inv(s) && Next(s, JoinReturns(call)).Some?
    ensures Inv(Next(s, JoinReturns(call)).value)
  {
    var r := Next(s, JoinReturns(call)).value;
    assert Joiner(s, call);
    assert forall c :: Joiner(r, c) <==> Joiner(s, c);
  }

  lemma PublishInv(s: State, call: nat)
    requires Inv(s) && Next(s, Publish(call)).Some?
    ensures Inv(Next(s, Publish(call)).value)
  {
    var r := Next(s, Publish(call)).value;
    assert Joiner(s, call) && s.pcm.Joining?;
    assert forall c :: !Joiner(r, c) by {
      forall c ensures !Joiner(r, c) {
        if Joiner(r, c) {
          assert c != call && Joiner(s, c);
        }
      }
    }
  }

  function Run(s: State, acts: seq<Action>): Option<State>
    decreases |acts|
  {
    if acts == [] then Some(s)
    else match Next(s, acts[0])
      case None => None
      case Some(r) => Run(r, acts[1..])
  }

  lemma {:induction false} RunInv(s: State, acts: seq<Action>)
    requires Inv(s) && Run(s, acts).Some?
    ensures Inv(Run(s, acts).value)
    decreases |acts|
  {
    if acts != [] {
      StepInv(s, acts[0]);
      RunInv(Next(s, acts[0]).value, acts[1..]);
    }
  }

  /**
    * Over any run every thread is cancelled at most once and joined at most once, and not before it was
    * cancelled; when the PCM is terminated, or idle, every thread was joined; and a stop call that found a live
    * thread has returned only if that thread was joined.
    */
  lemma Safety(acts: seq<Action>)
    requires Run(INIT, acts).Some?
    ensures var s := Run(INIT, acts).value;
      && |s.joins| == |s.cancels|
      && (forall t | 0 <= t < |s.cancels| :: s.joins[t] <= s.cancels[t] <= 1)
      && (s.pcm.Terminated? || s.pcm.Idle? ==> forall t | 0 <= t < |s.joins| :: s.joins[t] == 1)
      && (forall c | c in s.calls && s.calls[c].Returned? && s.calls[c].live.Some? ::
        s.calls[c].live.value < |s.joins| && s.joins[s.calls[c].live.value] == 1)
  {
    InitInv();
    RunInv(INIT, acts);
    var s := Run(INIT, acts).value;
    if s.pcm.Joining? {
      var c :| Joiner(s, c);
    }
  }

  /** The thread that a stop call is about. */
  function ThreadOf(p: Phase): Option<nat> {
    match p
    case Waiting(t) => Some(t)
    case Joins(t) => Some(t)
    case Joined(t) => Some(t)
    case Returned(live) => live
  }

  lemma {:induction false} KeepsThread(s: State, acts: seq<Action>, call: nat)
    requires call in s.calls && Run(s, acts).Some?
    ensures call in Run(s, acts).value.calls
    ensures ThreadOf(Run(s, acts).value.calls[call]) == ThreadOf(s.calls[call])
    decreases |acts|
  {
    if acts != [] {
      KeepsThread(Next(s, acts[0]).value, acts[1..], call);
    }
  }

  /** A stop call that comes in while a thread is live returns only after that thread was joined. */
  lemma StopIsSynchronous(s: State, call: nat, acts: seq<Action>)
    requires Inv(s) && Live(s.pcm) && Next(s, Enter(call)).Some? && Run(Next(s, Enter(call)).value, acts).Some?
    ensures var r := Run(Next(s, Enter(call)).value, acts).value;
      call in r.calls && (r.calls[call].Returned? ==> Tid(s) < |r.joins| && r.joins[Tid(s)] == 1)
  {
    var e := Next(s, Enter(call)).value;
    StepInv(s, Enter(call));
    KeepsThread(e, acts, call);
    RunInv(e, acts);
  }

  // ---------------------------------------------------------------------------------------------
  // A second stop call, which waits for the first.

  predicate IsWaiting(s: State, call: nat) {
    call in s.calls && s.calls[call].Waiting?
  }

  predicate HasReturned(s: State, call: nat) {
    call in s.calls && s.calls[call].Returned?
  }

  /** Terminated stays terminated as long as the PCM is not set idle. */
  lemma TerminatedStays(s: State, a: Action)
    requires Inv(s) && s.pcm.Terminated? && Next(s, a).Some? && !a.SetIdle?
    ensures Next(s, a).value.pcm.Terminated?
  {
  }

  /** Once its thread is joined, a waiting call can return at any time until the PCM is set idle. */
  lemma {:induction false} WaiterCanReturn(s: State, call: nat, acts: seq<Action>)
    requires Inv(s) && s.pcm.Terminated? && (IsWaiting(s, call) || HasReturned(s, call))
    requires Run(s, acts).Some? && forall a | a in acts :: !a.SetIdle?
    ensures var r := Run(s, acts).value;
      HasReturned(r, call) || (IsWaiting(r, call) && Next(r, Wake(call)).Some?)
    decreases |acts|
  {
    if acts != [] {
      StepInv(s, acts[0]);
      TerminatedStays(s, acts[0]);
      WaiterCanReturn(Next(s, acts[0]).value, call, acts[1..]);
    }
  }

  /** No state on the way, the last one included, is terminated. */
  predicate NeverTerminated(s: State, acts: seq<Action>)
    requires Run(s, acts).Some?
    decreases |acts|
  {
    !s.pcm.Terminated? && (acts == [] || NeverTerminated(Next(s, acts[0]).value, acts[1..]))
  }

  /** Set idle before it wakes up, it waits on until some thread is terminated again. */
  lemma {:induction false} WaiterWaitsOn(s: State, call: nat, acts: seq<Action>)
    requires IsWaiting(s, call) && Run(s, acts).Some? && NeverTerminated(s, acts)
    ensures IsWaiting(Run(s, acts).value, call) && Next(Run(s, acts).value, Wake(call)).None?
    decreases |acts|
  {
    if acts != [] {
      WaiterWaitsOn(Next(s, acts[0]).value, call, acts[1..]);
    }
  }

  lemma SetIdleHides(s: State, call: nat)
    requires s.pcm.Terminated? && IsWaiting(s, call)
    ensures var r := Next(s, SetIdle);
      r.Some? && r.value.pcm.Idle? && IsWaiting(r.value, call) && Next(r.value, Wake(call)).None?
  {
  }

  /** Two calls stop one thread, the first joins it, and the PCM is set idle before the second wakes up. */
  const MISSED := [SetIdle, Start(true), SetStopping, Enter(0), Enter(1), Exit(0), JoinReturns(0), Publish(0), SetIdle]

  /** The states of that run. */
  function Missed(i: nat): State {
    match i
    case 0 => INIT
    case 1 => State(Idle, [], [], {}, map[])
    case 2 => State(Starting, [0], [0], {}, map[])
    case 3 => State(PcmState.Stopping, [0], [0], {}, map[])
    case 4 => State(Joining, [1], [0], {}, map[0 := Joins(0)])
    case 5 => State(Joining, [1], [0], {}, map[0 := Joins(0), 1 := Waiting(0)])
    case 6 => State(Joining, [1], [0], {0}, map[0 := Joins(0), 1 := Waiting(0)])
    case 7 => State(Joining, [1], [1], {0}, map[0 := Joined(0), 1 := Waiting(0)])
    case 8 => State(Terminated, [1], [1], {0}, map[0 := Returned(Some(0)), 1 := Waiting(0)])
    case _ => State(Idle, [1], [1], {0}, map[0 := Returned(Some(0)), 1 := Waiting(0)])
  }

  lemma MissedFirst(i: nat)
    requires i < 5
    ensures Next(Missed(i), MISSED[i]) == Some(Missed(i + 1))
  {
    var r, m := Next(Missed(i), MISSED[i]).value, Missed(i + 1);
    assert r.calls == m.calls && r.cancels == m.cancels && r.joins == m.joins && r.exited == m.exited;
  }

  lemma MissedLast(i: nat)
    requires 5 <= i < |MISSED|
    ensures Next(Missed(i), MISSED[i]) == Some(Missed(i + 1))
  {
    var r, m := Next(Missed(i), MISSED[i]).value, Missed(i + 1);
    assert r.calls == m.calls && r.cancels == m.cancels && r.joins == m.joins && r.exited == m.exited;
  }

  lemma {:induction false} MissedRun(i: nat)
    requires i <= |MISSED|
    ensures Run(Missed(i), MISSED[i..]) == Some(Missed(|MISSED|))
    decreases |MISSED| - i
  {
    if i < |MISSED| {
      hide Next, Missed;
      if i < 5 {
        MissedFirst(i);
      } else {
        MissedLast(i);
      }
      MissedRun(i + 1);
    }
  }

  lemma WaiterMissesTheEnd()
    ensures Run(INIT, MISSED).Some?
    ensures var r := Run(INIT, MISSED).value; HasReturned(r, 0) && IsWaiting(r, 1) && Next(r, Wake(1)).None?
  {
    hide Run;
    MissedRun(0);
    assert MISSED[0..] == MISSED;
  }
}
