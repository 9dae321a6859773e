/**
 The recovery driver (MODE=recover of scripts/live-final05-worker.ts) as a transition system.

 The driver is one thread that suspends at every `await`. Whatever happens meanwhile - a call of the
 controller answering, the timer firing, a launched loop settling - is an `Event`, and any sequence of
 events that is possible in turn is a run.
 */
module RecoveryDriver {
  import opened Sequences

  type Id = string

  datatype MissionState = Active | Completed | Failed | Cancelled

  datatype Phase =
    | Reading                                // awaiting stores.missions.get
    | AwaitingAbandoned                      // awaiting reconcileAbandonedExecutions
    | AwaitingProvider(abandoned: seq<Id>)   // awaiting reconcileProviderWaits
    | Sleeping
    | Draining                               // awaiting Promise.allSettled
    | Flushing
    | Done                                   // RECOVER_DONE printed
    | Crashed                                // exited without RECOVER_DONE

  datatype Event =
    | MissionRead(state: Option<MissionState>, pastDeadline: bool)
    | AbandonedReconciled(resumed: seq<Id>)
    | ProviderReconciled(resumed: seq<Id>)
    | CallRejected
    | Woke
    | LoopSettled(id: Id)
    | LoopRejected(id: Id)
    | AllSettled
    | Flushed
    | TurnEnds  // the microtask queue is empty: the runtime looks for unhandled rejections

  /**
   `calls` are the ids handed to runAutonomousLoop, in order; `settled` those whose loop has settled, and
   `unhandled` those whose loop has rejected while nothing listened to it.
   */
  datatype State = State(phase: Phase, calls: seq<Id>, settled: set<Id>, unhandled: set<Id>,
                         passCount: nat, abandonedRecovered: nat)

  predicate Enabled(s: State, e: Event) {
    match e
    case MissionRead(_, _) => s.phase.Reading?
    case AbandonedReconciled(_) => s.phase.AwaitingAbandoned?
    case ProviderReconciled(_) => s.phase.AwaitingProvider?
    case CallRejected => s.phase.Reading? || s.phase.AwaitingAbandoned? || s.phase.AwaitingProvider? || s.phase.Flushing?
    case Woke => s.phase.Sleeping? && s.unhandled == {}  // a timer fires in a later turn
    case LoopSettled(id) => !s.phase.Done? && !s.phase.Crashed? && id in s.calls && id !in s.settled
    case LoopRejected(id) => !s.phase.Done? && !s.phase.Crashed? && id in s.calls && id !in s.settled
    case AllSettled => s.phase.Draining? && forall id :: id in s.calls ==> id in s.settled
    case Flushed => s.phase.Flushing?
    case TurnEnds => !s.phase.Done? && !s.phase.Crashed?
  }

  /** `s` after launching `ids`: each id that has no loop yet gets one, in order of first mention. */
  function Launched(s: State, ids: seq<Id>): State { s.(calls := Extend(s.calls, ids)) }

  function Init(boot: seq<Id>): State {
    Launched(State(Reading, [], {}, {}, 0, 0), boot)
  }

  function Step(s: State, e: Event): State
    requires Enabled(s, e)
  {
    match e
    case MissionRead(state, pastDeadline) =>
      if state.None? then s.(phase := Crashed)
      else if state.value != Active || pastDeadline then s.(phase := Draining, unhandled := {})
      else s.(phase := AwaitingAbandoned)
    case AbandonedReconciled(resumed) => s.(phase := AwaitingProvider(resumed))
    case ProviderReconciled(resumed) =>
      Launched(s, s.phase.abandoned + resumed).(
        phase := Sleeping,
        passCount := s.passCount + 1,
        abandonedRecovered := s.abandonedRecovered + |s.phase.abandoned|)
    case CallRejected => s.(phase := Crashed)
    case Woke => s.(phase := Reading)
    case LoopSettled(id) => s.(settled := s.settled + {id})
    case LoopRejected(id) =>
      // Nothing listens to a loop before Promise.allSettled.
      s.(settled := s.settled + {id}, unhandled := if s.phase.Draining? then {} else s.unhandled + {id})
    case AllSettled => s.(phase := Flushing)
    case Flushed => s.(phase := Done)
    case TurnEnds => if s.unhandled == {} then s else s.(phase := Crashed)
  }

  /** The state after a run that boot recovery starts with `boot`; `None` if some event is not possible in turn. */
  function Run(boot: seq<Id>, events: seq<Event>): Option<State> {
    if events == [] then Some(Init(boot))
    else
      var e := events[|events| - 1];
      match Run(boot, events[..|events| - 1])
      case None => None
      case Some(s) => if Enabled(s, e) then Some(Step(s, e)) else None
  }

  // ---------------------------------------------------------------------------------------------
  // The program
  // ---------------------------------------------------------------------------------------------

  datatype LoopState = Running | Settled

  lemma PassStep(s: State, resumed: seq<Id>, t: State)
    requires s.phase.AwaitingProvider? && t.phase == Sleeping
    requires t.calls == Extend(s.calls, s.phase.abandoned + resumed)
    requires t.settled == s.settled && t.unhandled == s.unhandled
    requires t.passCount == s.passCount + 1 && t.abandonedRecovered == s.abandonedRecovered + |s.phase.abandoned|
    ensures t == Step(s, ProviderReconciled(resumed))
  {
  }

  class Driver {
    var phase: Phase
    var loops: map<Id, LoopState>
    ghost var calls: seq<Id>
    var unhandled: set<Id>  // kept by the runtime
    var passCount: nat
    var abandonedRecovered: nat

    ghost function SettledLoops(): set<Id>
      reads this`loops
    {
      set id | id in loops && loops[id].Settled?
    }

    ghost function View(): State
      reads this
    {
      State(phase, calls, SettledLoops(), unhandled, passCount, abandonedRecovered)
    }

    ghost predicate Valid()
      reads this`loops, this`calls
    {
      forall id :: id in loops <==> id in calls
    }

    constructor (boot: seq<Id>)
      ensures Valid() && View() == Init(boot)
    {
      phase, loops, calls, unhandled, passCount, abandonedRecovered := Reading, map[], [], {}, 0, 0;
      new;
      LaunchAll(boot);
    }

    method Launch(id: Id)
      requires Valid()
      modifies this`loops, this`calls
      ensures Valid() && SettledLoops() == old(SettledLoops())
      ensures calls == if id in old(calls) then old(calls) else old(calls) + [id]
    {
      if id in loops { return; }
      loops := loops[id := Running];
      calls := calls + [id];
    }

    method LaunchAll(ids: seq<Id>)
      requires Valid()
      modifies this`loops, this`calls
      ensures Valid() && SettledLoops() == old(SettledLoops())
      ensures calls == Extend(old(calls), ids)
    {
      for i := 0 to |ids|
        invariant Valid() && SettledLoops() == old(SettledLoops())
        invariant Extend(calls, ids[i..]) == Extend(old(calls), ids)
      {
        Launch(ids[i]);
        assert ids[i..][1..] == ids[i + 1..];
      }
    }

    method FinishPass(resumed: seq<Id>)
      requires Valid() && phase.AwaitingProvider?
      modifies this`phase, this`loops, this`calls, this`passCount, this`abandonedRecovered
      ensures Valid() && SettledLoops() == old(SettledLoops()) && phase == Sleeping
      ensures calls == Extend(old(calls), old(phase).abandoned + resumed)
      ensures passCount == old(passCount) + 1
      ensures abandonedRecovered == old(abandonedRecovered) + |old(phase).abandoned|
    {
      var abandoned := phase.abandoned;
      passCount := passCount + 1;
      if |abandoned| > 0 || |resumed| > 0 {
        abandonedRecovered := abandonedRecovered + |abandoned|;
      }
      LaunchAll(abandoned + resumed);
      phase := Sleeping;
    }

    method MarkSettled(id: Id)
      requires Valid() && id in loops
      modifies this`loops
      ensures Valid() && SettledLoops() == old(SettledLoops()) + {id}
    {
      loops := loops[id := Settled];
    }

    /** `Promise.allSettled` listens to every loop, the rejected ones included. */
    method StartDraining()
      modifies this`phase, this`unhandled
      ensures phase == Draining && unhandled == {}
    {
      phase, unhandled := Draining, {};
    }

    method OnMissionRead(current: Option<MissionState>, pastDeadline: bool)
      requires phase.Reading?
      modifies this`phase, this`unhandled
      ensures View() == Step(old(View()), MissionRead(current, pastDeadline))
    {
      if current.None? {
        phase := Crashed;
      } else if current.value == Completed || current.value == Failed || current.value == Cancelled {
        StartDraining();
      } else if pastDeadline {
        StartDraining();
      } else {
        phase := AwaitingAbandoned;
      }
    }

    /** The driver's own code between two awaits. */
    method Resume(e: Event)
      requires Valid() && Enabled(View(), e)
      requires !e.LoopSettled? && !e.LoopRejected? && !e.TurnEnds?
      modifies this
      ensures Valid() && View() == Step(old(View()), e)
    {
      match e
      case MissionRead(state, pastDeadline) => OnMissionRead(state, pastDeadline);
      case AbandonedReconciled(resumed) => Await(AwaitingProvider(resumed));
      case ProviderReconciled(resumed) =>
        FinishPass(resumed);
        PassStep(old(View()), resumed, View());
      case CallRejected => Await(Crashed);
      case Woke => Await(Reading);
      case AllSettled => Await(Flushing);
      case Flushed => Await(Done);
    }

    method Await(next: Phase)
      modifies this`phase
      ensures View() == old(View()).(phase := next)
    {
      phase := next;
    }

    /** Whatever happens next, to the driver, to a loop or in the runtime. */
    method Deliver(e: Event)
      requires Valid() && Enabled(View(), e)
      modifies this
      ensures Valid() && View() == Step(old(View()), e)
    {
      match e
      case LoopSettled(id) => MarkSettled(id);
      case LoopRejected(id) =>
        MarkSettled(id);
        unhandled := if phase.Draining? then {} else unhandled + {id};
      case TurnEnds =>
        if unhandled != {} { phase := Crashed; }
      case _ => Resume(e);
    }
  }

  // ---------------------------------------------------------------------------------------------
  // What holds in every run
  // ---------------------------------------------------------------------------------------------

  /** Every id the controller reported, in order, repetitions included. */
  function Reports(events: seq<Event>): seq<Id> {
    if events == [] then []
    else
      var e := events[|events| - 1];
      Reports(events[..|events| - 1]) + if e.AbandonedReconciled? || e.ProviderReconciled? then e.resumed else []
  }

  function AbandonedTotal(events: seq<Event>): nat {
    if events == [] then 0
    else
      var e := events[|events| - 1];
      AbandonedTotal(events[..|events| - 1]) + if e.AbandonedReconciled? then |e.resumed| else 0
  }

  /** The passes that were completed. */
  function PassTotal(events: seq<Event>): nat {
    if events == [] then 0
    else PassTotal(events[..|events| - 1]) + if events[|events| - 1].ProviderReconciled? then 1 else 0
  }

  /** A reading that ends the polling: the mission is over, or the deadline has passed. */
  predicate Ends(e: Event) { e.MissionRead? && e.state.Some? && (e.state.value != Active || e.pastDeadline) }

  /** Reported in the pass under way and not acted on yet. */
  function Pending(s: State): seq<Id> { if s.phase.AwaitingProvider? then s.phase.abandoned else [] }

  ghost predicate CallsInv(boot: seq<Id>, events: seq<Event>, s: State) {
    var reported := Extend([], boot + Reports(events));
    s.calls <= reported && (!s.phase.Crashed? ==> Extend(s.calls, Pending(s)) == reported)
  }

  ghost predicate CountInv(events: seq<Event>, s: State) {
    && s.passCount == PassTotal(events)
    && (!s.phase.Crashed? ==> s.abandonedRecovered + |Pending(s)| == AbandonedTotal(events))
    && (s.phase.Draining? || s.phase.Flushing? || s.phase.Done? ==> exists e :: e in events && Ends(e))
  }

  ghost predicate LoopsInv(events: seq<Event>, s: State) {
    && (forall id :: id in s.settled <==> LoopSettled(id) in events || LoopRejected(id) in events)
    && (s.phase.Flushing? || s.phase.Done? ==> forall id :: id in s.calls ==> id in s.settled)
  }

  ghost predicate Inv(boot: seq<Id>, events: seq<Event>, s: State) {
    CallsInv(boot, events, s) && CountInv(events, s) && LoopsInv(events, s)
  }

  lemma InvInit(boot: seq<Id>)
    ensures Inv(boot, [], Init(boot))
  {
    assert boot + [] == boot;
  }

  lemma {:induction false} InvHolds(boot: seq<Id>, events: seq<Event>)
    requires Run(boot, events).Some?
    ensures Inv(boot, events, Run(boot, events).value)
  {
    if events == [] {
      InvInit(boot);
    } else {
      var before, e := events[..|events| - 1], events[|events| - 1];
      InvHolds(boot, before);
      assert events == before + [e];
      InvStep(boot, before, Run(boot, before).value, e);
    }
  }

  lemma {:induction false} ReportsNext(boot: seq<Id>, events: seq<Event>, e: Event)
    ensures Extend([], boot + Reports(events + [e])) ==
              if e.AbandonedReconciled? || e.ProviderReconciled?
              then Extend(Extend([], boot + Reports(events)), e.resumed)
              else Extend([], boot + Reports(events))
  {
    assert (events + [e])[..|events|] == events;
    if e.AbandonedReconciled? || e.ProviderReconciled? {
      ConcatAssoc(boot, Reports(events), e.resumed);
      ExtendConcat([], boot + Reports(events), e.resumed);
    } else {
      assert Reports(events + [e]) == Reports(events);
    }
  }

  lemma {:induction false} CallsReported(boot: seq<Id>, events: seq<Event>, s: State, e: Event)
    requires CallsInv(boot, events, s) && Enabled(s, e) && (e.AbandonedReconciled? || e.ProviderReconciled?)
    ensures CallsInv(boot, events + [e], Step(s, e))
  {
    ReportsNext(boot, events, e);
    if e.ProviderReconciled? {
      ExtendConcat(s.calls, s.phase.abandoned, e.resumed);
    }
  }

  lemma {:induction false} CallsStep(boot: seq<Id>, events: seq<Event>, s: State, e: Event)
    requires CallsInv(boot, events, s) && Enabled(s, e)
    ensures CallsInv(boot, events + [e], Step(s, e))
  {
    if e.AbandonedReconciled? || e.ProviderReconciled? {
      CallsReported(boot, events, s, e);
    } else {
      ReportsNext(boot, events, e);
      assert Step(s, e).calls == s.calls;
      assert Step(s, e).phase.Crashed? || Pending(Step(s, e)) == Pending(s);
    }
  }

  lemma CountStep(events: seq<Event>, s: State, e: Event)
    requires CountInv(events, s) && Enabled(s, e)
    ensures CountInv(events + [e], Step(s, e))
  {
    assert (events + [e])[..|events|] == events;
    assert e in events + [e] && forall d :: d in events ==> d in events + [e];
  }

  lemma LoopsStep(events: seq<Event>, s: State, e: Event)
    requires LoopsInv(events, s) && Enabled(s, e)
    ensures LoopsInv(events + [e], Step(s, e))
  {
    assert e in events + [e];
  }

  lemma {:induction false} InvStep(boot: seq<Id>, events: seq<Event>, s: State, e: Event)
    requires Inv(boot, events, s) && Enabled(s, e)
    ensures Inv(boot, events + [e], Step(s, e))
  {
    CallsStep(boot, events, s, e);
    CountStep(events, s, e);
    LoopsStep(events, s, e);
  }

  /**
   When RECOVER_DONE is printed, every id reported at boot or by any pass has been launched exactly once,
   in order of first report, and no other.
   */
  lemma {:induction false} RecoverDone(boot: seq<Id>, events: seq<Event>, s: State)
    requires Run(boot, events) == Some(s) && s.phase.Done?
    ensures s.calls == Extend([], boot + Reports(events)) && NoDup(s.calls)
    ensures forall id :: id in s.calls <==> id in boot || id in Reports(events)
  {
    InvHolds(boot, events);
    ExtendNoDup([], boot + Reports(events));
  }

  /**
   By then the mission was over or the deadline had passed, every launched loop has settled, and the
   printed numbers are those of the passes and of the abandoned resumes over all passes.
   */
  lemma {:induction false} RecoverDoneTotals(boot: seq<Id>, events: seq<Event>, s: State)
    requires Run(boot, events) == Some(s) && s.phase.Done?
    ensures forall id :: id in s.calls ==> LoopSettled(id) in events || LoopRejected(id) in events
    ensures s.abandonedRecovered == AbandonedTotal(events) && s.passCount == PassTotal(events)
    ensures exists e :: e in events && Ends(e)
  {
    InvHolds(boot, events);
  }

  /** At any time before that, nothing has been launched twice and nothing that was not reported. */
  lemma {:induction false} LaunchedOnce(boot: seq<Id>, events: seq<Event>)
    requires Run(boot, events).Some?
    ensures NoDup(Run(boot, events).value.calls)
    ensures forall id :: id in Run(boot, events).value.calls ==> id in boot || id in Reports(events)
  {
    InvHolds(boot, events);
    ExtendNoDup([], boot + Reports(events));
  }

  // ---------------------------------------------------------------------------------------------
  // When a run crashes
  // ---------------------------------------------------------------------------------------------

  predicate Polling(p: Phase) {
    p.Reading? || p.AwaitingAbandoned? || p.AwaitingProvider? || p.Sleeping?
  }

  ghost predicate PollsOn(events: seq<Event>) { forall e :: e in events ==> !Ends(e) }

  ghost predicate Rejected(events: seq<Event>) { exists e :: e in events && e.LoopRejected? }

  /** A loop has rejected, and the polling goes on. */
  ghost predicate Unheard(events: seq<Event>) { Rejected(events) && PollsOn(events) }

  lemma EventsNext(events: seq<Event>, e: Event)
    ensures PollsOn(events + [e]) <==> PollsOn(events) && !Ends(e)
    ensures Rejected(events + [e]) <==> Rejected(events) || e.LoopRejected?
  {
    assert forall d :: d in events + [e] <==> d in events || d == e;
    assert e in events + [e];
  }

  /** Event `i` ends the process without RECOVER_DONE. */
  ghost predicate Fatal(events: seq<Event>, i: nat)
    requires i < |events|
  {
    || events[i].CallRejected?
    || (events[i].MissionRead? && events[i].state.None?)
    || (events[i].TurnEnds? && Unheard(events[..i]))
  }

  ghost predicate SomeFatal(events: seq<Event>) {
    exists i :: 0 <= i < |events| && Fatal(events, i)
  }

  lemma FatalNext(events: seq<Event>, e: Event)
    ensures SomeFatal(events + [e]) <==> SomeFatal(events) || Fatal(events + [e], |events|)
  {
    var all := events + [e];
    forall i | 0 <= i < |events| ensures Fatal(all, i) <==> Fatal(events, i) {
      assert all[i] == events[i] && all[..i] == events[..i];
    }
    if SomeFatal(events) {
      var i :| 0 <= i < |events| && Fatal(events, i);
      assert Fatal(all, i);
    }
  }

  ghost predicate CrashInv(events: seq<Event>, s: State) {
    && (s.phase.Crashed? <==> SomeFatal(events))
    && (!s.phase.Crashed? ==>
          && (Polling(s.phase) <==> PollsOn(events))
          && (s.unhandled != {} <==> Unheard(events)))
  }

  lemma {:induction false} CrashStep(events: seq<Event>, s: State, e: Event)
    requires CrashInv(events, s) && LoopsInv(events, s) && Enabled(s, e)
    ensures CrashInv(events + [e], Step(s, e))
  {
    var all := events + [e];
    FatalNext(events, e);
    EventsNext(events, e);
    assert all[|events|] == e && all[..|events|] == events;
  }

  lemma {:induction false} CrashInvHolds(boot: seq<Id>, events: seq<Event>)
    requires Run(boot, events).Some?
    ensures CrashInv(events, Run(boot, events).value)
  {
    if events != [] {
      var before, e := events[..|events| - 1], events[|events| - 1];
      CrashInvHolds(boot, before);
      InvHolds(boot, before);
      assert events == before + [e];
      CrashStep(before, Run(boot, before).value, e);
    }
  }

  /**
   A run has crashed exactly when an awaited call rejected, the mission disappeared, or a turn ended after
   a loop had rejected and before any reading that ends the polling.
   */
  lemma {:induction false} CrashesExactly(boot: seq<Id>, events: seq<Event>, s: State)
    requires Run(boot, events) == Some(s)
    ensures s.phase.Crashed? <==> SomeFatal(events)
  {
    CrashInvHolds(boot, events);
  }

  lemma SleepStep(s: State, e: Event)
    requires Enabled(s, e)
    ensures !s.phase.Crashed?
    ensures s.phase.Sleeping? && s.unhandled != {} ==>
              if e == TurnEnds then Step(s, e).phase.Crashed? else Step(s, e).phase.Sleeping? && s.unhandled <= Step(s, e).unhandled
  {
  }

  /**
   Once a loop has rejected while the driver sleeps, the driver never wakes: whatever else the loops do,
   it sleeps on until the turn ends and the process with it.
   */
  lemma {:induction false} NeverWakes(boot: seq<Id>, events: seq<Event>, s: State, more: seq<Event>, t: State)
    requires Run(boot, events) == Some(s) && s.phase.Sleeping? && s.unhandled != {}
    requires Run(boot, events + more) == Some(t)
    ensures if TurnEnds in more then t.phase.Crashed? else t.phase.Sleeping? && s.unhandled <= t.unhandled
  {
    if more == [] {
      assert events + more == events;
    } else {
      var init, e := more[..|more| - 1], more[|more| - 1];
      assert (events + more)[..|events + more| - 1] == events + init;
      assert more == init + [e];
      NeverWakes(boot, events, s, init, Run(boot, events + init).value);
      SleepStep(Run(boot, events + init).value, e);
    }
  }

  lemma RunNext(boot: seq<Id>, events: seq<Event>, e: Event)
    requires Run(boot, events).Some? && Enabled(Run(boot, events).value, e)
    ensures Run(boot, events + [e]) == Some(Step(Run(boot, events).value, e))
  {
    assert (events + [e])[..|events|] == events;
  }

  /** Such a run: one quiet pass, then the one launched loop rejects while the driver sleeps. */
  lemma {:induction false} RejectionWhileSleeping(id: Id)
    ensures var events := [MissionRead(Some(Active), false), AbandonedReconciled([]), ProviderReconciled([]), LoopRejected(id)];
      && Run([id], events) == Some(State(Sleeping, [id], {id}, {id}, 1, 0))
      && Run([id], events + [TurnEnds]) == Some(State(Crashed, [id], {id}, {id}, 1, 0))
  {
    var e1, e2, e3 := MissionRead(Some(Active), false), AbandonedReconciled([]), ProviderReconciled([]);
    var none: set<Id>, quiet: seq<Id> := {}, [];
    assert none + {id} == {id} && quiet + quiet == quiet;
    assert Extend([], [id]) == Extend([id], []) == [id];
    assert Run([id], []) == Some(State(Reading, [id], {}, {}, 0, 0));
    RunNext([id], [], e1);
    assert [] + [e1] == [e1];
    RunNext([id], [e1], e2);
    assert [e1] + [e2] == [e1, e2];
    RunNext([id], [e1, e2], e3);
    assert [e1, e2] + [e3] == [e1, e2, e3];
    RunNext([id], [e1, e2, e3], LoopRejected(id));
    assert [e1, e2, e3] + [LoopRejected(id)] == [e1, e2, e3, LoopRejected(id)];
    RunNext([id], [e1, e2, e3, LoopRejected(id)], TurnEnds);
  }

  /** A rejection is survived when the polling ends in the same turn: `Promise.allSettled` then listens in time. */
  lemma {:induction false} RejectionInLastTurn(id: Id)
    ensures var events := [LoopRejected(id), MissionRead(Some(Completed), false), TurnEnds];
            Run([id], events) == Some(State(Draining, [id], {id}, {}, 0, 0))
  {
    var e1, e2 := LoopRejected(id), MissionRead(Some(Completed), false);
    var none: set<Id> := {};
    assert none + {id} == {id};
    assert Extend([], [id]) == Extend([id], []) == [id];
    assert Run([id], []) == Some(State(Reading, [id], {}, {}, 0, 0));
    RunNext([id], [], e1);
    assert [] + [e1] == [e1];
    RunNext([id], [e1], e2);
    assert [e1] + [e2] == [e1, e2];
    RunNext([id], [e1, e2], TurnEnds);
    assert [e1, e2] + [TurnEnds] == [e1, e2, TurnEnds];
  }

  // ---------------------------------------------------------------------------------------------
  // What can happen next, told from the events alone
  // ---------------------------------------------------------------------------------------------

  /** An answer the driver awaits, as opposed to something that befalls a loop or the runtime. */
  predicate IsAnswer(e: Event) { !e.LoopSettled? && !e.LoopRejected? && !e.TurnEnds? }

  function LastAnswer(events: seq<Event>): Option<Event> {
    if events == [] then None
    else if IsAnswer(events[|events| - 1]) then Some(events[|events| - 1])
    else LastAnswer(events[..|events| - 1])
  }

  /**
   The order of the awaits: read the mission; while it is active and there is time, reconcile the abandoned
   executions, then the provider holds, sleep, and read again; otherwise wait for the loops, then flush.
   */
  predicate Follows(last: Option<Event>, e: Event) {
    if last.None? || last.value.Woke? then e.MissionRead? || e.CallRejected?
    else match last.value
      case MissionRead(state, late) =>
        if state.None? then false
        else if state.value in {Completed, Failed, Cancelled} || late then e.AllSettled?
        else e.AbandonedReconciled? || e.CallRejected?
      case AbandonedReconciled(_) => e.ProviderReconciled? || e.CallRejected?
      case ProviderReconciled(_) => e.Woke?
      case AllSettled => e.Flushed? || e.CallRejected?
      case _ => false
  }

  ghost predicate Heard(events: seq<Event>, id: Id) { LoopSettled(id) in events || LoopRejected(id) in events }

  ghost predicate PhaseInv(events: seq<Event>, s: State) {
    !s.phase.Crashed? ==>
      match LastAnswer(events)
      case None => s.phase.Reading?
      case Some(MissionRead(None, _)) => false
      case Some(MissionRead(Some(state), late)) => if state != Active || late then s.phase.Draining? else s.phase.AwaitingAbandoned?
      case Some(AbandonedReconciled(_)) => s.phase.AwaitingProvider?
      case Some(ProviderReconciled(_)) => s.phase.Sleeping?
      case Some(Woke) => s.phase.Reading?
      case Some(AllSettled) => s.phase.Flushing?
      case Some(Flushed) => s.phase.Done?
      case _ => false
  }

  lemma {:induction false} PhaseStep(events: seq<Event>, s: State, e: Event)
    requires PhaseInv(events, s) && Enabled(s, e)
    ensures PhaseInv(events + [e], Step(s, e))
  {
    assert (events + [e])[..|events|] == events;
  }

  lemma {:induction false} PhaseHolds(boot: seq<Id>, events: seq<Event>)
    requires Run(boot, events).Some?
    ensures PhaseInv(events, Run(boot, events).value)
  {
    if events != [] {
      var before, e := events[..|events| - 1], events[|events| - 1];
      PhaseHolds(boot, before);
      assert events == before + [e];
      PhaseStep(before, Run(boot, before).value, e);
    }
  }

  /**
   After any run an answer can come next exactly when the process still lives and the order of the awaits
   asks for it; the driver wakes only in a later turn, and the loops are all settled only when each is.
   */
  lemma {:induction false} NextAnswerExactly(boot: seq<Id>, events: seq<Event>, s: State, e: Event)
    requires Run(boot, events) == Some(s) && IsAnswer(e)
    ensures Run(boot, events + [e]).Some? <==>
              && !SomeFatal(events)
              && Follows(LastAnswer(events), e)
              && (e.Woke? ==> !Unheard(events))
              && (e.AllSettled? ==> forall id :: id in s.calls ==> Heard(events, id))
  {
    assert (events + [e])[..|events|] == events;
    InvHolds(boot, events);
    CrashInvHolds(boot, events);
    PhaseHolds(boot, events);
    AnswerEnabled(events, s, e);
  }

  lemma {:induction false} AnswerEnabled(events: seq<Event>, s: State, e: Event)
    requires IsAnswer(e) && PhaseInv(events, s) && CrashInv(events, s) && LoopsInv(events, s)
    ensures Enabled(s, e) <==>
              && !SomeFatal(events)
              && Follows(LastAnswer(events), e)
              && (e.Woke? ==> !Unheard(events))
              && (e.AllSettled? ==> forall id :: id in s.calls ==> Heard(events, id))
  {
  }

  /** A loop settles one way or the other at most once, after its launch, while the process lives. */
  lemma {:induction false} LoopEndsExactly(boot: seq<Id>, events: seq<Event>, s: State, id: Id)
    requires Run(boot, events) == Some(s)
    ensures Run(boot, events + [LoopSettled(id)]).Some? <==> Run(boot, events + [LoopRejected(id)]).Some?
    ensures Run(boot, events + [LoopSettled(id)]).Some? <==>
              !SomeFatal(events) && LastAnswer(events) != Some(Flushed) && id in s.calls && !Heard(events, id)
  {
    assert (events + [LoopSettled(id)])[..|events|] == events;
    assert (events + [LoopRejected(id)])[..|events|] == events;
    InvHolds(boot, events);
    CrashInvHolds(boot, events);
    PhaseHolds(boot, events);
  }

  /** Between awaits every id reported so far has its loop, in order of first report; only a pass under way holds ids back. */
  lemma {:induction false} LaunchedSoFar(boot: seq<Id>, events: seq<Event>, s: State)
    requires Run(boot, events) == Some(s) && !SomeFatal(events)
    requires LastAnswer(events).None? || !LastAnswer(events).value.AbandonedReconciled?
    ensures s.calls == Extend([], boot + Reports(events))
  {
    InvHolds(boot, events);
    CrashInvHolds(boot, events);
    PhaseHolds(boot, events);
  }

  lemma {:induction false} RunPrefix(boot: seq<Id>, events: seq<Event>, n: nat)
    requires Run(boot, events).Some? && n <= |events|
    ensures Run(boot, events[..n]).Some?
  {
    if n == |events| {
      assert events[..n] == events;
    } else {
      assert events[..|events| - 1][..n] == events[..n];
      RunPrefix(boot, events[..|events| - 1], n);
    }
  }

  /** An active mission was read before the deadline, and no pass has been completed since. */
  ghost predicate Opened(events: seq<Event>) {
    exists k :: 0 <= k < |events| && events[k] == MissionRead(Some(Active), false)
                && forall m :: k < m < |events| ==> !events[m].ProviderReconciled?
  }

  lemma OpenedNext(events: seq<Event>, e: Event)
    requires Opened(events) && !e.ProviderReconciled?
    ensures Opened(events + [e])
  {
    var k :| 0 <= k < |events| && events[k] == MissionRead(Some(Active), false)
             && forall m :: k < m < |events| ==> !events[m].ProviderReconciled?;
    assert (events + [e])[k] == events[k];
  }

  ghost predicate OpenedInv(events: seq<Event>, s: State) {
    s.phase.AwaitingAbandoned? || s.phase.AwaitingProvider? ==> Opened(events)
  }

  lemma {:induction false} OpenedStep(events: seq<Event>, s: State, e: Event)
    requires OpenedInv(events, s) && Enabled(s, e)
    ensures OpenedInv(events + [e], Step(s, e))
  {
    if e.MissionRead? {
      assert (events + [e])[|events|] == e;
    } else if (s.phase.AwaitingAbandoned? || s.phase.AwaitingProvider?) && !e.ProviderReconciled? {
      OpenedNext(events, e);
    }
  }

  lemma {:induction false} PassesAreOpened(boot: seq<Id>, events: seq<Event>)
    requires Run(boot, events).Some?
    ensures OpenedInv(events, Run(boot, events).value)
  {
    if events != [] {
      var before, e := events[..|events| - 1], events[|events| - 1];
      assert events == before + [e];
      PassesAreOpened(boot, before);
      OpenedStep(before, Run(boot, before).value, e);
    }
  }

  lemma {:induction false} EnabledAt(boot: seq<Id>, events: seq<Event>, j: nat)
    requires Run(boot, events).Some? && j < |events|
    ensures Run(boot, events[..j]).Some? && Enabled(Run(boot, events[..j]).value, events[j])
  {
    RunPrefix(boot, events, j + 1);
    assert events[..j + 1][..j] == events[..j] && events[..j + 1][j] == events[j];
  }

  lemma OpenedAfter(events: seq<Event>, i: nat) returns (k: nat)
    requires Opened(events) && i < |events| && events[i].ProviderReconciled?
    ensures i < k < |events| && events[k] == MissionRead(Some(Active), false)
  {
    k :| 0 <= k < |events| && events[k] == MissionRead(Some(Active), false)
         && forall m :: k < m < |events| ==> !events[m].ProviderReconciled?;
  }

  /** The mission is read before every pass: between two passes there is a reading of an active mission in time. */
  lemma {:induction false} ReadBeforeEveryPass(boot: seq<Id>, events: seq<Event>, i: nat, j: nat) returns (k: nat)
    requires Run(boot, events).Some? && i < j < |events|
    requires events[i].ProviderReconciled? && events[j].ProviderReconciled?
    ensures i < k < j && events[k] == MissionRead(Some(Active), false)
  {
    EnabledAt(boot, events, j);
    PassesAreOpened(boot, events[..j]);
    k := OpenedAfter(events[..j], i);
  }

  /** A sleeping driver wakes, reads that it is over, waits for the loops and finishes. */
  lemma {:induction false} SleeperFinishes(boot: seq<Id>, events: seq<Event>, s: State, state: MissionState, late: bool)
    requires Run(boot, events) == Some(s) && !SomeFatal(events) && !Unheard(events)
    requires LastAnswer(events).Some? && LastAnswer(events).value.ProviderReconciled?
    requires state == Completed || state == Failed || state == Cancelled || late
    ensures var draining := events + [Woke] + [MissionRead(Some(state), late)];
      && Run(boot, draining).Some? && Run(boot, draining).value.phase.Draining?
      && ((forall id :: id in s.calls ==> Heard(events, id)) ==>
            var done := draining + [AllSettled] + [Flushed];
            Run(boot, done).Some? && Run(boot, done).value.phase.Done?)
  {
    InvHolds(boot, events);
    CrashInvHolds(boot, events);
    PhaseHolds(boot, events);
    RunNext(boot, events, Woke);
    var woken := events + [Woke];
    RunNext(boot, woken, MissionRead(Some(state), late));
    var draining := woken + [MissionRead(Some(state), late)];
    if forall id :: id in s.calls ==> Heard(events, id) {
      RunNext(boot, draining, AllSettled);
      RunNext(boot, draining + [AllSettled], Flushed);
    }
  }

  ghost predicate EndedBefore(events: seq<Event>, n: int) {
    exists h :: 0 <= h < n <= |events| && Ends(events[h])
  }

  ghost predicate SettledBefore(events: seq<Event>, n: int) {
    exists i :: 0 <= i < n <= |events| && events[i].AllSettled? && EndedBefore(events, i)
  }

  ghost predicate ShutDown(events: seq<Event>) {
    exists j :: 0 <= j < |events| && events[j].Flushed? && SettledBefore(events, j)
  }

  ghost predicate OrderInv(events: seq<Event>, s: State) {
    && (s.phase.Draining? ==> EndedBefore(events, |events|))
    && (s.phase.Flushing? ==> SettledBefore(events, |events|))
    && (s.phase.Done? ==> ShutDown(events))
  }

  lemma EndedNext(events: seq<Event>, e: Event, n: int)
    requires EndedBefore(events, n)
    ensures EndedBefore(events + [e], n) && EndedBefore(events + [e], |events| + 1)
  {
    var h :| 0 <= h < n <= |events| && Ends(events[h]);
    assert (events + [e])[h] == events[h];
  }

  lemma SettledNext(events: seq<Event>, e: Event, n: int)
    requires SettledBefore(events, n)
    ensures SettledBefore(events + [e], n) && SettledBefore(events + [e], |events| + 1)
  {
    var i :| 0 <= i < n <= |events| && events[i].AllSettled? && EndedBefore(events, i);
    EndedNext(events, e, i);
    assert (events + [e])[i] == events[i];
  }

  lemma {:induction false} OrderStep(events: seq<Event>, s: State, e: Event)
    requires OrderInv(events, s) && Enabled(s, e)
    ensures OrderInv(events + [e], Step(s, e))
  {
    var all := events + [e];
    assert all[|events|] == e;
    if s.phase.Draining? { EndedNext(events, e, |events|); }
    if s.phase.Flushing? { SettledNext(events, e, |events|); }
  }

  /** RECOVER_DONE comes after the flush, the flush after the loops, and the loops after the reading that ended the polling. */
  lemma {:induction false} DoneInOrder(boot: seq<Id>, events: seq<Event>)
    requires Run(boot, events).Some?
    ensures OrderInv(events, Run(boot, events).value)
  {
    if events != [] {
      var before, e := events[..|events| - 1], events[|events| - 1];
      DoneInOrder(boot, before);
      assert events == before + [e];
      OrderStep(before, Run(boot, before).value, e);
    }
  }
}
