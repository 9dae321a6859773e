/**
 The instrumented ports (scripts/live-final05-worker.ts, MODE=certify). Calls overlap freely: each port
 function is split by its `await` into the part before the real call and the part after it, and a run
 is any interleaving of such parts.
 */
module CertifyPorts {
  import opened Sequences

  datatype Usage = Usage(toolCalls: int, tokens: int, latencyMs: int, costUsd: real)

  datatype Stage = T3 | T4 | T6 | T7 | T8(cycle: nat)

  /** What happens to a call; a call whose real port rejects marks nothing more. */
  datatype Event =
    | PlanBegins(call: nat)
    | PlanEnds(call: nat)
    | ExecutionBegins(call: nat)
    | ExecutionEnds(call: nat, usage: Usage)
    | VerificationBegins(call: nat)
    | VerificationEnds(call: nat)
    | Rejects(call: nat)

  const NOTHING := Usage(0, 0, 0, 0.0)

  function Add(a: Usage, b: Usage): Usage {
    Usage(a.toolCalls + b.toolCalls, a.tokens + b.tokens, a.latencyMs + b.latencyMs, a.costUsd + b.costUsd)
  }

  /** The observer's variables, and the calls that have begun and not ended. */
  datatype State = State(timeline: seq<Stage>, usage: Usage, cycles: nat, planIds: nat,
                         planning: set<nat>, executing: set<nat>, verifying: set<nat>)

  predicate Enabled(s: State, e: Event) {
    match e
    case PlanEnds(c) => c in s.planning
    case ExecutionEnds(c, _) => c in s.executing
    case VerificationEnds(c) => c in s.verifying
    case Rejects(c) => c in s.planning + s.executing + s.verifying
    case _ => e.call !in s.planning + s.executing + s.verifying
  }

  function Step(s: State, e: Event): State {
    match e
    case PlanBegins(c) => s.(timeline := s.timeline + [T3], planning := s.planning + {c})
    case PlanEnds(c) => s.(timeline := s.timeline + [T4], planIds := s.planIds + 1, planning := s.planning - {c})
    case ExecutionBegins(c) => s.(timeline := s.timeline + [T6], executing := s.executing + {c})
    case ExecutionEnds(c, usage) =>
      s.(timeline := s.timeline + [T7], usage := Add(s.usage, usage), executing := s.executing - {c})
    case VerificationBegins(c) => s.(verifying := s.verifying + {c})
    case VerificationEnds(c) =>
      s.(timeline := s.timeline + [T8(s.cycles + 1)], cycles := s.cycles + 1, verifying := s.verifying - {c})
    case Rejects(c) => s.(planning := s.planning - {c}, executing := s.executing - {c}, verifying := s.verifying - {c})
  }

  const INIT := State([], NOTHING, 0, 0, {}, {}, {})

  ghost predicate Runs(events: seq<Event>, s: State) {
    if events == [] then s == INIT
    else
      var e := events[|events| - 1];
      exists before :: Runs(events[..|events| - 1], before) && Enabled(before, e) && s == Step(before, e)
  }

  class Certifier {
    var timeline: seq<Stage>
    var executionUsage: Usage
    var verificationCycles: nat
    var planIdsSeen: nat
    ghost var planning: set<nat>
    ghost var executing: set<nat>
    ghost var verifying: set<nat>

    ghost function View(): State
      reads this
    {
      State(timeline, executionUsage, verificationCycles, planIdsSeen, planning, executing, verifying)
    }

    constructor ()
      ensures View() == INIT
    {
      timeline, executionUsage, verificationCycles, planIdsSeen := [], NOTHING, 0, 0;
      planning, executing, verifying := {}, {}, {};
    }

    method Mark(stage: Stage)
      modifies this`timeline
      ensures timeline == old(timeline) + [stage]
    {
      timeline := timeline + [stage];
    }

    /** The part of a port function that runs without interruption when `e` happens. */
    method Deliver(e: Event)
      requires Enabled(View(), e)
      modifies this
      ensures View() == Step(old(View()), e)
    {
      match e
      case PlanBegins(c) =>
        Mark(T3);
        planning := planning + {c};
      case PlanEnds(c) =>
        planIdsSeen := planIdsSeen + 1;
        Mark(T4);
        planning := planning - {c};
      case ExecutionBegins(c) =>
        Mark(T6);
        executing := executing + {c};
      case ExecutionEnds(c, usage) =>
        executionUsage := Usage(
          executionUsage.toolCalls + usage.toolCalls,
          executionUsage.tokens + usage.tokens,
          executionUsage.latencyMs + usage.latencyMs,
          executionUsage.costUsd + usage.costUsd);
        Mark(T7);
        executing := executing - {c};
      case VerificationBegins(c) =>
        verifying := verifying + {c};
      case VerificationEnds(c) =>
        verificationCycles := verificationCycles + 1;
        Mark(T8(verificationCycles));
        verifying := verifying - {c};
      case Rejects(c) =>
        planning, executing, verifying := planning - {c}, executing - {c}, verifying - {c};
    }
  }

  // ---------------------------------------------------------------------------------------------
  // What holds in every run
  // ---------------------------------------------------------------------------------------------

  /** No prefix of the timeline has more results than starts. */
  ghost predicate Balanced(timeline: seq<Stage>) {
    forall k :: 0 <= k <= |timeline| ==>
      var m := multiset(timeline[..k]);
      m[T3] >= m[T4] && m[T6] >= m[T7]
  }

  /** The numbers of the verification marks, in order. */
  function Cycles(timeline: seq<Stage>): seq<nat> {
    if timeline == [] then []
    else
      var last := timeline[|timeline| - 1];
      Cycles(timeline[..|timeline| - 1]) + if last.T8? then [last.cycle] else []
  }

  function CompletedUsage(events: seq<Event>): Usage {
    if events == [] then NOTHING
    else
      var e := events[|events| - 1];
      var u := CompletedUsage(events[..|events| - 1]);
      if e.ExecutionEnds? then Add(u, e.usage) else u
  }

  ghost predicate CountInv(s: State) {
    var m := multiset(s.timeline);
    && m[T3] >= m[T4] + |s.planning|
    && m[T6] >= m[T7] + |s.executing|
    && m[T4] == s.planIds
    && Balanced(s.timeline)
  }

  ghost predicate CycleInv(s: State) {
    |Cycles(s.timeline)| == s.cycles && forall i :: 0 <= i < s.cycles ==> Cycles(s.timeline)[i] == i + 1
  }

  lemma BalancedNext(timeline: seq<Stage>, stage: Stage)
    requires Balanced(timeline)
    requires var m := multiset(timeline + [stage]); m[T3] >= m[T4] && m[T6] >= m[T7]
    ensures Balanced(timeline + [stage])
  {
    var all := timeline + [stage];
    forall k | 0 <= k <= |all| ensures multiset(all[..k])[T3] >= multiset(all[..k])[T4]
                                       && multiset(all[..k])[T6] >= multiset(all[..k])[T7] {
      assert all[..k] == if k <= |timeline| then timeline[..k] else all;
    }
  }

  lemma CountStep(s: State, e: Event)
    requires CountInv(s) && Enabled(s, e)
    ensures CountInv(Step(s, e))
  {
    var s' := Step(s, e);
    if s'.timeline != s.timeline {
      BalancedNext(s.timeline, s'.timeline[|s.timeline|]);
    }
  }

  lemma CycleStep(s: State, e: Event)
    requires CycleInv(s)
    ensures CycleInv(Step(s, e))
  {
    var s' := Step(s, e);
    if s'.timeline != s.timeline {
      assert s'.timeline[..|s.timeline|] == s.timeline;
    }
  }

  /**
   In every interleaving: no prefix of the timeline has a plan or an execution result without its start,
   the verification marks are numbered 1, 2, 3, ... in order, and the usage is the sum over the
   completed executions, so no overlapping call's update is lost.
   */
  lemma {:induction false} EveryTimeline(events: seq<Event>, s: State)
    requires Runs(events, s)
    ensures CountInv(s) && CycleInv(s) && s.usage == CompletedUsage(events)
  {
    if events != [] {
      var e := events[|events| - 1];
      var before :| Runs(events[..|events| - 1], before) && Enabled(before, e) && s == Step(before, e);
      EveryTimeline(events[..|events| - 1], before);
      CountStep(before, e);
      CycleStep(before, e);
    }
  }

  // ---------------------------------------------------------------------------------------------
  // The timeline and the sums, told from the events alone
  // ---------------------------------------------------------------------------------------------

  /** The mark an event leaves, verification marks without their number. */
  function MarkOf(e: Event): Option<Stage> {
    match e
    case PlanBegins(_) => Some(T3)
    case PlanEnds(_) => Some(T4)
    case ExecutionBegins(_) => Some(T6)
    case ExecutionEnds(_, _) => Some(T7)
    case VerificationEnds(_) => Some(T8(0))
    case _ => None
  }

  function Unnumbered(timeline: seq<Stage>): seq<Stage> {
    if timeline == [] then []
    else
      var last := timeline[|timeline| - 1];
      Unnumbered(timeline[..|timeline| - 1]) + [if last.T8? then T8(0) else last]
  }

  lemma UnnumberedNext(timeline: seq<Stage>, stage: Stage)
    ensures Unnumbered(timeline + [stage]) == Unnumbered(timeline) + [if stage.T8? then T8(0) else stage]
  {
    assert (timeline + [stage])[..|timeline|] == timeline;
  }

  lemma {:induction false} MarksNext(events: seq<Event>, e: Event)
    ensures FilterMap(MarkOf, events + [e]) ==
              match MarkOf(e) case None => FilterMap(MarkOf, events) case Some(m) => FilterMap(MarkOf, events) + [m]
  {
    FilterMapNext(MarkOf, events + [e], |events|);
    assert (events + [e])[..|events|] == events && (events + [e])[..|events| + 1] == events + [e];
  }

  lemma {:induction false} StepMarks(s: State, e: Event)
    requires Enabled(s, e)
    ensures Unnumbered(Step(s, e).timeline) ==
              match MarkOf(e) case None => Unnumbered(s.timeline) case Some(m) => Unnumbered(s.timeline) + [m]
  {
    if MarkOf(e).Some? {
      UnnumberedNext(s.timeline, if e.VerificationEnds? then T8(s.cycles + 1) else MarkOf(e).value);
    }
  }

  /** The timeline has one mark for every event that leaves one, in the order of the events, and nothing else. */
  lemma {:induction false} TimelineExactly(events: seq<Event>, s: State)
    requires Runs(events, s)
    ensures Unnumbered(s.timeline) == FilterMap(MarkOf, events)
  {
    if events != [] {
      var init, e := events[..|events| - 1], events[|events| - 1];
      var before :| Runs(init, before) && Enabled(before, e) && s == Step(before, e);
      TimelineExactly(init, before);
      assert events == init + [e];
      MarksNext(init, e);
      StepMarks(before, e);
    }
  }

  function ToolCalls(events: seq<Event>): int {
    if events == [] then 0
    else
      var init, e := ToolCalls(events[..|events| - 1]), events[|events| - 1];
      if e.ExecutionEnds? then init + e.usage.toolCalls else init
  }

  function Tokens(events: seq<Event>): int {
    if events == [] then 0
    else
      var init, e := Tokens(events[..|events| - 1]), events[|events| - 1];
      if e.ExecutionEnds? then init + e.usage.tokens else init
  }

  function Latency(events: seq<Event>): int {
    if events == [] then 0
    else
      var init, e := Latency(events[..|events| - 1]), events[|events| - 1];
      if e.ExecutionEnds? then init + e.usage.latencyMs else init
  }

  function Cost(events: seq<Event>): real {
    if events == [] then 0.0
    else
      var init, e := Cost(events[..|events| - 1]), events[|events| - 1];
      if e.ExecutionEnds? then init + e.usage.costUsd else init
  }

  /** Field by field the usage is the sum over the completed executions. */
  lemma {:induction false} UsageExactly(events: seq<Event>, s: State)
    requires Runs(events, s)
    ensures s.usage == Usage(ToolCalls(events), Tokens(events), Latency(events), Cost(events))
  {
    if events != [] {
      var init, e := events[..|events| - 1], events[|events| - 1];
      var before :| Runs(init, before) && Enabled(before, e) && s == Step(before, e);
      UsageExactly(init, before);
    }
  }
}
