/**
 The watchdog sampler (scripts/live-final05-gate-worker.ts). The driver exposes only its latest tick;
 a timer looks at it from time to time and adds up what is new. A run is any interleaving of the two.
 */
module TickSampler {
  import opened Sequences

  datatype Tick = Tick(finishedAt: int, considered: nat, resumed: nat)

  datatype Event = Finished(tick: Tick) | Sampled

  function One(t: Tick): nat { 1 }
  function Considered(t: Tick): nat { t.considered }
  function Resumed(t: Tick): nat { t.resumed }
  function Resuming(t: Tick): nat { if t.resumed > 0 then 1 else 0 }

  /** Sum of `f` over the ticks whose position is `picked`, each once. */
  ghost function Total(ticks: seq<Tick>, picked: set<nat>, f: Tick -> nat): nat {
    if ticks == [] then 0
    else
      var n := |ticks| - 1;
      Total(ticks[..n], picked, f) + if n in picked then f(ticks[n]) else 0
  }

  function Sum(ticks: seq<Tick>, f: Tick -> nat): nat {
    if ticks == [] then 0 else Sum(ticks[..|ticks| - 1], f) + f(ticks[|ticks| - 1])
  }

  /** `ticks` are all of the driver's so far; `accounted` are the positions of those the sampler added up. */
  datatype State = State(ticks: seq<Tick>, accounted: set<nat>, lastTickSeen: int)

  function Step(s: State, e: Event): State {
    match e
    case Finished(tick) => s.(ticks := s.ticks + [tick])
    case Sampled =>
      if s.ticks == [] || s.ticks[|s.ticks| - 1].finishedAt <= s.lastTickSeen then s
      else s.(accounted := s.accounted + {|s.ticks| - 1}, lastTickSeen := s.ticks[|s.ticks| - 1].finishedAt)
  }

  function Run(events: seq<Event>): State {
    if events == [] then State([], {}, 0) else Step(Run(events[..|events| - 1]), events[|events| - 1])
  }

  class TickWatcher {
    ghost var driverTicks: seq<Tick>
    ghost var accounted: set<nat>
    var lastTick: Option<Tick>  // what the driver exposes
    var lastTickSeen: int
    var ticks: nat
    var resumeTicks: nat
    var resumedTotal: nat
    var consideredTotal: nat

    ghost function View(): State
      reads this
    {
      State(driverTicks, accounted, lastTickSeen)
    }

    ghost predicate Valid()
      reads this
    {
      && lastTick == (if driverTicks == [] then None else Some(driverTicks[|driverTicks| - 1]))
      && (|driverTicks| - 1 in accounted ==> driverTicks != [] && driverTicks[|driverTicks| - 1].finishedAt <= lastTickSeen)
      && (forall i :: i in accounted ==> i < |driverTicks|)
      && ticks == Total(driverTicks, accounted, One)
      && resumeTicks == Total(driverTicks, accounted, Resuming)
      && resumedTotal == Total(driverTicks, accounted, Resumed)
      && consideredTotal == Total(driverTicks, accounted, Considered)
    }

    constructor ()
      ensures Valid() && View() == Run([])
    {
      driverTicks, accounted, lastTick, lastTickSeen := [], {}, None, 0;
      ticks, resumeTicks, resumedTotal, consideredTotal := 0, 0, 0, 0;
    }

    /** The driver finishes a pass. */
    method Finish(tick: Tick)
      requires Valid()
      modifies this
      ensures Valid() && View() == Step(old(View()), Finished(tick))
    {
      assert (driverTicks + [tick])[..|driverTicks|] == driverTicks;
      driverTicks := driverTicks + [tick];
      lastTick := Some(tick);
    }

    /** The timer callback. */
    method Sample()
      requires Valid()
      modifies this
      ensures Valid() && View() == Step(old(View()), Sampled)
      ensures lastTick == old(lastTick)
      ensures match lastTick
              case Some(t) =>
                if t.finishedAt > old(lastTickSeen)
                then lastTickSeen == t.finishedAt
                     && ticks == old(ticks) + 1
                     && consideredTotal == old(consideredTotal) + t.considered
                     && resumedTotal == old(resumedTotal) + t.resumed
                     && resumeTicks == old(resumeTicks) + if t.resumed > 0 then 1 else 0
                else unchanged(this)
              case None => unchanged(this)
    {
      if lastTick.None? || lastTick.value.finishedAt <= lastTickSeen { return; }
      var last := lastTick.value;
      PickLast(driverTicks, accounted, One);
      PickLast(driverTicks, accounted, Resuming);
      PickLast(driverTicks, accounted, Resumed);
      PickLast(driverTicks, accounted, Considered);
      lastTickSeen := last.finishedAt;
      ticks := ticks + 1;
      consideredTotal := consideredTotal + last.considered;
      if last.resumed > 0 {
        resumeTicks := resumeTicks + 1;
        resumedTotal := resumedTotal + last.resumed;
      }
      accounted := accounted + {|driverTicks| - 1};
    }
  }

  lemma {:induction false} PickBeyond(ticks: seq<Tick>, picked: set<nat>, f: Tick -> nat, n: nat)
    requires |ticks| <= n
    ensures Total(ticks, picked + {n}, f) == Total(ticks, picked, f)
  {
    if ticks != [] { PickBeyond(ticks[..|ticks| - 1], picked, f, n); }
  }

  lemma PickLast(ticks: seq<Tick>, picked: set<nat>, f: Tick -> nat)
    requires ticks != [] && |ticks| - 1 !in picked
    ensures Total(ticks, picked + {|ticks| - 1}, f) == Total(ticks, picked, f) + f(ticks[|ticks| - 1])
  {
    PickBeyond(ticks[..|ticks| - 1], picked, f, |ticks| - 1);
  }

  // ---------------------------------------------------------------------------------------------
  // What holds in every run
  // ---------------------------------------------------------------------------------------------

  /** A total never exceeds what the driver did, and equals it exactly when every tick left out adds nothing. */
  lemma {:induction false} TotalAtMostSum(ticks: seq<Tick>, picked: set<nat>, f: Tick -> nat)
    ensures Total(ticks, picked, f) <= Sum(ticks, f)
    ensures Total(ticks, picked, f) == Sum(ticks, f) <==> forall i :: 0 <= i < |ticks| && f(ticks[i]) > 0 ==> i in picked
  {
    if ticks != [] {
      var init := ticks[..|ticks| - 1];
      TotalAtMostSum(init, picked, f);
      assert forall i :: 0 <= i < |init| ==> init[i] == ticks[i];
    }
  }

  function DriverTicks(events: seq<Event>): seq<Tick> {
    if events == [] then []
    else
      var e := events[|events| - 1];
      DriverTicks(events[..|events| - 1]) + if e.Finished? then [e.tick] else []
  }

  /** The sampler ran between this tick of the driver and the next. */
  ghost predicate Observed(events: seq<Event>, i: nat) {
    exists p :: 0 <= p < |events| && events[p].Sampled? && |DriverTicks(events[..p])| == i + 1
  }

  ghost predicate Increasing(ticks: seq<Tick>) {
    && (forall i :: 0 <= i < |ticks| ==> 0 < ticks[i].finishedAt)
    && (forall i, j :: 0 <= i < j < |ticks| ==> ticks[i].finishedAt < ticks[j].finishedAt)
  }

  lemma ObservedNext(events: seq<Event>, e: Event, i: nat)
    ensures Observed(events + [e], i) <==> Observed(events, i) || (e.Sampled? && |DriverTicks(events)| == i + 1)
  {
    var all := events + [e];
    assert all[..|events|] == events && all[|events|] == e;
    forall p | 0 <= p < |events| ensures all[..p] == events[..p] && all[p] == events[p] {
    }
    if Observed(events, i) {
      var p :| 0 <= p < |events| && events[p].Sampled? && |DriverTicks(events[..p])| == i + 1;
      assert all[p].Sampled? && |DriverTicks(all[..p])| == i + 1;
    }
    if Observed(all, i) {
      var p :| 0 <= p < |all| && all[p].Sampled? && |DriverTicks(all[..p])| == i + 1;
      assert p < |events| ==> events[p].Sampled? && |DriverTicks(events[..p])| == i + 1;
    }
  }

  /** Tick `i` was observed, and finishes later than the clock's zero and than every tick observed before it. */
  ghost predicate Counts(events: seq<Event>, i: nat) {
    && i < |DriverTicks(events)| && Observed(events, i)
    && 0 < DriverTicks(events)[i].finishedAt
    && forall j: nat :: j < i && Observed(events, j) ==> DriverTicks(events)[j].finishedAt < DriverTicks(events)[i].finishedAt
  }

  /** `lastTickSeen` is the maximum of 0 and the finish times of the observed ticks. */
  ghost predicate IsLatest(events: seq<Event>, seen: int) {
    && 0 <= seen
    && (forall i: nat :: Observed(events, i) ==> i < |DriverTicks(events)| && DriverTicks(events)[i].finishedAt <= seen)
    && (seen == 0 || exists i: nat :: i < |DriverTicks(events)| && Observed(events, i) && DriverTicks(events)[i].finishedAt == seen)
  }

  ghost predicate SeenInv(events: seq<Event>, s: State) {
    && s.ticks == DriverTicks(events)
    && IsLatest(events, s.lastTickSeen)
    && forall i: nat :: i in s.accounted <==> Counts(events, i)
  }

  lemma {:induction false} SeenFinished(events: seq<Event>, s: State, tick: Tick)
    requires SeenInv(events, s)
    ensures SeenInv(events + [Finished(tick)], Step(s, Finished(tick)))
  {
    var all := events + [Finished(tick)];
    RunNext(events, Finished(tick));
    forall i: nat ensures Observed(all, i) <==> Observed(events, i) { ObservedNext(events, Finished(tick), i); }
    var ticks, ticks' := DriverTicks(events), DriverTicks(all);
    assert forall i :: 0 <= i < |ticks| ==> ticks'[i] == ticks[i];
    if s.lastTickSeen != 0 {
      var i: nat :| i < |ticks| && Observed(events, i) && ticks[i].finishedAt == s.lastTickSeen;
      assert i < |ticks'| && Observed(all, i) && ticks'[i].finishedAt == s.lastTickSeen;
    }
    forall i: nat ensures Counts(all, i) <==> Counts(events, i) {
    }
  }

  /** A sample looks at the last tick only, and accounts for it exactly when it is the latest so far. */
  lemma {:induction false} SeenSampled(events: seq<Event>, s: State)
    requires SeenInv(events, s)
    ensures SeenInv(events + [Sampled], Step(s, Sampled))
  {
    var all, s' := events + [Sampled], Step(s, Sampled);
    RunNext(events, Sampled);
    var ticks, n := DriverTicks(events), |DriverTicks(events)| - 1;
    assert DriverTicks(all) == ticks;
    forall i: nat ensures Observed(all, i) <==> Observed(events, i) || i == n { ObservedNext(events, Sampled, i); }
    SampledLatest(events, s);
    forall i: nat ensures i in s'.accounted <==> Counts(all, i) {
      if i == n {
        SampledCounts(events, s);
      } else {
        assert i in s'.accounted <==> i in s.accounted;
        assert Counts(all, i) <==> Counts(events, i);
      }
    }
  }

  lemma {:induction false} SampledLatest(events: seq<Event>, s: State)
    requires SeenInv(events, s)
    ensures IsLatest(events + [Sampled], Step(s, Sampled).lastTickSeen)
  {
    var all, s' := events + [Sampled], Step(s, Sampled);
    RunNext(events, Sampled);
    var ticks, n := DriverTicks(events), |DriverTicks(events)| - 1;
    assert DriverTicks(all) == ticks;
    forall i: nat ensures Observed(all, i) <==> Observed(events, i) || i == n { ObservedNext(events, Sampled, i); }
    if s'.lastTickSeen == s.lastTickSeen {
      if s.lastTickSeen != 0 {
        var i: nat :| i < |ticks| && Observed(events, i) && ticks[i].finishedAt == s.lastTickSeen;
        assert Observed(all, i);
      }
    } else {
      assert n >= 0 && Observed(all, n);
    }
  }

  lemma {:induction false} SampledCounts(events: seq<Event>, s: State)
    requires SeenInv(events, s) && s.ticks != []
    ensures |s.ticks| - 1 in Step(s, Sampled).accounted <==> Counts(events + [Sampled], |s.ticks| - 1)
  {
    var all, n := events + [Sampled], |s.ticks| - 1;
    RunNext(events, Sampled);
    var ticks := DriverTicks(events);
    assert DriverTicks(all) == ticks;
    forall i: nat ensures Observed(all, i) <==> Observed(events, i) || i == n { ObservedNext(events, Sampled, i); }
    if Observed(events, n) {
      assert Counts(all, n) <==> Counts(events, n);
    } else if s.lastTickSeen != 0 {
      var i: nat :| i < |ticks| && Observed(events, i) && ticks[i].finishedAt == s.lastTickSeen;
      assert i < n && Observed(all, i);
    }
  }

  lemma {:induction false} SeenHolds(events: seq<Event>)
    ensures SeenInv(events, Run(events))
  {
    if events != [] {
      var before := events[..|events| - 1];
      SeenHolds(before);
      assert events == before + [events[|events| - 1]];
      match events[|events| - 1]
      case Finished(tick) => SeenFinished(before, Run(before), tick);
      case Sampled => SeenSampled(before, Run(before));
    }
  }

  /** Whatever the interleaving and the clock, only ticks the sampler really saw are counted, each once: no total exceeds the driver's. */
  lemma {:induction false} NeverOvercounts(events: seq<Event>, f: Tick -> nat)
    ensures forall i :: i in Run(events).accounted ==> Observed(events, i)
    ensures Total(Run(events).ticks, Run(events).accounted, f) <= Sum(DriverTicks(events), f)
  {
    SeenHolds(events);
    TotalAtMostSum(Run(events).ticks, Run(events).accounted, f);
  }

  /**
   Whatever the interleaving and the clock, a total is the driver's exactly when every tick that adds to it
   was observed and finishes after zero and after every tick observed before it.
   */
  lemma {:induction false} CompleteExactly(events: seq<Event>, f: Tick -> nat)
    ensures Total(Run(events).ticks, Run(events).accounted, f) == Sum(DriverTicks(events), f)
       <==> forall i :: 0 <= i < |DriverTicks(events)| && f(DriverTicks(events)[i]) > 0 ==> Counts(events, i)
  {
    SeenHolds(events);
    TotalAtMostSum(Run(events).ticks, Run(events).accounted, f);
  }

  /** So with a clock that always advances it is complete exactly when no tick that adds to it went unobserved. */
  lemma {:induction false} CompleteIffObserved(events: seq<Event>, f: Tick -> nat)
    requires Increasing(DriverTicks(events))
    ensures Total(Run(events).ticks, Run(events).accounted, f) == Sum(DriverTicks(events), f)
       <==> forall i :: 0 <= i < |DriverTicks(events)| && f(DriverTicks(events)[i]) > 0 ==> Observed(events, i)
  {
    CompleteExactly(events, f);
    forall i: nat | i < |DriverTicks(events)| ensures Counts(events, i) <==> Observed(events, i) {
    }
  }

  /** Without later finish times it fails, in every run: a tick not later than the last one seen is observed and still not counted. */
  lemma {:induction false} NotLaterIsMissed(events: seq<Event>, u: Tick)
    requires u.finishedAt <= Run(events).lastTickSeen && u.resumed > 0
    ensures var more := events + [Finished(u)] + [Sampled];
            Observed(more, |DriverTicks(events)|)
            && Total(Run(more).ticks, Run(more).accounted, Resumed) < Sum(DriverTicks(more), Resumed)
  {
    var s, mid := Run(events), events + [Finished(u)];
    RunNext(events, Finished(u));
    assert Run(mid) == s.(ticks := s.ticks + [u]);
    RunNext(mid, Sampled);
    assert Run(mid + [Sampled]) == Run(mid);
    assert |DriverTicks(mid)| == |DriverTicks(events)| + 1;
    ObservedNext(mid, Sampled, |DriverTicks(events)|);
    AccountedBelow(events);
    LastLeftOut(s.ticks, s.accounted, u);
    assert DriverTicks(mid + [Sampled]) == Run(mid + [Sampled]).ticks == s.ticks + [u];
  }

  lemma AccountedBelow(events: seq<Event>)
    ensures Run(events).ticks == DriverTicks(events)
    ensures |DriverTicks(events)| !in Run(events).accounted
  {
    SeenHolds(events);
  }

  lemma LastLeftOut(ticks: seq<Tick>, picked: set<nat>, u: Tick)
    requires |ticks| !in picked && u.resumed > 0
    ensures Total(ticks + [u], picked, Resumed) < Sum(ticks + [u], Resumed)
  {
    TotalAtMostSum(ticks + [u], picked, Resumed);
    assert Resumed((ticks + [u])[|ticks|]) > 0;
  }

  lemma RunNext(events: seq<Event>, e: Event)
    ensures Run(events + [e]) == Step(Run(events), e)
    ensures DriverTicks(events + [e]) == DriverTicks(events) + if e.Finished? then [e.tick] else []
  {
    assert (events + [e])[..|events|] == events;
  }

  /** The four sums in terms of the ticks' own fields, one tick more at a time. */
  lemma {:induction false} SumsOfFields(ticks: seq<Tick>, t: Tick)
    ensures Sum([], One) == Sum([], Considered) == Sum([], Resumed) == Sum([], Resuming) == 0
    ensures Sum(ticks + [t], One) == Sum(ticks, One) + 1
    ensures Sum(ticks + [t], Considered) == Sum(ticks, Considered) + t.considered
    ensures Sum(ticks + [t], Resumed) == Sum(ticks, Resumed) + t.resumed
    ensures Sum(ticks + [t], Resuming) == Sum(ticks, Resuming) + if t.resumed > 0 then 1 else 0
  {
    assert (ticks + [t])[..|ticks|] == ticks;
  }
}
