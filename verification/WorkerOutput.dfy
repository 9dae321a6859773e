/**
 Waiting for a line of a spawned worker (scripts/live-restart-acceptance.ts). Output arrives in chunks of
 any size; a timer polls the text received so far. A run is any interleaving of the two.
 */
module WorkerOutput {

  datatype Outcome = Pending | Line(text: string) | FailedEarly | TimedOut

  datatype Event = Data(chunk: string) | Poll(expired: bool)

  // ---------------------------------------------------------------------------------------------
  // Searching
  // ---------------------------------------------------------------------------------------------

  predicate OccursAt(s: string, needle: string, i: int) {
    0 <= i && i + |needle| <= |s| && s[i..i + |needle|] == needle
  }

  /** `s.indexOf(needle, from)` */
  function IndexOf(s: string, needle: string, from: nat): (i: int)
    requires from <= |s|
    ensures i == -1 || (from <= i && OccursAt(s, needle, i))
    ensures forall j :: from <= j < (if i == -1 then |s| + 1 else i) ==> !OccursAt(s, needle, j)
    decreases |s| - from
  {
    if OccursAt(s, needle, from) then from
    else if from == |s| then -1
    else IndexOf(s, needle, from + 1)
  }

  predicate Includes(s: string, needle: string) { IndexOf(s, needle, 0) >= 0 }

  ghost predicate Contains(s: string, needle: string) {
    exists a, b :: s == a + needle + b
  }

  lemma {:induction false} IncludesExactly(s: string, needle: string)
    ensures Includes(s, needle) <==> Contains(s, needle)
  {
    var i := IndexOf(s, needle, 0);
    if i >= 0 {
      assert s == s[..i] + needle + s[i + |needle|..];
    }
    if Contains(s, needle) {
      var a, b :| s == a + needle + b;
      assert s[|a|..|a| + |needle|] == needle;
      assert OccursAt(s, needle, |a|);
    }
  }

  /** Where the line that position `i` is on ends: at the next newline, or where the text ends. */
  function EndOfLine(s: string, i: nat): (e: nat)
    requires i <= |s|
    ensures i <= e <= |s| && forall j :: i <= j < e ==> s[j] != '\n'
    ensures e < |s| ==> s[e] == '\n'
  {
    var e := IndexOf(s, "\n", i);
    assert e >= 0 ==> s[e] == s[e..e + 1][0];
    assert forall j :: i <= j < (if e >= 0 then e else |s|) ==> s[j] != '\n' by {
      forall j | i <= j < (if e >= 0 then e else |s|) ensures s[j] != '\n' {
        assert !OccursAt(s, "\n", j);
        assert s[j..j + 1] == [s[j]];
      }
    }
    if e >= 0 then e else |s|
  }

  /** From the first occurrence of `needle` to the end of that line. */
  function NeedleLine(s: string, needle: string): string
    requires Includes(s, needle)
  {
    var i := IndexOf(s, needle, 0);
    s[i..EndOfLine(s, i)]
  }

  /** The text before the line, the line, and the rest: no earlier occurrence, and the line stops at its newline or the end. */
  lemma {:induction false} NeedleLineExactly(s: string, needle: string) returns (before: string, after: string)
    requires Includes(s, needle)
    ensures s == before + NeedleLine(s, needle) + after
    ensures OccursAt(s, needle, |before|) && forall j :: 0 <= j < |before| ==> !OccursAt(s, needle, j)
    ensures '\n' !in NeedleLine(s, needle) && (after == "" || after[0] == '\n')
  {
    var i := IndexOf(s, needle, 0);
    var e := EndOfLine(s, i);
    before, after := s[..i], s[e..];
    assert s == s[..i] + s[i..e] + s[e..];
  }

  // ---------------------------------------------------------------------------------------------
  // The program
  // ---------------------------------------------------------------------------------------------

  datatype State = State(out: string, outcome: Outcome)

  function Step(s: State, needle: string, e: Event): State {
    match e
    case Data(chunk) => s.(out := s.out + chunk)
    case Poll(expired) =>
      if s.outcome != Pending then s
      else s.(outcome :=
        if Includes(s.out, needle) then Line(NeedleLine(s.out, needle))
        else if Includes(s.out, "WORKER_ABORT") || Includes(s.out, "WORKER_CRASH") then FailedEarly
        else if expired then TimedOut
        else Pending)
  }

  function Run(needle: string, events: seq<Event>): State {
    if events == [] then State("", Pending)
    else Step(Run(needle, events[..|events| - 1]), needle, events[|events| - 1])
  }

  class HoldWorker {
    var out: string
    var outcome: Outcome

    function View(): State
      reads this
    {
      State(out, outcome)
    }

    constructor ()
      ensures View() == State("", Pending)
    {
      out, outcome := "", Pending;
    }

    method OnData(chunk: string)
      modifies this`out
      ensures out == old(out) + chunk
    {
      out := out + chunk;
    }

    /** One call of `poll`; after the promise has settled there is none. */
    method OnPoll(needle: string, expired: bool)
      requires outcome == Pending
      modifies this`outcome
      ensures View() == Step(old(View()), needle, Poll(expired))
      ensures Contains(out, needle) ==> outcome.Line?
      ensures !Contains(out, needle) ==>
        outcome == if Contains(out, "WORKER_ABORT") || Contains(out, "WORKER_CRASH") then FailedEarly
                   else if expired then TimedOut else Pending
    {
      IncludesExactly(out, needle);
      IncludesExactly(out, "WORKER_ABORT");
      IncludesExactly(out, "WORKER_CRASH");
      var idx := IndexOf(out, needle, 0);
      if idx >= 0 {
        var eol := IndexOf(out, "\n", idx);
        outcome := Line(if eol >= 0 then out[idx..eol] else out[idx..]);
        assert out[idx..] == out[idx..|out|];
        return;
      }
      if Includes(out, "WORKER_ABORT") || Includes(out, "WORKER_CRASH") {
        outcome := FailedEarly;
        return;
      }
      if expired { outcome := TimedOut; }
    }
  }

  // ---------------------------------------------------------------------------------------------
  // Growing output
  // ---------------------------------------------------------------------------------------------

  /** All the worker has written. */
  function Output(events: seq<Event>): string {
    if events == [] then ""
    else
      var e := events[|events| - 1];
      Output(events[..|events| - 1]) + if e.Data? then e.chunk else ""
  }

  lemma OccursInPrefix(s: string, full: string, needle: string, i: int)
    requires s <= full && i + |needle| <= |s|
    ensures OccursAt(s, needle, i) <==> OccursAt(full, needle, i)
  {
    if 0 <= i { assert s[i..i + |needle|] == full[i..i + |needle|]; }
  }

  /** More output never moves the first occurrence. */
  lemma FirstOccurrenceStays(s: string, full: string, needle: string)
    requires s <= full && Includes(s, needle)
    ensures IndexOf(full, needle, 0) == IndexOf(s, needle, 0)
  {
    var i, j := IndexOf(s, needle, 0), IndexOf(full, needle, 0);
    OccursInPrefix(s, full, needle, i);
    assert 0 <= j <= i;
    OccursInPrefix(s, full, needle, j);
  }

  /** The needle's line in a prefix of the output is a prefix of its line, and all of it exactly when all of it is there. */
  lemma {:induction false} LineInPrefix(s: string, full: string, needle: string)
    requires s <= full && Includes(s, needle)
    ensures Includes(full, needle)
    ensures NeedleLine(s, needle) <= NeedleLine(full, needle)
    ensures var end := IndexOf(full, needle, 0) + |NeedleLine(full, needle)|;
            NeedleLine(s, needle) == NeedleLine(full, needle) <==> end <= |s|
  {
    FirstOccurrenceStays(s, full, needle);
    var i := IndexOf(s, needle, 0);
    var e, e' := EndOfLine(s, i), EndOfLine(full, i);
    assert forall k :: 0 <= k < |s| ==> s[k] == full[k];
    assert s[..e] == full[..e];
    assert s[i..e] == s[..e][i..] && full[i..e] == full[..e][i..];
    assert full[i..e'][..e - i] == full[i..e];
  }

  // ---------------------------------------------------------------------------------------------
  // What holds in every run
  // ---------------------------------------------------------------------------------------------

  lemma {:induction false} RunOutput(needle: string, events: seq<Event>)
    ensures Run(needle, events).out == Output(events)
  {
    if events != [] { RunOutput(needle, events[..|events| - 1]); }
  }

  /** Event `p` is the poll that settled the promise. */
  ghost predicate SettlesAt(needle: string, events: seq<Event>, p: nat) {
    && p < |events| && events[p].Poll?
    && Run(needle, events[..p]).outcome == Pending
    && Run(needle, events[..p + 1]).outcome == Run(needle, events).outcome != Pending
  }

  lemma {:induction false} Settling(needle: string, events: seq<Event>) returns (p: nat)
    requires Run(needle, events).outcome.Line?
    ensures SettlesAt(needle, events, p) && Includes(Output(events[..p]), needle)
    ensures Run(needle, events).outcome == Line(NeedleLine(Output(events[..p]), needle))
    ensures Output(events[..p]) <= Output(events)
  {
    var n := |events| - 1;
    RunOutput(needle, events[..n]);
    if Run(needle, events[..n]).outcome == Pending {
      p := n;
      assert events[..n + 1] == events;
    } else {
      p := Settling(needle, events[..n]);
      assert events[..n][..p] == events[..p] && events[..n][..p + 1] == events[..p + 1];
    }
  }

  lemma {:induction false} SettledStays(needle: string, events: seq<Event>, p: nat)
    requires p <= |events| && Run(needle, events[..p]).outcome != Pending
    ensures Run(needle, events).outcome == Run(needle, events[..p]).outcome
  {
    if p == |events| {
      assert events[..p] == events;
    } else {
      var before := events[..|events| - 1];
      assert before[..p] == events[..p];
      SettledStays(needle, before, p);
    }
  }

  /** There is one such poll. */
  lemma {:induction false} SettlesOnce(needle: string, events: seq<Event>, p: nat, q: nat)
    requires SettlesAt(needle, events, p) && SettlesAt(needle, events, q)
    ensures p == q
  {
    if p < q {
      assert events[..q][..p + 1] == events[..p + 1];
      SettledStays(needle, events[..q], p + 1);
    } else if q < p {
      assert events[..p][..q + 1] == events[..q + 1];
      SettledStays(needle, events[..p], q + 1);
    }
  }

  /**
   Whatever the chunks and whenever the polls, the resolved line starts at the first occurrence of the
   needle in everything the worker ever writes, is a prefix of that line, and has no newline; it is the
   whole line exactly when the line had arrived to its end by the poll that settled the promise.
   */
  lemma {:induction false} ResolvedLine(needle: string, events: seq<Event>, p: nat)
    requires Run(needle, events).outcome.Line? && SettlesAt(needle, events, p)
    ensures Includes(Output(events), needle)
    ensures var text, line := Run(needle, events).outcome.text, NeedleLine(Output(events), needle);
      && text <= line && '\n' !in text
      && (text == line <==> IndexOf(Output(events), needle, 0) + |line| <= |Output(events[..p])|)
  {
    var q := Settling(needle, events);
    SettlesOnce(needle, events, p, q);
    LineInPrefix(Output(events[..p]), Output(events), needle);
  }

  /** The resolved line begins with the needle exactly when the needle has no newline. */
  lemma {:induction false} ResolvedHasNeedle(needle: string, events: seq<Event>)
    requires Run(needle, events).outcome.Line?
    ensures needle <= Run(needle, events).outcome.text <==> '\n' !in needle
  {
    var p := Settling(needle, events);
    NeedleInLine(Output(events[..p]), needle);
  }

  lemma NeedleInLine(s: string, needle: string)
    requires Includes(s, needle)
    ensures needle <= NeedleLine(s, needle) <==> '\n' !in needle
  {
    var i := IndexOf(s, needle, 0);
    var e := EndOfLine(s, i);
    assert forall k :: 0 <= k < |needle| ==> needle[k] == s[i..i + |needle|][k] == s[i + k];
    assert forall k :: 0 <= k < e - i ==> s[i..e][k] == s[i + k];
    if '\n' in needle {
      var k :| 0 <= k < |needle| && needle[k] == '\n';
      assert s[i + k] == '\n';
    }
  }

  /** A poll that comes between the needle and the rest of its line truncates the line. */
  lemma EarlyPollTruncates(needle: string, rest: string)
    requires '\n' !in needle && rest != "" && rest[0] != '\n'
    ensures Includes(needle + rest, needle)
    ensures var events := [Data(needle), Poll(false), Data(rest)];
            Output(events) == needle + rest
            && Run(needle, events).outcome == Line(needle) && needle < NeedleLine(needle + rest, needle)
  {
    var e1, e2, e3 := [Data(needle)], [Data(needle), Poll(false)], [Data(needle), Poll(false), Data(rest)];
    assert e1[..0] == [] && e2[..1] == e1 && e3[..2] == e2;
    assert Output(e1) == needle && Output(e2) == needle && Output(e3) == needle + rest;
    assert OccursAt(needle, needle, 0) && OccursAt(needle + rest, needle, 0);
    assert IndexOf(needle, needle, 0) == 0;
    assert Run(needle, e1) == State(needle, Pending);
    assert Run(needle, e2).outcome == Line(NeedleLine(needle, needle));
    NeedleInLine(needle, needle);
    assert NeedleLine(needle, needle) == needle;
    LineInPrefix(needle, needle + rest, needle);
    var end := EndOfLine(needle + rest, 0);
    assert (needle + rest)[|needle|] == rest[0];
  }

  /** Unless a poll found a failure or the deadline first, a poll after the needle has arrived resolves. */
  lemma {:induction false} FoundOnceThere(needle: string, events: seq<Event>)
    requires events != [] && events[|events| - 1].Poll?
    requires Includes(Output(events), needle)
    ensures Run(needle, events).outcome != Pending
    ensures Run(needle, events).outcome == FailedEarly ==>
              Includes(Output(events), "WORKER_ABORT") || Includes(Output(events), "WORKER_CRASH")
    ensures Run(needle, events).outcome == TimedOut ==> Poll(true) in events
  {
    var before := events[..|events| - 1];
    assert events == before + [events[|events| - 1]];
    RunOutput(needle, before);
    NoFailure(needle, before);
    assert Output(before) == Output(events);
  }

  lemma {:induction false} NoFailure(needle: string, events: seq<Event>)
    ensures Run(needle, events).outcome == FailedEarly ==>
              Includes(Output(events), "WORKER_ABORT") || Includes(Output(events), "WORKER_CRASH")
    ensures Run(needle, events).outcome == TimedOut ==> Poll(true) in events
  {
    if events != [] {
      var before, e := events[..|events| - 1], events[|events| - 1];
      assert events == before + [e];
      NoFailure(needle, before);
      RunOutput(needle, before);
      if Includes(Output(before), "WORKER_ABORT") { FirstOccurrenceStays(Output(before), Output(events), "WORKER_ABORT"); }
      if Includes(Output(before), "WORKER_CRASH") { FirstOccurrenceStays(Output(before), Output(events), "WORKER_CRASH"); }
    }
  }

  /**
   A poll while the promise is pending decides it by what has been written so far: the needle's line if the
   needle is there, else a failure if either marker is, else a timeout if the deadline has passed, else nothing.
   */
  lemma {:induction false} PollDecides(needle: string, events: seq<Event>, expired: bool)
    requires Run(needle, events).outcome == Pending
    ensures var out, outcome := Output(events), Run(needle, events + [Poll(expired)]).outcome;
      && (outcome.Line? <==> Contains(out, needle))
      && (outcome.Line? ==> Includes(out, needle) && outcome == Line(NeedleLine(out, needle)))
      && (outcome == FailedEarly <==>
            !Contains(out, needle) && (Contains(out, "WORKER_ABORT") || Contains(out, "WORKER_CRASH")))
      && (outcome == TimedOut <==>
            !Contains(out, needle) && !Contains(out, "WORKER_ABORT") && !Contains(out, "WORKER_CRASH") && expired)
  {
    assert (events + [Poll(expired)])[..|events|] == events;
    RunOutput(needle, events);
    IncludesExactly(Output(events), needle);
    IncludesExactly(Output(events), "WORKER_ABORT");
    IncludesExactly(Output(events), "WORKER_CRASH");
  }

  /** Output alone decides nothing, and what is decided stays. */
  lemma {:induction false} OnlyPollsDecide(needle: string, events: seq<Event>, e: Event)
    requires e.Data? || Run(needle, events).outcome != Pending
    ensures Run(needle, events + [e]).outcome == Run(needle, events).outcome
  {
    assert (events + [e])[..|events|] == events;
  }
}
