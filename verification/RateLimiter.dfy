/**
 The hourly limit on LLM calls (internal/llm/analyzer.go, the fields callsThisHour and hourResetAt).
 An Analyze call checks the limit and, once a provider has succeeded, counts itself, each time under
 its own lock acquisition; so the steps of different calls interleave. Sequential use is the case of
 one call in flight.
 */
module RateLimiter {
  import opened Basics

  const HOUR: int := 3_600_000_000_000

  /** A call in flight is on its way to the check, or past it and not yet counted. */
  datatype Phase = Entered | Admitted

  /** What the log of a run records: successful provider calls and window resets. */
  datatype Event = Counted(time: int) | Reset(time: int)

  datatype State = State(calls: nat, resetAt: int, clock: int, phases: map<nat, Phase>, log: seq<Event>)

  datatype Step =
    | Enter(id: nat)                        // Analyze is called
    | Leave(id: nat)                        // answered by the cache or by retrieval
    | Check(id: nat, now: int, again: int)  // the locked check, with its two clock readings
    | Count(id: nat, now: int)              // a provider succeeded
    | Fail(id: nat)                         // every provider failed

  /** NewAnalyzer, at time start; the first window opens there. */
  function Init(start: int): State {
    State(0, start + HOUR, start, map[], [Reset(start)])
  }

  /** At most n calls are in flight, and the clock never goes back. */
  predicate Enabled(s: State, step: Step, n: nat) {
    match step
    case Enter(id) => id !in s.phases && |s.phases| < n
    case Leave(id) => id in s.phases && s.phases[id] == Entered
    case Check(id, now, again) => id in s.phases && s.phases[id] == Entered && s.clock <= now <= again
    case Count(id, now) => id in s.phases && s.phases[id] == Admitted && s.clock <= now
    case Fail(id) => id in s.phases && s.phases[id] == Admitted
  }

  /** The window opens anew when the first clock reading is past its end; the second sets the next end. */
  function Reopened(s: State, now: int, again: int): State {
    if now > s.resetAt then s.(calls := 0, resetAt := again + HOUR, clock := again, log := s.log + [Reset(again)])
    else s.(clock := again)
  }

  function Apply(s: State, step: Step, max: nat): State {
    match step
    case Enter(id) => s.(phases := s.phases[id := Entered])
    case Leave(id) => s.(phases := s.phases - {id})
    case Check(id, now, again) =>
      var r := Reopened(s, now, again);
      if r.calls >= max then r.(phases := r.phases - {id}) else r.(phases := r.phases[id := Admitted])
    case Count(id, now) =>
      s.(calls := s.calls + 1, clock := now, phases := s.phases - {id}, log := s.log + [Counted(now)])
    case Fail(id) => s.(phases := s.phases - {id})
  }

  predicate IsRun(s: State, steps: seq<Step>, max: nat, n: nat)
    decreases |steps|
  {
    steps == [] || (Enabled(s, steps[0], n) && IsRun(Apply(s, steps[0], max), steps[1..], max, n))
  }

  function After(s: State, steps: seq<Step>, max: nat): State
    decreases |steps|
  {
    if steps == [] then s else After(Apply(s, steps[0], max), steps[1..], max)
  }

  // ------------------------------------------------------------------ the overshoot is bounded

  /** The calls that passed the check and are not counted yet. */
  function Uncounted(s: State): set<nat> {
    set id | id in s.phases && s.phases[id] == Admitted
  }

  /** Successful calls since the last reset in the log. */
  function SinceReset(log: seq<Event>): nat {
    if log == [] || log[|log| - 1].Reset? then 0 else 1 + SinceReset(log[..|log| - 1])
  }

  /** No window ever counts more than bound calls. */
  predicate WindowsBounded(log: seq<Event>, bound: nat) {
    forall j :: 0 <= j <= |log| ==> SinceReset(log[..j]) <= bound
  }

  predicate Chronological(log: seq<Event>) {
    forall i, j :: 0 <= i < j < |log| ==> log[i].time <= log[j].time
  }

  predicate ResetsSpaced(log: seq<Event>) {
    forall i, j :: 0 <= i < j < |log| && log[i].Reset? && log[j].Reset? ==> log[j].time > log[i].time + HOUR
  }

  /** hourResetAt is one hour after the latest reset. */
  predicate WindowOpen(log: seq<Event>, resetAt: int) {
    forall i :: 0 <= i < |log| && log[i].Reset? ==> log[i].time + HOUR <= resetAt
  }

  predicate LogOk(log: seq<Event>, clock: int, resetAt: int, bound: nat) {
    && Chronological(log) && (forall i :: 0 <= i < |log| ==> log[i].time <= clock)
    && ResetsSpaced(log) && WindowOpen(log, resetAt) && WindowsBounded(log, bound)
  }

  predicate Inv(s: State, max: nat, n: nat) {
    && |s.phases| <= n
    && s.calls + |Uncounted(s)| + 1 <= max + n
    && s.calls == SinceReset(s.log)
    && LogOk(s.log, s.clock, s.resetAt, max + n - 1)
  }

  lemma UncountedSize(s: State)
    ensures |Uncounted(s)| <= |s.phases|
  {
    SubsetSize(Uncounted(s), s.phases.Keys);
  }

  lemma ExtendLog(log: seq<Event>, e: Event, clock: int, resetAt: int, resetAt': int, bound: nat)
    requires LogOk(log, clock, resetAt, bound) && clock <= e.time
    requires SinceReset(log + [e]) <= bound
    requires if e.Reset? then e.time > resetAt && resetAt' == e.time + HOUR else resetAt' == resetAt
    ensures LogOk(log + [e], e.time, resetAt', bound)
  {
    var log' := log + [e];
    forall j | 0 <= j <= |log'|
      ensures SinceReset(log'[..j]) <= bound
    {
      if j == |log'| { assert log'[..j] == log'; } else { assert log'[..j] == log[..j]; }
    }
  }

  lemma ReopenedKeepsInv(s: State, now: int, again: int, max: nat, n: nat)
    requires Inv(s, max, n) && n >= 1 && s.clock <= now <= again
    ensures Inv(Reopened(s, now, again), max, n)
  {
    hide LogOk;
    if now > s.resetAt {
      assert (s.log + [Reset(again)])[..|s.log|] == s.log;
      ExtendLog(s.log, Reset(again), s.clock, s.resetAt, again + HOUR, max + n - 1);
      assert Uncounted(Reopened(s, now, again)) == Uncounted(s);
    } else {
      LaterClock(s.log, s.clock, again, s.resetAt, max + n - 1);
      assert Uncounted(Reopened(s, now, again)) == Uncounted(s);
    }
  }

  lemma LaterClock(log: seq<Event>, clock: int, later: int, resetAt: int, bound: nat)
    requires LogOk(log, clock, resetAt, bound) && clock <= later
    ensures LogOk(log, later, resetAt, bound)
  {
  }

  lemma StepKeepsInv(s: State, step: Step, max: nat, n: nat)
    requires Inv(s, max, n) && n >= 1 && Enabled(s, step, n)
    ensures Inv(Apply(s, step, max), max, n)
  {
    hide Inv;
    match step
    case Enter(id) => NewPhasesKeepInv(s, s.phases[id := Entered], max, n);
    case Leave(id) => NewPhasesKeepInv(s, s.phases - {id}, max, n);
    case Fail(id) => NewPhasesKeepInv(s, s.phases - {id}, max, n);
    case Count(id, now) => CountKeepsInv(s, id, now, max, n);
    case Check(id, now, again) =>
      ReopenedKeepsInv(s, now, again, max, n);
      DecideKeepsInv(Reopened(s, now, again), id, max, n);
  }

  lemma NewPhasesKeepInv(s: State, phases: map<nat, Phase>, max: nat, n: nat)
    requires Inv(s, max, n) && (phases.Keys <= s.phases.Keys || |phases| <= n)
    requires forall id :: id in phases && phases[id] == Admitted ==> id in s.phases && s.phases[id] == Admitted
    ensures Inv(s.(phases := phases), max, n)
  {
    hide LogOk;
    SubsetSize(Uncounted(s.(phases := phases)), Uncounted(s));
    if phases.Keys <= s.phases.Keys { SubsetSize(phases.Keys, s.phases.Keys); }
  }

  lemma CountKeepsInv(s: State, id: nat, now: int, max: nat, n: nat)
    requires Inv(s, max, n) && n >= 1 && Enabled(s, Count(id, now), n)
    ensures Inv(Apply(s, Count(id, now), max), max, n)
  {
    hide LogOk;
    var s' := Apply(s, Count(id, now), max);
    assert s'.phases.Keys == s.phases.Keys - {id};
    assert Uncounted(s') == Uncounted(s) - {id} && id in Uncounted(s);
    assert s'.log[..|s.log|] == s.log;
    ExtendLog(s.log, Counted(now), s.clock, s.resetAt, s.resetAt, max + n - 1);
  }

  lemma DecideKeepsInv(r: State, id: nat, max: nat, n: nat)
    requires Inv(r, max, n) && n >= 1 && id in r.phases && r.phases[id] == Entered
    ensures var phases := if r.calls >= max then r.phases - {id} else r.phases[id := Admitted];
            Inv(r.(phases := phases), max, n)
  {
    hide LogOk;
    if r.calls >= max {
      var s' := r.(phases := r.phases - {id});
      assert s'.phases.Keys == r.phases.Keys - {id};
      assert Uncounted(s') == Uncounted(r);
    } else {
      var s' := r.(phases := r.phases[id := Admitted]);
      assert s'.phases.Keys == r.phases.Keys;
      UncountedSize(s');
    }
  }

  lemma InitInv(start: int, max: nat, n: nat)
    requires max >= 1 && n >= 1
    ensures Inv(Init(start), max, n)
  {
    var log := Init(start).log;
    assert log[..0] == [] && log[..1] == log;
    assert Uncounted(Init(start)) == {};
  }

  lemma {:induction false} RunKeepsInv(s: State, steps: seq<Step>, max: nat, n: nat)
    requires Inv(s, max, n) && n >= 1 && IsRun(s, steps, max, n)
    ensures Inv(After(s, steps, max), max, n)
    decreases |steps|
  {
    if steps != [] {
      StepKeepsInv(s, steps[0], max, n);
      RunKeepsInv(Apply(s, steps[0], max), steps[1..], max, n);
    }
  }

  /**
   With at most n calls in flight, in every reachable state the counted calls of the window plus the
   admitted calls still to be counted stay below max + n: the gap between check and count overshoots
   the limit by at most n - 1. With one call in flight the limit is kept.
   */
  lemma OvershootIsBounded(start: int, steps: seq<Step>, max: nat, n: nat)
    requires max >= 1 && n >= 1 && IsRun(Init(start), steps, max, n)
    ensures var s := After(Init(start), steps, max);
            && s.calls + |Uncounted(s)| <= max + n - 1
            && (n == 1 ==> s.calls <= max)
  {
    InitInv(start, max, n);
    RunKeepsInv(Init(start), steps, max, n);
  }

  // ------------------------------------------------------------------ any hour sees at most two windows

  function CountedCalls(log: seq<Event>): nat {
    if log == [] then 0 else CountedCalls(log[..|log| - 1]) + if log[|log| - 1].Counted? then 1 else 0
  }

  /** The successful calls in the closed interval from a to b. */
  function CountedBetween(log: seq<Event>, a: int, b: int): nat {
    if log == [] then 0
    else
      var e := log[|log| - 1];
      CountedBetween(log[..|log| - 1], a, b) + if e.Counted? && a <= e.time <= b then 1 else 0
  }

  /** Times before a come first. */
  lemma {:induction false} Boundary(log: seq<Event>, a: int) returns (i: nat)
    requires Chronological(log)
    ensures i <= |log|
    ensures forall k :: 0 <= k < |log| ==> (log[k].time < a <==> k < i)
  {
    if log == [] {
      i := 0;
    } else if log[|log| - 1].time < a {
      i := |log|;
    } else {
      i := Boundary(log[..|log| - 1], a);
    }
  }

  /** The events between times a and b are those from i up to j. */
  predicate Splits(log: seq<Event>, a: int, b: int, i: nat, j: nat) {
    && i <= j <= |log|
    && (forall k :: 0 <= k < i ==> log[k].time < a)
    && (forall k :: i <= k < j ==> a <= log[k].time <= b)
    && (forall k :: j <= k < |log| ==> log[k].time > b)
  }

  lemma CountedCallsSnoc(log: seq<Event>, i: nat, j: nat)
    requires i < j <= |log|
    ensures CountedCalls(log[i..j]) == CountedCalls(log[i..j - 1]) + if log[j - 1].Counted? then 1 else 0
  {
    assert log[i..j][..j - i - 1] == log[i..j - 1];
  }

  lemma SplitsBefore(log: seq<Event>, a: int, b: int, i: nat, j: nat)
    requires log != [] && Splits(log, a, b, i, j)
    ensures var n := |log| - 1;
            Splits(log[..n], a, b, if i <= n then i else n, if j <= n then j else n)
    ensures var e := log[|log| - 1]; a <= e.time <= b <==> i <= |log| - 1 < j
  {
  }

  lemma {:induction false} CountedBetweenIsSlice(log: seq<Event>, a: int, b: int, i: nat, j: nat)
    requires a <= b && Splits(log, a, b, i, j)
    ensures CountedBetween(log, a, b) == CountedCalls(log[i..j])
  {
    if log != [] {
      var n := |log| - 1;
      SplitsBefore(log, a, b, i, j);
      hide Splits;
      hide CountedCalls;
      var i', j' := if i <= n then i else n, if j <= n then j else n;
      CountedBetweenIsSlice(log[..n], a, b, i', j');
      assert log[..n][i'..j'] == log[i'..j'];
      if i <= n < j {
        CountedCallsSnoc(log, i, j);
      } else {
        assert log[i'..j'] == log[i..j];
      }
    }
  }

  lemma {:induction false} CountedCallsConcat(x: seq<Event>, y: seq<Event>)
    ensures CountedCalls(x + y) == CountedCalls(x) + CountedCalls(y)
  {
    if y == [] {
      assert x + y == x;
    } else {
      assert (x + y)[..|x + y| - 1] == x + y[..|y| - 1];
      CountedCallsConcat(x, y[..|y| - 1]);
    }
  }

  /** A stretch without resets lies in one window. */
  lemma {:induction false} StretchInOneWindow(log: seq<Event>, i: nat, j: nat)
    requires i <= j <= |log|
    requires forall k :: i <= k < j ==> log[k].Counted?
    ensures CountedCalls(log[i..j]) <= SinceReset(log[..j])
  {
    if i < j {
      StretchInOneWindow(log, i, j - 1);
      assert log[i..j][..j - i - 1] == log[i..j - 1];
      assert log[..j][..j - 1] == log[..j - 1];
    }
  }

  lemma CountedAroundReset(log: seq<Event>, i: nat, r: nat, j: nat)
    requires i <= r < j <= |log| && log[r].Reset?
    ensures CountedCalls(log[i..j]) == CountedCalls(log[i..r]) + CountedCalls(log[r + 1..j])
  {
    assert log[i..j] == log[i..r] + ([log[r]] + log[r + 1..j]);
    CountedCallsConcat(log[i..r], [log[r]] + log[r + 1..j]);
    CountedCallsConcat([log[r]], log[r + 1..j]);
    assert CountedCalls([log[r]]) == 0;
  }

  lemma StretchInTwoWindows(log: seq<Event>, a: int, i: nat, j: nat, bound: nat)
    requires ResetsSpaced(log) && WindowsBounded(log, bound)
    requires i <= j <= |log| && forall k :: i <= k < j ==> a <= log[k].time <= a + HOUR
    ensures CountedCalls(log[i..j]) <= 2 * bound
  {
    if r :| i <= r < j && log[r].Reset? {
      CountedAroundReset(log, i, r, j);
      StretchInOneWindow(log, i, r);
      StretchInOneWindow(log, r + 1, j);
    } else {
      StretchInOneWindow(log, i, j);
    }
  }

  /**
   Resets are more than an hour apart, so a closed interval of one hour meets at most two windows and
   contains at most 2 * (max + n - 1) successful calls, which is 2 * max when calls do not overlap.
   */
  lemma AnyHourIsBounded(start: int, steps: seq<Step>, max: nat, n: nat, a: int)
    requires max >= 1 && n >= 1 && IsRun(Init(start), steps, max, n)
    ensures ResetsSpaced(After(Init(start), steps, max).log)
    ensures CountedBetween(After(Init(start), steps, max).log, a, a + HOUR) <= 2 * (max + n - 1)
  {
    InitInv(start, max, n);
    RunKeepsInv(Init(start), steps, max, n);
    HourInLog(After(Init(start), steps, max).log, a, max + n - 1);
  }

  lemma HourInLog(log: seq<Event>, a: int, bound: nat)
    requires Chronological(log) && ResetsSpaced(log) && WindowsBounded(log, bound)
    ensures CountedBetween(log, a, a + HOUR) <= 2 * bound
  {
    var j := Boundary(log, a + HOUR + 1);
    var i := Boundary(log[..j], a);
    assert forall k :: 0 <= k < j ==> log[..j][k] == log[k];
    CountedBetweenIsSlice(log, a, a + HOUR, i, j);
    StretchInTwoWindows(log, a, i, j, bound);
  }

  lemma {:induction false} SomeCounted(log: seq<Event>, i: nat, j: nat) returns (k: nat)
    requires i <= j <= |log| && CountedCalls(log[i..j]) > 0
    ensures i <= k < j && log[k].Counted?
  {
    assert i < j && log[i..j][..j - i - 1] == log[i..j - 1];
    k := j - 1;
    if log[k].Reset? { k := SomeCounted(log, i, j - 1); }
  }

  /** Within the hour from a, a call is counted, then the window reopens, then another call is counted. */
  predicate ReopensBetweenCalls(log: seq<Event>, a: int) {
    exists p, r, q ::
      && 0 <= p < r < q < |log| && log[p].Counted? && log[r].Reset? && log[q].Counted?
      && a <= log[p].time && log[q].time <= a + HOUR
  }

  lemma TheseReopen(log: seq<Event>, a: int, p: nat, r: nat, q: nat)
    requires p < r < q < |log| && log[p].Counted? && log[r].Reset? && log[q].Counted?
    requires a <= log[p].time && log[q].time <= a + HOUR
    ensures ReopensBetweenCalls(log, a)
  {
  }

  lemma CrowdedStretchReopens(log: seq<Event>, a: int, i: nat, j: nat, bound: nat)
    requires ResetsSpaced(log) && WindowsBounded(log, bound)
    requires i <= j <= |log| && forall k :: i <= k < j ==> a <= log[k].time <= a + HOUR
    requires CountedCalls(log[i..j]) > bound
    ensures ReopensBetweenCalls(log, a)
  {
    if r :| i <= r < j && log[r].Reset? {
      CountedAroundReset(log, i, r, j);
      StretchInOneWindow(log, i, r);
      StretchInOneWindow(log, r + 1, j);
      hide *;
      var p := SomeCounted(log, i, r);
      var q := SomeCounted(log, r + 1, j);
      TheseReopen(log, a, p, r, q);
    } else {
      StretchInOneWindow(log, i, j);
    }
  }

  lemma CrowdedHourReopens(log: seq<Event>, a: int, bound: nat)
    requires Chronological(log) && ResetsSpaced(log) && WindowsBounded(log, bound)
    requires CountedBetween(log, a, a + HOUR) > bound
    ensures ReopensBetweenCalls(log, a)
  {
    var j := Boundary(log, a + HOUR + 1);
    var i := Boundary(log[..j], a);
    assert forall k :: 0 <= k < j ==> log[..j][k] == log[k];
    CountedBetweenIsSlice(log, a, a + HOUR, i, j);
    CrowdedStretchReopens(log, a, i, j, bound);
  }

  /**
   The rolling reading of the limit fails only around a reset: if a closed hour contains more than
   max + n - 1 successful calls (more than max when calls do not overlap), then within it the window
   reopens between two of them; so every closed hour without a reset keeps to the limit. When a reset
   does break it is the subject of ResetBreaksRollingLimitExactly.
   */
  lemma RollingLimitFailsOnlyAroundAReset(start: int, steps: seq<Step>, max: nat, n: nat, a: int)
    requires max >= 1 && n >= 1 && IsRun(Init(start), steps, max, n)
    ensures var log := After(Init(start), steps, max).log;
            && (CountedBetween(log, a, a + HOUR) > max + n - 1 ==> ReopensBetweenCalls(log, a))
            && ((forall e :: e in log && e.Reset? ==> !(a <= e.time <= a + HOUR))
                ==> CountedBetween(log, a, a + HOUR) <= max + n - 1)
  {
    InitInv(start, max, n);
    RunKeepsInv(Init(start), steps, max, n);
    var log := After(Init(start), steps, max).log;
    hide *;
    if CountedBetween(log, a, a + HOUR) > max + n - 1 {
      CrowdedHour(After(Init(start), steps, max), a, max, n);
    }
  }

  lemma CrowdedHour(s: State, a: int, max: nat, n: nat)
    requires max >= 1 && n >= 1 && Inv(s, max, n) && CountedBetween(s.log, a, a + HOUR) > max + n - 1
    ensures ReopensBetweenCalls(s.log, a)
    ensures exists e :: e in s.log && e.Reset? && a <= e.time <= a + HOUR
  {
    CrowdedHourReopens(s.log, a, max + n - 1);
    ReopeningIsInHour(s.log, a);
  }

  lemma ReopeningIsInHour(log: seq<Event>, a: int)
    requires Chronological(log) && ReopensBetweenCalls(log, a)
    ensures exists e :: e in log && e.Reset? && a <= e.time <= a + HOUR
  {
    var p, r, q :| 0 <= p < r < q < |log| && log[p].Counted? && log[r].Reset? && log[q].Counted?
                   && a <= log[p].time && log[q].time <= a + HOUR;
    assert log[r] in log && a <= log[r].time <= a + HOUR;
  }

  // ------------------------------------------------------------------ both bounds are reached

  /** k calls one after the other, each succeeding at time t. */
  function Sequential(k: nat, t: int): seq<Step> {
    if k == 0 then [] else [Enter(0), Check(0, t, t), Count(0, t)] + Sequential(k - 1, t)
  }

  lemma EmptyRun(s: State, max: nat)
    ensures After(s, [], max) == s
  {
  }

  lemma OneStep(s: State, step: Step, max: nat, n: nat)
    requires Enabled(s, step, n)
    ensures IsRun(s, [step], max, n) && After(s, [step], max) == Apply(s, step, max)
  {
    hide Enabled;
    hide Apply;
    assert [step][1..] == [];
  }

  lemma RunUnfolds(s: State, steps: seq<Step>, max: nat, n: nat)
    requires steps != []
    ensures After(s, steps, max) == After(Apply(s, steps[0], max), steps[1..], max)
    ensures IsRun(s, steps, max, n) <==> Enabled(s, steps[0], n) && IsRun(Apply(s, steps[0], max), steps[1..], max, n)
  {
    hide Apply;
    hide Enabled;
  }

  lemma {:induction false} RunConcat(s: State, a: seq<Step>, b: seq<Step>, max: nat, n: nat)
    requires IsRun(s, a, max, n) && IsRun(After(s, a, max), b, max, n)
    ensures IsRun(s, a + b, max, n)
    ensures After(s, a + b, max) == After(After(s, a, max), b, max)
    decreases |a|
  {
    hide *;
    if a == [] {
      assert a + b == b;
      EmptyRun(s, max);
    } else {
      assert (a + b)[1..] == a[1..] + b && (a + b)[0] == a[0];
      RunUnfolds(s, a, max, n);
      RunUnfolds(s, a + b, max, n);
      RunConcat(Apply(s, a[0], max), a[1..], b, max, n);
    }
  }

  /** k counted calls at time t, in a log that the window of s extends. */
  function Copies(k: nat, t: int): seq<Event> {
    seq(k, _ => Counted(t))
  }

  lemma OneCall(s: State, t: int, max: nat, n: nat) returns (s': State)
    requires s.phases == map[] && s.clock <= t <= s.resetAt && s.calls < max && n >= 1
    ensures var steps := [Enter(0), Check(0, t, t), Count(0, t)];
            IsRun(s, steps, max, n) && After(s, steps, max) == s'
    ensures s' == State(s.calls + 1, s.resetAt, t, map[], s.log + [Counted(t)])
  {
    var c0, c1, c2 := Enter(0), Check(0, t, t), Count(0, t);
    var s1 := Apply(s, c0, max);
    var s2 := Apply(s1, c1, max);
    s' := Apply(s2, c2, max);
    assert s'.phases == map[];
    assert [c0, c1, c2][1..] == [c1, c2] && [c1, c2][1..] == [c2] && [c2][1..] == [];
    assert IsRun(s2, [c2], max, n) && After(s2, [c2], max) == s';
    assert IsRun(s1, [c1, c2], max, n) && After(s1, [c1, c2], max) == s';
  }

  lemma {:induction false} SequentialRuns(s: State, k: nat, t: int, max: nat, n: nat)
    requires s.phases == map[] && s.clock <= t <= s.resetAt && s.calls + k <= max && n >= 1
    ensures IsRun(s, Sequential(k, t), max, n)
    ensures After(s, Sequential(k, t), max)
         == State(s.calls + k, s.resetAt, if k == 0 then s.clock else t, map[], s.log + Copies(k, t))
    decreases k
  {
    if k == 0 {
      assert s.log + Copies(k, t) == s.log;
    } else {
      var s' := OneCall(s, t, max, n);
      SequentialRuns(s', k - 1, t, max, n);
      RunConcat(s, [Enter(0), Check(0, t, t), Count(0, t)], Sequential(k - 1, t), max, n);
      assert s.log + Copies(k, t) == s'.log + Copies(k - 1, t);
    }
  }

  /** Calls 0 to k - 1 pass the check before any of them is counted. */
  function AdmitAll(k: nat, t: int): seq<Step> {
    if k == 0 then [] else AdmitAll(k - 1, t) + [Enter(k - 1), Check(k - 1, t, t)]
  }

  function CountAll(k: nat, t: int): seq<Step> {
    if k == 0 then [] else [Count(k - 1, t)] + CountAll(k - 1, t)
  }

  function AllAdmitted(k: nat): (m: map<nat, Phase>)
    ensures |m| == k && forall id :: id in m ==> id < k
  {
    if k == 0 then map[] else AllAdmitted(k - 1)[k - 1 := Admitted]
  }

  lemma {:induction false} AdmitAllRuns(s: State, k: nat, t: int, max: nat, n: nat)
    requires s.phases == map[] && s.clock <= t <= s.resetAt && s.calls < max && k <= n
    ensures IsRun(s, AdmitAll(k, t), max, n)
    ensures After(s, AdmitAll(k, t), max) == s.(phases := AllAdmitted(k), clock := if k == 0 then s.clock else t)
    decreases k
  {
    if k > 0 {
      AdmitAllRuns(s, k - 1, t, max, n);
      var s' := After(s, AdmitAll(k - 1, t), max);
      AdmitOne(s', k - 1, t, max, n);
      RunConcat(s, AdmitAll(k - 1, t), [Enter(k - 1), Check(k - 1, t, t)], max, n);
    }
  }

  lemma AdmitOne(s: State, k: nat, t: int, max: nat, n: nat)
    requires s.phases == AllAdmitted(k) && s.clock <= t <= s.resetAt && s.calls < max && k < n
    ensures var steps := [Enter(k), Check(k, t, t)];
            IsRun(s, steps, max, n) && After(s, steps, max) == s.(phases := AllAdmitted(k + 1), clock := t)
  {
    var c0, c1 := Enter(k), Check(k, t, t);
    var s1 := Apply(s, c0, max);
    var s2 := Apply(s1, c1, max);
    assert s2 == s.(phases := AllAdmitted(k + 1), clock := t);
    assert Enabled(s, c0, n) && Enabled(s1, c1, n);
    hide Apply;
    hide Enabled;
    hide AllAdmitted;
    assert [c0, c1][1..] == [c1] && [c1][1..] == [];
    assert IsRun(s1, [c1], max, n) && After(s1, [c1], max) == s2;
  }

  lemma {:induction false} CountAllRuns(s: State, k: nat, t: int, max: nat, n: nat)
    requires s.phases == AllAdmitted(k) && s.clock == t
    ensures IsRun(s, CountAll(k, t), max, n)
    ensures After(s, CountAll(k, t), max) == State(s.calls + k, s.resetAt, t, map[], s.log + Copies(k, t))
    decreases k
  {
    if k == 0 {
      assert s.log + Copies(k, t) == s.log;
    } else {
      var s' := CountOne(s, k - 1, t, max, n);
      assert CountAll(k, t) == [Count(k - 1, t)] + CountAll(k - 1, t);
      assert s.log + Copies(k, t) == s.log + [Counted(t)] + Copies(k - 1, t);
      hide *;
      CountAllRuns(s', k - 1, t, max, n);
      RunConcat(s, [Count(k - 1, t)], CountAll(k - 1, t), max, n);
    }
  }

  lemma CountOne(s: State, k: nat, t: int, max: nat, n: nat) returns (s': State)
    requires s.phases == AllAdmitted(k + 1) && s.clock == t
    ensures IsRun(s, [Count(k, t)], max, n) && After(s, [Count(k, t)], max) == s'
    ensures s' == State(s.calls + 1, s.resetAt, t, AllAdmitted(k), s.log + [Counted(t)])
  {
    s' := Apply(s, Count(k, t), max);
    assert s'.phases == AllAdmitted(k);
    OneStep(s, Count(k, t), max, n);
  }

  /** All calls but one of a full window, then n at once: what one window can count at most, all at time t. */
  function FullRound(max: nat, n: nat, t: int): seq<Step>
    requires max >= 1
  {
    Sequential(max - 1, t) + (AdmitAll(n, t) + CountAll(n, t))
  }

  lemma FullRoundRuns(s: State, t: int, max: nat, n: nat)
    requires max >= 1 && n >= 1 && s.phases == map[] && s.clock <= t <= s.resetAt && s.calls == 0
    ensures IsRun(s, FullRound(max, n, t), max, n)
    ensures After(s, FullRound(max, n, t), max)
         == State(max + n - 1, s.resetAt, t, map[], s.log + Copies(max + n - 1, t))
  {
    SequentialRuns(s, max - 1, t, max, n);
    var s1 := After(s, Sequential(max - 1, t), max);
    AdmitAllRuns(s1, n, t, max, n);
    var s2 := After(s1, AdmitAll(n, t), max);
    CountAllRuns(s2, n, t, max, n);
    assert s.log + Copies(max - 1, t) + Copies(n, t) == s.log + Copies(max + n - 1, t);
    hide *;
    RunConcat(s1, AdmitAll(n, t), CountAll(n, t), max, n);
    RunConcat(s, Sequential(max - 1, t), AdmitAll(n, t) + CountAll(n, t), max, n);
    RoundIs(max, n, t);
  }

  lemma RoundIs(max: nat, n: nat, t: int)
    requires max >= 1
    ensures FullRound(max, n, t) == Sequential(max - 1, t) + (AdmitAll(n, t) + CountAll(n, t))
  {
  }

  /** The bound on the overshoot is reached, for every limit and every number of calls in flight. */
  lemma OvershootIsReached(max: nat, n: nat) returns (steps: seq<Step>)
    requires max >= 1 && n >= 1
    ensures IsRun(Init(0), steps, max, n)
    ensures After(Init(0), steps, max).calls == max + n - 1
  {
    steps := FullRound(max, n, 0);
    FullRoundRuns(Init(0), 0, max, n);
  }

  lemma {:induction false} CountedBetweenConcat(x: seq<Event>, y: seq<Event>, a: int, b: int)
    ensures CountedBetween(x + y, a, b) == CountedBetween(x, a, b) + CountedBetween(y, a, b)
  {
    if y == [] {
      assert x + y == x;
    } else {
      assert (x + y)[..|x + y| - 1] == x + y[..|y| - 1];
      CountedBetweenConcat(x, y[..|y| - 1], a, b);
    }
  }

  lemma ResetCountsNothing(t: int, a: int, b: int)
    ensures CountedBetween([Reset(t)], a, b) == 0
  {
    assert [Reset(t)][..0] == [];
  }

  lemma {:induction false} CountedCopies(k: nat, t: int, a: int, b: int)
    requires a <= t <= b
    ensures CountedBetween(Copies(k, t), a, b) == k
  {
    if k > 0 {
      assert Copies(k, t)[..k - 1] == Copies(k - 1, t);
      CountedCopies(k - 1, t, a, b);
    }
  }

  /** A call whose providers all fail still reopens an expired window, and is not counted. */
  lemma FailedCallResets(s: State, t: int, max: nat, n: nat) returns (s': State)
    requires s.phases == map[] && s.clock <= t && s.resetAt < t && max >= 1 && n >= 1
    ensures var steps := [Enter(0), Check(0, t, t), Fail(0)];
            IsRun(s, steps, max, n) && After(s, steps, max) == s'
    ensures s' == State(0, t + HOUR, t, map[], s.log + [Reset(t)])
  {
    var c0, c1, c2 := Enter(0), Check(0, t, t), Fail(0);
    var s1 := Apply(s, c0, max);
    var s2 := Apply(s1, c1, max);
    s' := Apply(s2, c2, max);
    assert s'.phases == map[];
    assert [c0, c1, c2][1..] == [c1, c2] && [c1, c2][1..] == [c2] && [c2][1..] == [];
    assert IsRun(s2, [c2], max, n) && After(s2, [c2], max) == s';
    assert IsRun(s1, [c1, c2], max, n) && After(s1, [c1, c2], max) == s';
  }

  /** The window reopens at time t and is then filled at once. */
  lemma ResetAndFill(s: State, t: int, max: nat, n: nat) returns (steps: seq<Step>)
    requires s.phases == map[] && s.clock <= t && s.resetAt < t && max >= 1 && n >= 1
    ensures IsRun(s, steps, max, n)
    ensures After(s, steps, max).log == s.log + [Reset(t)] + Copies(max + n - 1, t)
  {
    var s' := FailedCallResets(s, t, max, n);
    FullRoundRuns(s', t, max, n);
    hide *;
    var first := [Enter(0), Check(0, t, t), Fail(0)];
    RunConcat(s, first, FullRound(max, n, t), max, n);
    steps := first + FullRound(max, n, t);
  }

  /**
   The limit is not a rolling one, and the bound of AnyHourIsBounded is reached: for every limit and every
   number n of calls in flight, 2 (max + n - 1) calls can succeed within two nanoseconds around the end of a
   window; with n = 1, calls that never overlap succeed twice as often as the limit allows.
   */
  lemma TwiceTheLimitAroundAReset(max: nat, n: nat) returns (steps: seq<Step>)
    requires max >= 1 && n >= 1
    ensures IsRun(Init(0), steps, max, n)
    ensures CountedBetween(After(Init(0), steps, max).log, HOUR, HOUR + 1) == 2 * (max + n - 1)
  {
    var s, t, k := Init(0), HOUR + 1, max + n - 1;
    var first := FullRound(max, n, HOUR);
    FullRoundRuns(s, HOUR, max, n);
    var s1 := After(s, first, max);
    assert s1.log == [Reset(0)] + Copies(k, HOUR);
    ResetCountsNothing(0, HOUR, t);
    ResetCountsNothing(t, HOUR, t);
    hide FullRound;
    hide Copies;
    hide IsRun;
    hide After;
    hide CountedBetween;
    var second := ResetAndFill(s1, t, max, n);
    RunConcat(s, first, second, max, n);
    steps := first + second;
    CountedBetweenConcat(s1.log + [Reset(t)], Copies(k, t), HOUR, t);
    CountedBetweenConcat(s1.log, [Reset(t)], HOUR, t);
    CountedBetweenConcat([Reset(0)], Copies(k, HOUR), HOUR, t);
    CountedCopies(k, t, HOUR, t);
    CountedCopies(k, HOUR, HOUR, t);
  }

  // ------------------------------------------------------------------ when a reset breaks the rolling limit

  /** Steps that reopen the window at t once, and put more than a window's worth of calls into an hour around t. */
  ghost predicate CrowdsTheHour(s: State, steps: seq<Step>, max: nat, n: nat, t: int, a: int) {
    && IsRun(s, steps, max, n) && a <= t <= a + HOUR
    && var log := After(s, steps, max).log;
       && |s.log| < |log| && log[..|s.log|] == s.log && log[|s.log|] == Reset(t)
       && (forall k :: |s.log| < k < |log| ==> log[k].Counted?)
       && CountedBetween(log, a, a + HOUR) > max + n - 1
  }

  lemma {:induction false} BetweenAreCounted(log: seq<Event>, a: int, b: int)
    ensures CountedBetween(log, a, b) <= CountedCalls(log)
  {
    if log != [] { BetweenAreCounted(log[..|log| - 1], a, b); }
  }

  lemma {:induction false} WiderInterval(log: seq<Event>, a: int, b: int, c: int, d: int)
    requires forall k :: 0 <= k < |log| && a <= log[k].time <= b ==> c <= log[k].time <= d
    ensures CountedBetween(log, a, b) <= CountedBetween(log, c, d)
  {
    if log != [] { WiderInterval(log[..|log| - 1], a, b, c, d); }
  }

  lemma CrowdNeedsRecentCall(s: State, log: seq<Event>, bound: nat, t: int, a: int)
    requires WindowsBounded(log, bound) && |s.log| < |log| && log[..|s.log|] == s.log && log[|s.log|] == Reset(t)
    requires forall k :: |s.log| < k < |log| ==> log[k].Counted?
    requires a <= t <= a + HOUR && forall k :: 0 <= k < |s.log| ==> s.log[k].time <= t
    requires CountedBetween(log, a, a + HOUR) > bound
    ensures CountedBetween(s.log, t - HOUR, t) > 0
  {
    var m, rest := |s.log| + 1, log[|s.log| + 1..];
    StretchInOneWindow(log, m, |log|);
    assert log[m..|log|] == rest && log[..|log|] == log;
    assert log == s.log + ([Reset(t)] + rest);
    ResetCountsNothing(t, a, a + HOUR);
    WiderInterval(s.log, a, a + HOUR, t - HOUR, t);
    hide *;
    CountedBetweenConcat(s.log, [Reset(t)] + rest, a, a + HOUR);
    CountedBetweenConcat([Reset(t)], rest, a, a + HOUR);
    BetweenAreCounted(rest, a, a + HOUR);
  }

  /** The calls in flight can all end without counting or resetting anything. */
  lemma {:induction false} Drain(s: State, max: nat, n: nat) returns (steps: seq<Step>)
    ensures IsRun(s, steps, max, n) && After(s, steps, max) == s.(phases := map[])
    decreases |s.phases|
  {
    if s.phases == map[] {
      steps := [];
    } else {
      var id :| id in s.phases;
      var step := if s.phases[id] == Entered then Leave(id) else Fail(id);
      var s' := Apply(s, step, max);
      OneStep(s, step, max, n);
      assert s'.phases == s.phases - {id} && s == s'.(phases := s.phases);
      FewerPhases(s.phases, id);
      var rest := Drain(s', max, n);
      hide *;
      RunConcat(s, [step], rest, max, n);
      steps := [step] + rest;
    }
  }

  lemma FewerPhases(phases: map<nat, Phase>, id: nat)
    requires id in phases
    ensures |phases - {id}| < |phases|
  {
    assert phases.Keys == (phases - {id}).Keys + {id};
  }

  lemma RecentCallCrowds(s: State, max: nat, n: nat, t: int) returns (steps: seq<Step>)
    requires max >= 1 && n >= 1 && s.clock <= t && s.resetAt < t
    requires CountedBetween(s.log, t - HOUR, t) > 0
    ensures CrowdsTheHour(s, steps, max, n, t, t - HOUR)
  {
    var drained := s.(phases := map[]);
    var first := Drain(s, max, n);
    var second := IdleCrowds(drained, max, n, t);
    steps := first + second;
    hide IsRun;
    hide After;
    hide CountedBetween;
    RunConcat(s, first, second, max, n);
  }

  lemma IdleCrowds(s: State, max: nat, n: nat, t: int) returns (steps: seq<Step>)
    requires max >= 1 && n >= 1 && s.phases == map[] && s.clock <= t && s.resetAt < t
    requires CountedBetween(s.log, t - HOUR, t) > 0
    ensures CrowdsTheHour(s, steps, max, n, t, t - HOUR)
  {
    var k := max + n - 1;
    steps := ResetAndFill(s, t, max, n);
    var log := After(s, steps, max).log;
    hide IsRun;
    hide After;
    assert log[..|s.log|] == s.log && log[|s.log|] == Reset(t);
    assert forall i :: |s.log| < i < |log| ==> log[i] == Copies(k, t)[i - |s.log| - 1];
    ResetCountsNothing(t, t - HOUR, t);
    hide CountedBetween;
    CountedBetweenConcat(s.log + [Reset(t)], Copies(k, t), t - HOUR, t);
    CountedBetweenConcat(s.log, [Reset(t)], t - HOUR, t);
    CountedCopies(k, t, t - HOUR, t);
  }

  /**
   When exactly a reset breaks the rolling reading: in any reachable state, whatever calls are in flight, once the
   window has expired and reopens at time t, some continuation within the new window puts more than max + n - 1
   successful calls (more than max when calls do not overlap) into a closed hour around t iff a call was counted
   in the hour before t.
   */
  lemma ResetBreaksRollingLimitExactly(start: int, before: seq<Step>, max: nat, n: nat, t: int)
    requires max >= 1 && n >= 1 && IsRun(Init(start), before, max, n)
    requires var s := After(Init(start), before, max); s.clock <= t && s.resetAt < t
    ensures var s := After(Init(start), before, max);
            (exists steps, a :: CrowdsTheHour(s, steps, max, n, t, a)) <==> CountedBetween(s.log, t - HOUR, t) > 0
  {
    InitInv(start, max, n);
    RunKeepsInv(Init(start), before, max, n);
    var s := After(Init(start), before, max);
    hide CrowdsTheHour;
    if steps, a :| CrowdsTheHour(s, steps, max, n, t, a) {
      CrowdedRun(s, steps, max, n, t, a);
    }
    if CountedBetween(s.log, t - HOUR, t) > 0 {
      var steps := RecentCallCrowds(s, max, n, t);
    }
  }

  lemma CrowdedRun(s: State, steps: seq<Step>, max: nat, n: nat, t: int, a: int)
    requires n >= 1 && Inv(s, max, n) && s.clock <= t && CrowdsTheHour(s, steps, max, n, t, a)
    ensures CountedBetween(s.log, t - HOUR, t) > 0
  {
    RunKeepsInv(s, steps, max, n);
    var log := After(s, steps, max).log;
    hide CountedBetween;
    hide IsRun;
    hide After;
    CrowdNeedsRecentCall(s, log, max + n - 1, t, a);
  }
}
