/**
 What the sliding-window pattern detector decides (internal/aggregator/pattern_detector.go),
 as a state machine over values, and its agreement with a detector that forgets nothing.
 Times are integers, in nanoseconds. The class with the source's mutable state is in PatternDetector.
 */
module SlidingWindows {
  import opened Basics

  const MINUTE: int := 60_000_000_000

  /** staleThreshold */
  const STALE: int := 30 * MINUTE

  /** The windows "1m", "5m" and "15m". */
  datatype Window = M1 | M5 | M15 {
    function Seconds(): int {
      match this
      case M1 => 60
      case M5 => 300
      case M15 => 900
    }

    function Duration(): int {
      match this
      case M1 => MINUTE
      case M5 => 5 * MINUTE
      case M15 => 15 * MINUTE
    }
  }

  /** fingerprintData: one list of event times per window, and the time of the latest event. */
  datatype Tracked = Tracked(m1: seq<int>, m5: seq<int>, m15: seq<int>, lastSeen: int) {
    /** events[w] */
    function At(w: Window): seq<int> {
      match w
      case M1 => m1
      case M5 => m5
      case M15 => m15
    }

    function With(w: Window, kept: seq<int>): Tracked {
      match w
      case M1 => this.(m1 := kept)
      case M5 => this.(m5 := kept)
      case M15 => this.(m15 := kept)
    }
  }

  type State = map<string, Tracked>

  /** PatternWindow in the API types. */
  datatype PatternWindow = PatternWindow(window: Window, count: nat, rate: real)

  datatype Op =
    | Record(fp: string, time: int)
    | GetFrequency(fp: string, time: int)
    | IsBursting(fp: string, threshold: int, time: int)
    | IsRecurring(fp: string, time: int)
    | Cleanup(time: int)

  /** What the caller of an operation sees. */
  datatype Observation = Nothing | Frequency(windows: seq<PatternWindow>) | Answer(yes: bool)

  // ------------------------------------------------------------------ the steps of the detector

  /** events without its leading times before cutoff */
  function Pruned(events: seq<int>, cutoff: int): seq<int> {
    if events != [] && events[0] < cutoff then Pruned(events[1..], cutoff) else events
  }

  const FRESH := Tracked([], [], [], 0)

  function PruneOne(t: Tracked, w: Window, now: int): Tracked {
    t.With(w, Pruned(t.At(w), now - w.Duration()))
  }

  function Append(t: Tracked, time: int): Tracked {
    Tracked(t.m1 + [time], t.m5 + [time], t.m15 + [time], time)
  }

  function Report(w: Window, count: nat): PatternWindow {
    PatternWindow(w, count, count as real / w.Seconds() as real)
  }

  /** What an operation that only looks at a tracked fingerprint prunes, and what it returns. */
  function Look(t: Tracked, op: Op): (Tracked, Observation)
    requires op.GetFrequency? || op.IsBursting? || op.IsRecurring?
  {
    var t1 := PruneOne(t, M1, op.time);
    var t5 := PruneOne(t1, M5, op.time);
    var t15 := PruneOne(t5, M15, op.time);
    var n1, n5, n15 := |t15.m1|, |t15.m5|, |t15.m15|;
    if op.GetFrequency? then (t15, Frequency([Report(M1, n1), Report(M5, n5), Report(M15, n15)]))
    else if op.IsBursting? then (t1, Answer(n1 > op.threshold))
    else if n1 == 0 then (t1, Answer(false))
    else if n5 == 0 then (t5, Answer(false))
    else (t15, Answer(n15 != 0))
  }

  /** What a look at an unknown fingerprint returns. */
  function NothingTracked(op: Op): Observation {
    if op.GetFrequency? then Frequency([Report(M1, 0), Report(M5, 0), Report(M15, 0)]) else Answer(false)
  }

  /** The effect of one operation on the detector and what it returns. */
  function Step(s: State, op: Op): (State, Observation) {
    match op
    case Record(fp, time) => (s[fp := Append(if fp in s then s[fp] else FRESH, time)], Nothing)
    case Cleanup(now) => (Evicted(s, now), Nothing)
    case _ =>
      if op.fp in s then (s[op.fp := Look(s[op.fp], op).0], Look(s[op.fp], op).1)
      else (s, NothingTracked(op))
  }

  function Evicted(s: State, now: int): State {
    map fp | fp in s && !(s[fp].lastSeen < now - STALE) :: s[fp]
  }

  function Run(s: State, ops: seq<Op>): (seen: seq<Observation>)
    ensures |seen| == |ops|
    decreases |ops|
  {
    if ops == [] then [] else [Step(s, ops[0]).1] + Run(Step(s, ops[0]).0, ops[1..])
  }

  function After(s: State, ops: seq<Op>): State
    decreases |ops|
  {
    if ops == [] then s else After(Step(s, ops[0]).0, ops[1..])
  }

  // ------------------------------------------------------------------ the detector that forgets nothing

  /** Every event ever recorded, by fingerprint. */
  type History = map<string, seq<int>>

  function Events(h: History, fp: string): seq<int> {
    if fp in h then h[fp] else []
  }

  /** The number of events at or after cutoff. */
  function CountSince(events: seq<int>, cutoff: int): (n: nat)
    ensures n <= |events|
  {
    if events == [] then 0 else (if events[0] >= cutoff then 1 else 0) + CountSince(events[1..], cutoff)
  }

  function CountIn(h: History, fp: string, w: Window, now: int): nat {
    CountSince(Events(h, fp), now - w.Duration())
  }

  function IdealStep(h: History, op: Op): (History, Observation) {
    match op
    case Record(fp, time) => (h[fp := Events(h, fp) + [time]], Nothing)
    case GetFrequency(fp, now) =>
      (h, Frequency([Report(M1, CountIn(h, fp, M1, now)), Report(M5, CountIn(h, fp, M5, now)),
                     Report(M15, CountIn(h, fp, M15, now))]))
    case IsBursting(fp, threshold, now) => (h, Answer(CountIn(h, fp, M1, now) > threshold))
    case IsRecurring(fp, now) => (h, Answer(forall w: Window :: CountIn(h, fp, w, now) > 0))
    case Cleanup(_) => (h, Nothing)
  }

  function IdealRun(h: History, ops: seq<Op>): seq<Observation>
    decreases |ops|
  {
    if ops == [] then [] else [IdealStep(h, ops[0]).1] + IdealRun(IdealStep(h, ops[0]).0, ops[1..])
  }

  function IdealAfter(h: History, ops: seq<Op>): History
    decreases |ops|
  {
    if ops == [] then h else IdealAfter(IdealStep(h, ops[0]).0, ops[1..])
  }

  // ------------------------------------------------------------------ pruning loses nothing that will be counted

  predicate Sorted(events: seq<int>) {
    forall i, j :: 0 <= i < j < |events| ==> events[i] <= events[j]
  }

  /** kept is a suffix of all, and every dropped time lies before horizon. */
  predicate KeepsRecent(kept: seq<int>, all: seq<int>, horizon: int) {
    && |kept| <= |all|
    && kept == all[|all| - |kept|..]
    && forall i :: 0 <= i < |all| - |kept| ==> all[i] < horizon
  }

  lemma {:induction false} CountSinceConcat(a: seq<int>, b: seq<int>, cutoff: int)
    ensures CountSince(a + b, cutoff) == CountSince(a, cutoff) + CountSince(b, cutoff)
  {
    if a == [] {
      assert a + b == b;
    } else {
      assert (a + b)[1..] == a[1..] + b;
      CountSinceConcat(a[1..], b, cutoff);
    }
  }

  lemma {:induction false} CountSinceNone(a: seq<int>, cutoff: int)
    requires forall i :: 0 <= i < |a| ==> a[i] < cutoff
    ensures CountSince(a, cutoff) == 0
  {
    if a != [] { CountSinceNone(a[1..], cutoff); }
  }

  lemma {:induction false} CountSinceAll(a: seq<int>, cutoff: int)
    requires forall i :: 0 <= i < |a| ==> a[i] >= cutoff
    ensures CountSince(a, cutoff) == |a|
  {
    if a != [] { CountSinceAll(a[1..], cutoff); }
  }

  lemma {:induction false} CountSinceMonotone(a: seq<int>, early: int, late: int)
    requires early <= late
    ensures CountSince(a, late) <= CountSince(a, early)
  {
    if a != [] { CountSinceMonotone(a[1..], early, late); }
  }

  /** Pruning a sorted list leaves a suffix, all of it recent, and drops only old times. */
  lemma {:induction false} PrunedIsRecentSuffix(events: seq<int>, cutoff: int)
    requires Sorted(events)
    ensures KeepsRecent(Pruned(events, cutoff), events, cutoff)
    ensures forall i :: 0 <= i < |Pruned(events, cutoff)| ==> Pruned(events, cutoff)[i] >= cutoff
    ensures Sorted(Pruned(events, cutoff))
  {
    if events != [] && events[0] < cutoff {
      PrunedIsRecentSuffix(events[1..], cutoff);
      var kept, n := Pruned(events, cutoff), |events|;
      assert kept == events[1..][n - 1 - |kept|..] == events[n - |kept|..];
      forall i | 0 <= i < n - |kept| ensures events[i] < cutoff {
        if i > 0 { assert events[i] == events[1..][i - 1]; }
      }
    }
  }

  lemma KeepsRecentTransitive(kept: seq<int>, mid: seq<int>, all: seq<int>, h1: int, h2: int)
    requires KeepsRecent(kept, mid, h1) && KeepsRecent(mid, all, h2) && h2 <= h1
    ensures KeepsRecent(kept, all, h1)
  {
    var n, m, k := |all|, |mid|, |kept|;
    assert kept == all[n - m..][m - k..] == all[n - k..];
    forall i | 0 <= i < n - k ensures all[i] < h1 {
      if i >= n - m { assert all[i] == mid[i - (n - m)]; }
    }
  }

  lemma SuffixSorted(kept: seq<int>, all: seq<int>, horizon: int)
    requires Sorted(all) && KeepsRecent(kept, all, horizon)
    ensures Sorted(kept)
  {
    assert forall i :: 0 <= i < |kept| ==> kept[i] == all[|all| - |kept| + i];
  }

  lemma CountOfSuffix(kept: seq<int>, all: seq<int>, cutoff: int)
    requires KeepsRecent(kept, all, cutoff)
    requires forall i :: 0 <= i < |kept| ==> kept[i] >= cutoff
    ensures CountSince(all, cutoff) == |kept|
  {
    var dropped := all[..|all| - |kept|];
    assert all == dropped + kept;
    CountSinceConcat(dropped, kept, cutoff);
    CountSinceNone(dropped, cutoff);
    CountSinceAll(kept, cutoff);
  }

  /** The length of a pruned window is the number of recent events of the full history. */
  lemma PrunedLengthIsCount(kept: seq<int>, all: seq<int>, horizon: int, cutoff: int)
    requires Sorted(all) && KeepsRecent(kept, all, horizon) && horizon <= cutoff
    ensures |Pruned(kept, cutoff)| == CountSince(all, cutoff)
    ensures KeepsRecent(Pruned(kept, cutoff), all, cutoff)
  {
    hide KeepsRecent;
    hide Sorted;
    hide Pruned;
    hide CountSince;
    SuffixSorted(kept, all, horizon);
    PrunedIsRecentSuffix(kept, cutoff);
    KeepsRecentTransitive(Pruned(kept, cutoff), kept, all, cutoff, horizon);
    CountOfSuffix(Pruned(kept, cutoff), all, cutoff);
  }

  // ------------------------------------------------------------------ refinement

  /** What ties one tracked fingerprint to its full history when the clock shows time now. */
  predicate Follows(t: Tracked, all: seq<int>, now: int) {
    && all != [] && t.lastSeen == all[|all| - 1]
    && WindowFollows(t, all, M1, now) && WindowFollows(t, all, M5, now) && WindowFollows(t, all, M15, now)
  }

  predicate WindowFollows(t: Tracked, all: seq<int>, w: Window, now: int) {
    KeepsRecent(t.At(w), all, now - w.Duration())
  }

  predicate Chronological(all: seq<int>, now: int) {
    Sorted(all) && forall i :: 0 <= i < |all| ==> all[i] <= now
  }

  predicate AllBefore(all: seq<int>, time: int) {
    forall i :: 0 <= i < |all| ==> all[i] < time
  }

  /**
   One fingerprint: what the detector holds for it, if anything, against its full history.
   An absent fingerprint has been idle for longer than the stale threshold.
   */
  predicate Tied(held: Option<Tracked>, all: seq<int>, now: int) {
    && Chronological(all, now)
    && match held
       case Some(t) => Follows(t, all, now)
       case None => AllBefore(all, now - STALE)
  }

  function Held(s: State, fp: string): Option<Tracked> {
    if fp in s then Some(s[fp]) else None
  }

  predicate Refines(s: State, h: History, now: int) {
    && s.Keys <= h.Keys
    && forall fp :: fp in h ==> Tied(Held(s, fp), h[fp], now)
  }

  lemma TiedLater(held: Option<Tracked>, all: seq<int>, now: int, later: int)
    requires Tied(held, all, now) && now <= later
    ensures Tied(held, all, later)
  {
  }

  lemma RefinesLater(s: State, h: History, now: int, later: int)
    requires Refines(s, h, now) && now <= later
    ensures Refines(s, h, later)
  {
    hide Tied;
    forall fp | fp in h
      ensures Tied(Held(s, fp), h[fp], later)
    {
      TiedLater(Held(s, fp), h[fp], now, later);
    }
  }

  lemma PruneOneFollows(t: Tracked, all: seq<int>, w: Window, now: int)
    requires Follows(t, all, now) && Chronological(all, now)
    ensures Follows(PruneOne(t, w, now), all, now)
    ensures |PruneOne(t, w, now).At(w)| == CountSince(all, now - w.Duration())
  {
    assert WindowFollows(t, all, w, now);
    PrunedLengthIsCount(t.At(w), all, now - w.Duration(), now - w.Duration());
  }

  lemma ExtendKeepsRecent(kept: seq<int>, all: seq<int>, horizon: int, time: int)
    requires KeepsRecent(kept, all, horizon)
    ensures KeepsRecent(kept + [time], all + [time], horizon)
  {
    assert (all + [time])[|all| - |kept|..] == all[|all| - |kept|..] + [time];
  }

  lemma AppendFollows(t: Tracked, all: seq<int>, time: int)
    requires Chronological(all, time)
    requires Follows(t, all, time) || (t == FRESH && AllBefore(all, time - STALE))
    ensures Follows(Append(t, time), all + [time], time)
    ensures Chronological(all + [time], time)
  {
    hide KeepsRecent;
    ExtendKeepsRecent(t.m1, all, time - M1.Duration(), time);
    ExtendKeepsRecent(t.m5, all, time - M5.Duration(), time);
    ExtendKeepsRecent(t.m15, all, time - M15.Duration(), time);
  }

  lemma LookFollows(t: Tracked, h: History, op: Op)
    requires op.GetFrequency? || op.IsBursting? || op.IsRecurring?
    requires op.fp in h && Tied(Some(t), h[op.fp], op.time)
    ensures Tied(Some(Look(t, op).0), h[op.fp], op.time)
    ensures Look(t, op).1 == IdealStep(h, op).1
  {
    hide Follows;
    hide Chronological;
    hide Pruned;
    var all, now := h[op.fp], op.time;
    PruneOneFollows(t, all, M1, now);
    var t1 := PruneOne(t, M1, now);
    PruneOneFollows(t1, all, M5, now);
    var t5 := PruneOne(t1, M5, now);
    PruneOneFollows(t5, all, M15, now);
    var t15 := PruneOne(t5, M15, now);
    assert CountIn(h, op.fp, M1, now) == |t15.m1|;
    assert CountIn(h, op.fp, M5, now) == |t15.m5|;
    assert CountIn(h, op.fp, M15, now) == |t15.m15|;
    assert (forall w: Window :: CountIn(h, op.fp, w, now) > 0) <==> |t15.m1| > 0 && |t15.m5| > 0 && |t15.m15| > 0;
  }

  lemma AbsentCountsNothing(h: History, fp: string, now: int)
    requires fp in h ==> AllBefore(h[fp], now - STALE)
    ensures forall w: Window :: CountIn(h, fp, w, now) == 0
  {
    forall w: Window
      ensures CountIn(h, fp, w, now) == 0
    {
      CountSinceNone(Events(h, fp), now - w.Duration());
    }
  }

  lemma StaleIsOld(t: Tracked, all: seq<int>, now: int)
    requires Tied(Some(t), all, now) && t.lastSeen < now - STALE
    ensures Tied(None, all, now)
  {
    hide KeepsRecent;
  }

  lemma EvictionRefines(s: State, h: History, now: int)
    requires Refines(s, h, now)
    ensures Refines(Evicted(s, now), h, now)
  {
    var s' := Evicted(s, now);
    forall fp | fp in h
      ensures Tied(Held(s', fp), h[fp], now)
    {
      assert Tied(Held(s, fp), h[fp], now);
      if fp in s && fp !in s' { StaleIsOld(s[fp], h[fp], now); }
    }
    hide Tied;
  }

  lemma UpdateRefines(s: State, h: History, fp: string, t: Tracked, all: seq<int>, now: int)
    requires Refines(s, h, now) && Tied(Some(t), all, now)
    ensures Refines(s[fp := t], h[fp := all], now)
  {
    hide Tied;
    var h' := h[fp := all];
    forall f | f in h'
      ensures Tied(Held(s[fp := t], f), h'[f], now)
    {
      assert f != fp ==> Held(s[fp := t], f) == Held(s, f);
    }
  }

  /** The threshold of a burst query is not negative. */
  predicate BurstThresholdCounts(op: Op) {
    op.IsBursting? ==> op.threshold >= 0
  }

  /**
   One step of the detector keeps the refinement. Its answer is the one full history gives, except
   exactly when a negative burst threshold is asked about a fingerprint that is not tracked.
   */
  lemma StepRefines(s: State, h: History, op: Op)
    requires Refines(s, h, op.time)
    ensures Refines(Step(s, op).0, IdealStep(h, op).0, op.time)
    ensures Step(s, op).1 == IdealStep(h, op).1 <==> (BurstThresholdCounts(op) || op.fp in s)
  {
    hide Refines;
    match op
    case Record(fp, time) => RecordRefines(s, h, fp, time);
    case Cleanup(now) => EvictionRefines(s, h, now);
    case _ => if op.fp in s { LookRefines(s, h, op); } else { AbsentRefines(s, h, op); }
  }

  lemma LookRefines(s: State, h: History, op: Op)
    requires Refines(s, h, op.time) && (op.GetFrequency? || op.IsBursting? || op.IsRecurring?) && op.fp in s
    ensures Refines(Step(s, op).0, h, op.time)
    ensures Step(s, op).1 == IdealStep(h, op).1
    ensures IdealStep(h, op).0 == h
  {
    hide Tied;
    hide Look;
    assert Held(s, op.fp) == Some(s[op.fp]);
    LookFollows(s[op.fp], h, op);
    UpdateRefines(s, h, op.fp, Look(s[op.fp], op).0, h[op.fp], op.time);
    assert h == h[op.fp := h[op.fp]];
  }

  lemma AbsentRefines(s: State, h: History, op: Op)
    requires Refines(s, h, op.time) && (op.GetFrequency? || op.IsBursting? || op.IsRecurring?) && op.fp !in s
    ensures Step(s, op).0 == s && IdealStep(h, op).0 == h
    ensures Step(s, op).1 == IdealStep(h, op).1 <==> BurstThresholdCounts(op)
  {
    if op.fp in h { assert Tied(Held(s, op.fp), h[op.fp], op.time); }
    AbsentCountsNothing(h, op.fp, op.time);
    hide CountIn;
    if op.IsRecurring? { assert CountIn(h, op.fp, M1, op.time) == 0; }
  }

  lemma RecordRefines(s: State, h: History, fp: string, time: int)
    requires Refines(s, h, time)
    ensures Refines(Step(s, Record(fp, time)).0, IdealStep(h, Record(fp, time)).0, time)
  {
    var t := if fp in s then s[fp] else FRESH;
    if fp in h { assert Tied(Held(s, fp), h[fp], time); }
    AppendFollows(t, Events(h, fp), time);
    UpdateRefines(s, h, fp, Append(t, time), Events(h, fp) + [time], time);
  }

  // ------------------------------------------------------------------ whole runs

  predicate NonDecreasing(ops: seq<Op>, from: int)
    decreases |ops|
  {
    ops != [] ==> ops[0].time >= from && NonDecreasing(ops[1..], ops[0].time)
  }

  lemma {:induction false} RunAgrees(s: State, h: History, now: int, ops: seq<Op>)
    requires Refines(s, h, now) && NonDecreasing(ops, now)
    requires forall i :: 0 <= i < |ops| ==> BurstThresholdCounts(ops[i])
    ensures Run(s, ops) == IdealRun(h, ops)
    decreases |ops|
  {
    hide Refines;
    hide Step;
    hide IdealStep;
    if ops != [] {
      RefinesLater(s, h, now, ops[0].time);
      StepRefines(s, h, ops[0]);
      RunAgrees(Step(s, ops[0]).0, IdealStep(h, ops[0]).0, ops[0].time, ops[1..]);
    }
  }

  /**
   Under a non-decreasing clock, in every interleaving of operations, callers see exactly what an
   unpruned history shows: lazy pruning, early returns, eviction and re-creation are invisible.
   */
  lemma DetectorShowsFullHistory(ops: seq<Op>, start: int)
    requires NonDecreasing(ops, start)
    requires forall i :: 0 <= i < |ops| ==> BurstThresholdCounts(ops[i])
    ensures Run(map[], ops) == IdealRun(map[], ops)
  {
    RunAgrees(map[], map[], start, ops);
  }

  lemma {:induction false} AfterRefines(s: State, h: History, now: int, ops: seq<Op>, end: int)
    requires Refines(s, h, now) && NonDecreasing(ops, now) && now <= end
    requires forall i :: 0 <= i < |ops| ==> ops[i].time <= end
    ensures Refines(After(s, ops), IdealAfter(h, ops), end)
    decreases |ops|
  {
    hide Refines;
    hide Step;
    hide IdealStep;
    if ops == [] {
      RefinesLater(s, h, now, end);
    } else {
      assert ops[0].time <= end;
      RefinesLater(s, h, now, ops[0].time);
      StepRefines(s, h, ops[0]);
      AfterRefines(Step(s, ops[0]).0, IdealStep(h, ops[0]).0, ops[0].time, ops[1..], end);
    }
  }

  /** The reported windows are those of M1, M5 and M15, and every one shows at least what the one before it shows. */
  predicate NestedReport(seen: Observation) {
    && seen.Frequency? && |seen.windows| == 3
    && seen.windows[0].window == M1 && seen.windows[1].window == M5 && seen.windows[2].window == M15
    && seen.windows[0].count <= seen.windows[1].count <= seen.windows[2].count
  }

  /**
   In every reachable state and at every later instant: the counts that the detector reports are nested, so
   IsRecurring holds exactly when IsBursting with threshold 0 does, which is when the latest event is at most a
   minute old.
   */
  lemma RecurringIsBursting(ops: seq<Op>, start: int, now: int, fp: string)
    requires NonDecreasing(ops, start) && start <= now
    requires forall i :: 0 <= i < |ops| ==> ops[i].time <= now
    ensures NestedReport(Step(After(map[], ops), GetFrequency(fp, now)).1)
    ensures var s := After(map[], ops);
            Step(s, IsRecurring(fp, now)).1 == Step(s, IsBursting(fp, 0, now)).1
    ensures var (s, all) := (After(map[], ops), Events(IdealAfter(map[], ops), fp));
            Step(s, IsRecurring(fp, now)).1 == Answer(all != [] && all[|all| - 1] >= now - MINUTE)
  {
    var s, h := After(map[], ops), IdealAfter(map[], ops);
    AfterRefines(map[], map[], start, ops, now);
    RecurringInState(s, h, fp, now);
    ReportInState(s, h, fp, now);
  }

  lemma ReportInState(s: State, h: History, fp: string, now: int)
    requires Refines(s, h, now)
    ensures NestedReport(Step(s, GetFrequency(fp, now)).1)
  {
    hide Refines;
    hide Step;
    StepRefines(s, h, GetFrequency(fp, now));
    IdealReport(h, fp, now);
    hide *;
  }

  lemma IdealReport(h: History, fp: string, now: int)
    ensures NestedReport(IdealStep(h, GetFrequency(fp, now)).1)
  {
    CountsAreNested(Events(h, fp), now);
    hide CountSince;
  }

  lemma RecurringInState(s: State, h: History, fp: string, now: int)
    requires Refines(s, h, now)
    ensures Step(s, IsRecurring(fp, now)).1 == Step(s, IsBursting(fp, 0, now)).1
    ensures var all := Events(h, fp);
            Step(s, IsRecurring(fp, now)).1 == Answer(all != [] && all[|all| - 1] >= now - MINUTE)
  {
    var all := Events(h, fp);
    SortedInState(s, h, fp, now);
    hide Refines;
    hide Step;
    hide IdealStep;
    hide Sorted;
    hide CountSince;
    StepRefines(s, h, IsRecurring(fp, now));
    StepRefines(s, h, IsBursting(fp, 0, now));
    LatestDecides(all, now - MINUTE);
    RecurringIdeally(h, fp, now);
  }

  lemma SortedInState(s: State, h: History, fp: string, now: int)
    requires Refines(s, h, now)
    ensures Sorted(Events(h, fp))
  {
    assert fp in h ==> Tied(Held(s, fp), h[fp], now);
  }

  lemma RecurringIdeally(h: History, fp: string, now: int)
    ensures IdealStep(h, IsRecurring(fp, now)).1 == IdealStep(h, IsBursting(fp, 0, now)).1
    ensures IdealStep(h, IsRecurring(fp, now)).1 == Answer(CountSince(Events(h, fp), now - MINUTE) > 0)
  {
    CountsAreNested(Events(h, fp), now);
    hide CountSince;
    assert forall w: Window :: CountIn(h, fp, w, now) >= CountIn(h, fp, M1, now);
  }

  lemma CountsAreNested(all: seq<int>, now: int)
    ensures CountSince(all, now - M1.Duration()) <= CountSince(all, now - M5.Duration())
    ensures CountSince(all, now - M5.Duration()) <= CountSince(all, now - M15.Duration())
  {
    CountSinceMonotone(all, now - M5.Duration(), now - M1.Duration());
    CountSinceMonotone(all, now - M15.Duration(), now - M5.Duration());
  }

  lemma LatestDecides(all: seq<int>, cutoff: int)
    requires Sorted(all)
    ensures CountSince(all, cutoff) > 0 <==> all != [] && all[|all| - 1] >= cutoff
  {
    if all != [] {
      var n := |all| - 1;
      if all[n] < cutoff {
        CountSinceNone(all, cutoff);
      } else {
        assert all == all[..n] + [all[n]];
        CountSinceConcat(all[..n], [all[n]], cutoff);
      }
    }
  }

  // ------------------------------------------------------------------ the numbers themselves

  /** The positions of the events at or after cutoff. */
  function Since(events: seq<int>, cutoff: int): set<nat> {
    set i: nat | i < |events| && events[i] >= cutoff
  }

  lemma {:induction false} CountSinceCounts(events: seq<int>, cutoff: int)
    ensures CountSince(events, cutoff) == |Since(events, cutoff)|
  {
    if events == [] {
      assert Since(events, cutoff) == {};
    } else {
      var n := |events| - 1;
      CountSinceCounts(events[..n], cutoff);
      CountSinceConcat(events[..n], [events[n]], cutoff);
      assert events == events[..n] + [events[n]];
      assert Since(events, cutoff) == Since(events[..n], cutoff) + if events[n] >= cutoff then {n} else {};
    }
  }

  /** A window of so many seconds that shows the events of its seconds up to now, and their number per second. */
  predicate ShowsLast(p: PatternWindow, w: Window, events: seq<int>, now: int, seconds: nat) {
    && p.window == w && p.count == |Since(events, now - seconds * 1_000_000_000)|
    && p.rate * seconds as real == p.count as real
  }

  /**
   What GetFrequency reports in every reachable state: the events of the last 60, 300 and 900 seconds, both ends
   included, and their rates per second.
   */
  lemma FrequencyInSeconds(ops: seq<Op>, start: int, now: int, fp: string)
    requires NonDecreasing(ops, start) && start <= now
    requires forall i :: 0 <= i < |ops| ==> ops[i].time <= now
    ensures var seen := Step(After(map[], ops), GetFrequency(fp, now)).1;
            var events := Events(IdealAfter(map[], ops), fp);
            && seen.Frequency? && |seen.windows| == 3
            && ShowsLast(seen.windows[0], M1, events, now, 60)
            && ShowsLast(seen.windows[1], M5, events, now, 300)
            && ShowsLast(seen.windows[2], M15, events, now, 900)
  {
    var s, h := After(map[], ops), IdealAfter(map[], ops);
    AfterRefines(map[], map[], start, ops, now);
    hide Refines;
    hide Step;
    hide IdealAfter;
    hide After;
    StepRefines(s, h, GetFrequency(fp, now));
    hide IdealStep;
    IdealInSeconds(h, now, fp);
  }

  lemma IdealInSeconds(h: History, now: int, fp: string)
    ensures var (seen, events) := (IdealStep(h, GetFrequency(fp, now)).1, Events(h, fp));
            && seen.Frequency? && |seen.windows| == 3
            && ShowsLast(seen.windows[0], M1, events, now, 60)
            && ShowsLast(seen.windows[1], M5, events, now, 300)
            && ShowsLast(seen.windows[2], M15, events, now, 900)
  {
    ReportInSeconds(h, fp, M1, now, 60);
    ReportInSeconds(h, fp, M5, now, 300);
    ReportInSeconds(h, fp, M15, now, 900);
    hide Report;
    hide ShowsLast;
    hide CountIn;
  }

  lemma ReportInSeconds(h: History, fp: string, w: Window, now: int, seconds: nat)
    requires seconds == match w case M1 => 60 case M5 => 300 case M15 => 900
    ensures ShowsLast(Report(w, CountIn(h, fp, w, now)), w, Events(h, fp), now, seconds)
  {
    CountSinceCounts(Events(h, fp), now - seconds * 1_000_000_000);
    hide CountSince;
    hide Since;
  }

  /** A cleanup keeps exactly the fingerprints seen within the last 1800 seconds, as they are. */
  lemma CleanupInSeconds(s: State, now: int, fp: string)
    ensures var kept := Step(s, Cleanup(now)).0;
            && (fp in kept <==> fp in s && s[fp].lastSeen >= now - 1_800_000_000_000)
            && (fp in kept ==> kept[fp] == s[fp])
  {
  }

  // ------------------------------------------------------------------ runs of a few operations

  /** A single event makes its fingerprint recurring for a minute, although nothing recurs. */
  lemma OneEventIsRecurring(fp: string, now: int)
    ensures now >= 0 ==> Run(map[], [Record(fp, 0), IsRecurring(fp, now)])[1] == Answer(now <= MINUTE)
  {
    var o0, o1 := Record(fp, 0), IsRecurring(fp, now);
    var s := Step(map[], o0).0;
    assert [o0, o1][1..] == [o1];
    assert s[fp] == Tracked([0], [0], [0], 0);
    if now >= 0 {
      assert Pruned([0], now - MINUTE) == if now > MINUTE then [] else [0];
      assert Step(s, o1).1 == Answer(now <= MINUTE);
    }
  }

  /** With a negative threshold eviction shows: the same history is bursting until it is evicted. */
  lemma NegativeThresholdSeesEviction(fp: string, threshold: int)
    requires threshold < 0
    ensures var ask := IsBursting(fp, threshold, STALE + 1);
            var ops := [Record(fp, 0), ask, Cleanup(STALE + 1), ask];
            && NonDecreasing(ops, 0)
            && Run(map[], ops)[1] == Answer(true)
            && Run(map[], ops)[3] == Answer(false)
  {
    var o0, o1, o2 := Record(fp, 0), IsBursting(fp, threshold, STALE + 1), Cleanup(STALE + 1);
    var s1 := Step(map[], o0).0;
    var s2 := Step(s1, o1).0;
    var s3 := Step(s2, o2).0;
    assert NonDecreasing([o1], o2.time);
    assert [o2, o1][1..] == [o1] && NonDecreasing([o2, o1], o1.time) && Run(s2, [o2, o1]) == [Nothing] + Run(s3, [o1]);
    assert [o1, o2, o1][1..] == [o2, o1] && NonDecreasing([o1, o2, o1], o0.time);
    assert [o0, o1, o2, o1][1..] == [o1, o2, o1];
  }
}
