/**
 The burst detector on clock readings that come late (internal/aggregator/pattern_detector.go). A query or a
 cleanup reads the clock before it takes the lock, so with overlapping calls it may act on a reading older
 than that of an operation before it. The machine is that of SlidingWindows; only the order of the events of
 each fingerprint is asked for.
 */
module LateReadings {
  import opened Basics
  import opened SlidingWindows

  // ------------------------------------------------------------------ what is gone

  /** The events of a fingerprint. */
  function Recorded(ops: seq<Op>, fp: string): seq<int> {
    if ops == [] then []
    else
      var (before, op) := (ops[..|ops| - 1], ops[|ops| - 1]);
      Recorded(before, fp) + if op.Record? && op.fp == fp then [op.time] else []
  }

  ghost predicate InOrder(ops: seq<Op>) {
    forall fp :: Sorted(Recorded(ops, fp))
  }

  predicate IsQuery(op: Op) {
    op.GetFrequency? || op.IsBursting? || op.IsRecurring?
  }

  function Max(a: nat, b: nat): nat {
    if a < b then b else a
  }

  /** The number of events before cutoff. */
  function Old(events: seq<int>, cutoff: int): (n: nat)
    ensures n <= |events|
  {
    |events| - CountSince(events, cutoff)
  }

  /** How many of its oldest events a fingerprint has lost from window w: the most that any operation found old. */
  function Gone(ops: seq<Op>, fp: string, w: Window): (n: nat)
    ensures n <= |Recorded(ops, fp)|
    decreases |ops|, 0
  {
    if ops == [] then 0
    else
      var (before, op) := (ops[..|ops| - 1], ops[|ops| - 1]);
      Max(Gone(before, fp, w), FoundOld(before, op, fp, w))
  }

  /** How many of the events so far an operation finds old: a cleanup all or none, a query those before its window. */
  function FoundOld(before: seq<Op>, op: Op, fp: string, w: Window): (n: nat)
    ensures n <= |Recorded(before, fp)|
    decreases |before|, 4
  {
    var all := Recorded(before, fp);
    match op
    case Record(_, _) => 0
    case Cleanup(now) => if all != [] && all[|all| - 1] < now - STALE then |all| else 0
    case _ => if op.fp == fp && Examines(before, op, w) then Old(all, op.time - w.Duration()) else 0
  }

  /** A burst query looks at one window, a recurrence query at the next one only while it sees events. */
  predicate Examines(before: seq<Op>, op: Op, w: Window)
    requires IsQuery(op)
    decreases |before|, 3
  {
    || w == M1 || op.GetFrequency?
    || (op.IsRecurring? && Shown(before, op.fp, M1, op.time) > 0 && (w == M5 || Shown(before, op.fp, M5, op.time) > 0))
  }

  /** Of all events, of which some are gone, those that window w does not show. */
  function LostOf(all: seq<int>, gone: nat, w: Window, now: int): (n: nat)
    ensures gone <= |all| ==> n <= |all|
  {
    Max(gone, Old(all, now - w.Duration()))
  }

  /** How many of its oldest events window w does not show: those that are gone and those too old for now. */
  function Lost(before: seq<Op>, fp: string, w: Window, now: int): (n: nat)
    ensures n <= |Recorded(before, fp)|
    decreases |before|, 1
  {
    LostOf(Recorded(before, fp), Gone(before, fp, w), w, now)
  }

  /** What window w shows. */
  function Shown(before: seq<Op>, fp: string, w: Window, now: int): nat
    decreases |before|, 2
  {
    |Recorded(before, fp)| - Lost(before, fp, w, now)
  }

  /** What a query answers when its windows show so many events. */
  function AnswerOf(op: Op, n1: nat, n5: nat, n15: nat): Observation
    requires IsQuery(op)
  {
    match op
    case GetFrequency(_, _) => Frequency([Report(M1, n1), Report(M5, n5), Report(M15, n15)])
    case IsBursting(_, threshold, _) => Answer(n1 > threshold)
    case IsRecurring(_, _) => Answer(n1 > 0 && n5 > 0 && n15 > 0)
  }

  /** What an operation answers after others, whatever their readings. */
  function Shows(before: seq<Op>, op: Op): Observation {
    if IsQuery(op)
    then AnswerOf(op, Shown(before, op.fp, M1, op.time), Shown(before, op.fp, M5, op.time),
                  Shown(before, op.fp, M15, op.time))
    else Nothing
  }

  // ------------------------------------------------------------------ one window

  lemma OldAt(all: seq<int>, k: nat, cutoff: int)
    requires Sorted(all) && k < |all|
    ensures k < Old(all, cutoff) <==> all[k] < cutoff
  {
    if all[k] < cutoff {
      assert all == all[..k + 1] + all[k + 1..];
      CountSinceConcat(all[..k + 1], all[k + 1..], cutoff);
      CountSinceNone(all[..k + 1], cutoff);
    } else {
      assert all == all[..k] + all[k..];
      CountSinceConcat(all[..k], all[k..], cutoff);
      CountSinceAll(all[k..], cutoff);
    }
  }

  /** Pruning what is left of a window drops exactly the old events that are still there. */
  lemma {:induction false} PrunedRest(all: seq<int>, gone: nat, cutoff: int)
    requires Sorted(all) && gone <= |all|
    ensures Pruned(all[gone..], cutoff) == all[Max(gone, Old(all, cutoff))..]
    decreases |all| - gone
  {
    hide Sorted;
    hide Old;
    if gone < |all| {
      OldAt(all, gone, cutoff);
      assert all[gone..][1..] == all[gone + 1..];
      if all[gone] < cutoff { PrunedRest(all, gone + 1, cutoff); }
    }
  }

  // ------------------------------------------------------------------ one fingerprint

  /** What the detector holds for a fingerprint: its events, in each window without those that are gone. */
  predicate Holds(held: Option<Tracked>, all: seq<int>, g1: nat, g5: nat, g15: nat) {
    && g1 <= |all| && g5 <= |all| && g15 <= |all|
    && match held
       case Some(t) => all != [] && t == Tracked(all[g1..], all[g5..], all[g15..], all[|all| - 1])
       case None => g1 == g5 == g15 == |all|
  }

  lemma RecordHolds(held: Option<Tracked>, all: seq<int>, g1: nat, g5: nat, g15: nat, time: int)
    requires Holds(held, all, g1, g5, g15)
    ensures Holds(Some(Append(if held.Some? then held.value else FRESH, time)), all + [time], g1, g5, g15)
  {
    assert (all + [time])[g1..] == all[g1..] + [time];
    assert (all + [time])[g5..] == all[g5..] + [time];
    assert (all + [time])[g15..] == all[g15..] + [time];
  }

  lemma PruneHolds(t: Tracked, all: seq<int>, g1: nat, g5: nat, g15: nat, w: Window, now: int)
    requires Holds(Some(t), all, g1, g5, g15) && Sorted(all)
    ensures Holds(Some(PruneOne(t, w, now)), all, if w == M1 then LostOf(all, g1, w, now) else g1,
                  if w == M5 then LostOf(all, g5, w, now) else g5, if w == M15 then LostOf(all, g15, w, now) else g15)
  {
    PrunedRest(all, if w == M1 then g1 else if w == M5 then g5 else g15, now - w.Duration());
    hide Pruned;
    hide Old;
    hide Sorted;
  }

  lemma HeldLengths(t: Tracked, all: seq<int>, g1: nat, g5: nat, g15: nat)
    requires Holds(Some(t), all, g1, g5, g15)
    ensures g1 <= |all| && g5 <= |all| && g15 <= |all|
    ensures |t.m1| == |all| - g1 && |t.m5| == |all| - g5 && |t.m15| == |all| - g15
  {
  }

  /** What a query makes of a fingerprint: how many events each window does not show, and which it prunes. */
  datatype View = View(p1: nat, p5: nat, p15: nat, at5: bool, at15: bool)

  predicate Views(v: View, all: seq<int>, g1: nat, g5: nat, g15: nat, op: Op)
    requires IsQuery(op)
  {
    && v.p1 == LostOf(all, g1, M1, op.time) <= |all|
    && v.p5 == LostOf(all, g5, M5, op.time) <= |all|
    && v.p15 == LostOf(all, g15, M15, op.time) <= |all|
    && (v.at5 <==> op.GetFrequency? || (op.IsRecurring? && |all| - v.p1 > 0))
    && (v.at15 <==> op.GetFrequency? || (op.IsRecurring? && |all| - v.p1 > 0 && |all| - v.p5 > 0))
  }

  /** The fingerprint after the query: only the windows it looked at are pruned. */
  predicate HoldsViewed(t: Tracked, v: View, all: seq<int>, g5: nat, g15: nat) {
    Holds(Some(t), all, v.p1, if v.at5 then v.p5 else g5, if v.at15 then v.p15 else g15)
  }

  function AnswerIn(v: View, all: seq<int>, op: Op): Observation
    requires IsQuery(op) && v.p1 <= |all| && v.p5 <= |all| && v.p15 <= |all|
  {
    AnswerOf(op, |all| - v.p1, |all| - v.p5, |all| - v.p15)
  }

  /** One query: what it prunes, window by window, and what it answers. */
  lemma LookHolds(t: Tracked, all: seq<int>, g1: nat, g5: nat, g15: nat, op: Op, v: View)
    requires IsQuery(op) && Holds(Some(t), all, g1, g5, g15) && Sorted(all) && Views(v, all, g1, g5, g15, op)
    ensures HoldsViewed(Look(t, op).0, v, all, g5, g15)
    ensures Look(t, op).1 == AnswerIn(v, all, op)
  {
    var now, p1, p5, p15 := op.time, v.p1, v.p5, v.p15;
    hide Holds;
    hide Sorted;
    hide LostOf;
    var t1 := PruneOne(t, M1, now);
    PruneHolds(t, all, g1, g5, g15, M1, now);
    var t5 := PruneOne(t1, M5, now);
    PruneHolds(t1, all, p1, g5, g15, M5, now);
    var t15 := PruneOne(t5, M15, now);
    PruneHolds(t5, all, p1, p5, g15, M15, now);
    HeldLengths(t15, all, p1, p5, p15);
    hide PruneOne;
    hide Report;
  }

  // ------------------------------------------------------------------ one operation

  lemma RecordedSnoc(before: seq<Op>, op: Op, fp: string)
    ensures Recorded(before + [op], fp)
         == Recorded(before, fp) + if op.Record? && op.fp == fp then [op.time] else []
  {
    var ops := before + [op];
    assert ops[..|ops| - 1] == before;
  }

  lemma GoneSnoc(before: seq<Op>, op: Op, fp: string)
    ensures forall w: Window :: Gone(before + [op], fp, w) == Max(Gone(before, fp, w), FoundOld(before, op, fp, w))
  {
    var ops := before + [op];
    assert ops[..|ops| - 1] == before;
    hide FoundOld;
  }

  predicate HeldGone(ops: seq<Op>, fp: string, held: Option<Tracked>) {
    Holds(held, Recorded(ops, fp), Gone(ops, fp, M1), Gone(ops, fp, M5), Gone(ops, fp, M15))
  }

  /** The detector holds what is recorded and not gone. */
  ghost predicate Remembers(s: State, ops: seq<Op>) {
    forall fp :: HeldGone(ops, fp, Held(s, fp))
  }

  lemma GoneAfterQuery(before: seq<Op>, op: Op, w: Window)
    requires IsQuery(op)
    ensures Gone(before + [op], op.fp, w)
         == if Examines(before, op, w) then Lost(before, op.fp, w, op.time) else Gone(before, op.fp, w)
  {
    GoneSnoc(before, op, op.fp);
    hide Recorded;
    hide Gone;
    hide Examines;
    hide Old;
  }

  function ViewOf(before: seq<Op>, op: Op): View
    requires IsQuery(op)
  {
    View(Lost(before, op.fp, M1, op.time), Lost(before, op.fp, M5, op.time), Lost(before, op.fp, M15, op.time),
         Examines(before, op, M5), Examines(before, op, M15))
  }

  lemma QueryViews(before: seq<Op>, op: Op)
    requires IsQuery(op)
    ensures Views(ViewOf(before, op), Recorded(before, op.fp), Gone(before, op.fp, M1), Gone(before, op.fp, M5),
                  Gone(before, op.fp, M15), op)
  {
    var (fp, now) := (op.fp, op.time);
    LostUnfolds(before, fp, M1, now);
    LostUnfolds(before, fp, M5, now);
    LostUnfolds(before, fp, M15, now);
    ExaminesWhen(before, op, fp, now);
    hide Recorded;
    hide Gone;
    hide Lost;
    hide Examines;
    hide LostOf;
  }

  lemma ExaminesWhen(before: seq<Op>, op: Op, fp: string, now: int)
    requires IsQuery(op) && op.fp == fp && op.time == now
    ensures var all := |Recorded(before, fp)|;
            var n1, n5 := all - Lost(before, fp, M1, now), all - Lost(before, fp, M5, now);
            && (Examines(before, op, M5) <==> op.GetFrequency? || (op.IsRecurring? && n1 > 0))
            && (Examines(before, op, M15) <==> op.GetFrequency? || (op.IsRecurring? && n1 > 0 && n5 > 0))
  {
    hide Recorded;
    hide Lost;
  }

  lemma ShowsView(before: seq<Op>, op: Op)
    requires IsQuery(op)
    ensures Shows(before, op) == AnswerIn(ViewOf(before, op), Recorded(before, op.fp), op)
  {
    hide Recorded;
    hide Lost;
    hide Examines;
    hide AnswerOf;
  }

  lemma QueryHolds(before: seq<Op>, op: Op, t: Tracked)
    requires IsQuery(op) && Sorted(Recorded(before, op.fp)) && HeldGone(before, op.fp, Some(t))
    ensures HoldsViewed(Look(t, op).0, ViewOf(before, op), Recorded(before, op.fp), Gone(before, op.fp, M5),
                        Gone(before, op.fp, M15))
    ensures Look(t, op).1 == Shows(before, op)
  {
    QueryViews(before, op);
    ShowsView(before, op);
    hide Recorded;
    hide Gone;
    hide ViewOf;
    hide Views;
    hide Shows;
    hide AnswerIn;
    hide HoldsViewed;
    hide Holds;
    hide Sorted;
    hide Look;
    LookHolds(t, Recorded(before, op.fp), Gone(before, op.fp, M1), Gone(before, op.fp, M5), Gone(before, op.fp, M15),
              op, ViewOf(before, op));
  }

  lemma LostUnfolds(before: seq<Op>, fp: string, w: Window, now: int)
    ensures Lost(before, fp, w, now) == LostOf(Recorded(before, fp), Gone(before, fp, w), w, now)
  {
  }

  lemma GoneIsViewed(before: seq<Op>, op: Op)
    requires IsQuery(op)
    ensures var (ops, v) := (before + [op], ViewOf(before, op));
            && Recorded(ops, op.fp) == Recorded(before, op.fp) && Gone(ops, op.fp, M1) == v.p1
            && Gone(ops, op.fp, M5) == (if v.at5 then v.p5 else Gone(before, op.fp, M5))
            && Gone(ops, op.fp, M15) == (if v.at15 then v.p15 else Gone(before, op.fp, M15))
  {
    RecordedSnoc(before, op, op.fp);
    assert Recorded(before, op.fp) + [] == Recorded(before, op.fp);
    GoneAfterQuery(before, op, M1);
    GoneAfterQuery(before, op, M5);
    GoneAfterQuery(before, op, M15);
    assert Examines(before, op, M1);
    hide Recorded;
    hide Gone;
    hide Lost;
    hide Examines;
  }

  lemma QueryRemembers(before: seq<Op>, op: Op, t: Tracked)
    requires IsQuery(op) && HeldGone(before, op.fp, Some(t)) && Sorted(Recorded(before, op.fp))
    ensures HeldGone(before + [op], op.fp, Some(Look(t, op).0))
    ensures Look(t, op).1 == Shows(before, op)
  {
    QueryHolds(before, op, t);
    GoneIsViewed(before, op);
    hide Recorded;
    hide Gone;
    hide ViewOf;
    hide Look;
    hide Shows;
    hide Sorted;
    hide Holds;
  }

  lemma AbsentShowsNothing(before: seq<Op>, op: Op)
    requires IsQuery(op) && HeldGone(before, op.fp, None)
    ensures HeldGone(before + [op], op.fp, None)
    ensures BurstThresholdCounts(op) ==> NothingTracked(op) == Shows(before, op)
  {
    QueryViews(before, op);
    ShowsView(before, op);
    GoneIsViewed(before, op);
    hide Recorded;
    hide Gone;
    hide ViewOf;
    hide Shows;
    hide Old;
    hide Report;
  }

  lemma OtherFingerprint(before: seq<Op>, op: Op, fp: string, held: Option<Tracked>)
    requires HeldGone(before, fp, held) && !op.Cleanup? && op.fp != fp
    ensures HeldGone(before + [op], fp, held)
  {
    RecordedSnoc(before, op, fp);
    GoneSnoc(before, op, fp);
    hide Recorded;
    hide Gone;
    hide Examines;
    hide Old;
    hide Holds;
    assert Recorded(before, fp) + [] == Recorded(before, fp);
  }

  lemma RecordRemembers(before: seq<Op>, fp: string, time: int, held: Option<Tracked>)
    requires HeldGone(before, fp, held)
    ensures HeldGone(before + [Record(fp, time)], fp, Some(Append(if held.Some? then held.value else FRESH, time)))
  {
    var op := Record(fp, time);
    RecordHolds(held, Recorded(before, fp), Gone(before, fp, M1), Gone(before, fp, M5), Gone(before, fp, M15), time);
    RecordedSnoc(before, op, fp);
    GoneSnoc(before, op, fp);
    hide Recorded;
    hide Gone;
    hide Holds;
  }

  lemma CleanupRemembers(before: seq<Op>, now: int, fp: string, held: Option<Tracked>)
    requires HeldGone(before, fp, held)
    ensures HeldGone(before + [Cleanup(now)], fp,
                     if held.Some? && held.value.lastSeen < now - STALE then None else held)
  {
    RecordedSnoc(before, Cleanup(now), fp);
    GoneSnoc(before, Cleanup(now), fp);
    hide Recorded;
    hide Gone;
    assert Recorded(before, fp) + [] == Recorded(before, fp);
  }

  /** One operation, whatever its reading. */
  lemma StepRemembers(s: State, before: seq<Op>, op: Op)
    requires Remembers(s, before) && InOrder(before)
    ensures Remembers(Step(s, op).0, before + [op])
    ensures BurstThresholdCounts(op) ==> Step(s, op).1 == Shows(before, op)
  {
    var s' := Step(s, op).0;
    hide HeldGone;
    forall fp
      ensures HeldGone(before + [op], fp, Held(s', fp))
    {
      assert HeldGone(before, fp, Held(s, fp));
      FingerprintRemembers(s, before, op, fp);
    }
    if IsQuery(op) {
      assert HeldGone(before, op.fp, Held(s, op.fp));
      if op.fp in s { QueryRemembers(before, op, s[op.fp]); } else { AbsentShowsNothing(before, op); }
    }
  }

  lemma FingerprintRemembers(s: State, before: seq<Op>, op: Op, fp: string)
    requires HeldGone(before, fp, Held(s, fp)) && InOrder(before)
    ensures HeldGone(before + [op], fp, Held(Step(s, op).0, fp))
  {
    hide HeldGone;
    hide Sorted;
    if op.Cleanup? {
      CleanupRemembers(before, op.time, fp, Held(s, fp));
    } else if op.fp != fp {
      OtherFingerprint(before, op, fp, Held(s, fp));
    } else if op.Record? {
      RecordRemembers(before, fp, op.time, Held(s, fp));
    } else if fp in s {
      QueryRemembers(before, op, s[fp]);
    } else {
      AbsentShowsNothing(before, op);
    }
  }

  // ------------------------------------------------------------------ whole runs

  lemma {:induction false} AfterSnoc(s: State, ops: seq<Op>, op: Op)
    ensures After(s, ops + [op]) == Step(After(s, ops), op).0
    decreases |ops|
  {
    hide Step;
    if ops == [] {
      assert [op][1..] == [];
    } else {
      assert (ops + [op])[1..] == ops[1..] + [op];
      AfterSnoc(Step(s, ops[0]).0, ops[1..], op);
    }
  }

  lemma {:induction false} Remembered(ops: seq<Op>)
    requires InOrder(ops)
    ensures Remembers(After(map[], ops), ops)
  {
    hide After;
    hide Step;
    if ops == [] {
      EmptyRemembers();
    } else {
      var (before, op) := (ops[..|ops| - 1], ops[|ops| - 1]);
      EarlierInOrder(ops, |ops| - 1);
      Remembered(before);
      hide InOrder;
      hide Remembers;
      StepRemembers(After(map[], before), before, op);
      AfterSnoc(map[], before, op);
      assert before + [op] == ops;
    }
  }

  lemma EmptyRemembers()
    ensures Remembers(After(map[], []), [])
  {
  }

  lemma {:induction false} RecordedGrows(ops: seq<Op>, i: nat, fp: string)
    requires i <= |ops|
    ensures Recorded(ops[..i], fp) <= Recorded(ops, fp)
    decreases |ops|
  {
    if i == |ops| {
      assert ops[..i] == ops;
    } else {
      assert ops[..|ops| - 1][..i] == ops[..i];
      RecordedGrows(ops[..|ops| - 1], i, fp);
    }
  }

  lemma EarlierInOrder(ops: seq<Op>, i: nat)
    requires InOrder(ops) && i <= |ops|
    ensures InOrder(ops[..i])
  {
    forall fp
      ensures Sorted(Recorded(ops[..i], fp))
    {
      RecordedGrows(ops, i, fp);
      assert Sorted(Recorded(ops, fp));
    }
  }

  lemma {:induction false} RunAt(s: State, ops: seq<Op>, i: nat)
    requires i < |ops|
    ensures Run(s, ops)[i] == Step(After(s, ops[..i]), ops[i]).1
    decreases |ops|
  {
    hide Step;
    if i > 0 {
      RunAt(Step(s, ops[0]).0, ops[1..], i - 1);
      assert ops[..i][1..] == ops[1..][..i - 1] && ops[..i][0] == ops[0];
    }
  }

  /**
   With clock readings in any order, the events of each fingerprint recorded in order: the exact answer of every
   operation. A window shows the recorded events except the old ones at the operation's own reading and those
   that an earlier operation, perhaps on a later reading, has found old.
   */
  lemma LateReadingsExactly(ops: seq<Op>, i: nat)
    requires InOrder(ops) && i < |ops| && BurstThresholdCounts(ops[i])
    ensures Run(map[], ops)[i] == Shows(ops[..i], ops[i])
  {
    EarlierInOrder(ops, i);
    hide InOrder;
    hide Remembers;
    hide Shows;
    RunAt(map[], ops, i);
    Remembered(ops[..i]);
    StepRemembers(After(map[], ops[..i]), ops[..i], ops[i]);
  }

  // ------------------------------------------------------------------ against the full history

  lemma {:induction false} HistoryIsRecorded(ops: seq<Op>, fp: string)
    ensures Events(IdealAfter(map[], ops), fp) == Recorded(ops, fp)
  {
    if ops != [] {
      var (before, op) := (ops[..|ops| - 1], ops[|ops| - 1]);
      HistoryIsRecorded(before, fp);
      IdealAfterSnoc(map[], before, op);
      assert before + [op] == ops;
      hide IdealAfter;
    }
  }

  lemma {:induction false} IdealAfterSnoc(h: History, ops: seq<Op>, op: Op)
    ensures IdealAfter(h, ops + [op]) == IdealStep(IdealAfter(h, ops), op).0
    decreases |ops|
  {
    hide IdealStep;
    if ops == [] {
      assert [op][1..] == [];
    } else {
      assert (ops + [op])[1..] == ops[1..] + [op];
      IdealAfterSnoc(IdealStep(h, ops[0]).0, ops[1..], op);
    }
  }

  ghost predicate ReadBy(ops: seq<Op>, latest: int) {
    forall k :: 0 <= k < |ops| ==> ops[k].time <= latest
  }

  lemma OldGrows(all: seq<int>, more: seq<int>, early: int, late: int)
    requires early <= late
    ensures Old(all, early) <= Old(all + more, late)
  {
    CountSinceConcat(all, more, late);
    CountSinceMonotone(all, early, late);
  }

  lemma StaleAllOld(all: seq<int>, w: Window, now: int)
    requires Sorted(all) && all != [] && all[|all| - 1] < now - STALE
    ensures Old(all, now - w.Duration()) == |all|
  {
    CountSinceNone(all, now - w.Duration());
  }

  /** What is gone was too old at some earlier reading, so it is too old at the latest. */
  lemma {:induction false} GoneIsOld(ops: seq<Op>, fp: string, w: Window, latest: int)
    requires Sorted(Recorded(ops, fp)) && ReadBy(ops, latest)
    ensures Gone(ops, fp, w) <= Old(Recorded(ops, fp), latest - w.Duration())
  {
    if ops != [] {
      var (before, op) := (ops[..|ops| - 1], ops[|ops| - 1]);
      var all := Recorded(before, fp);
      RecordedGrows(ops, |ops| - 1, fp);
      GoneIsOld(before, fp, w, latest);
      FoundOldIsOld(before, op, fp, w, latest);
      var more := if op.Record? && op.fp == fp then [op.time] else [];
      OldGrows(all, more, latest - w.Duration(), latest - w.Duration());
      hide Old;
      hide FoundOld;
    }
  }

  lemma FoundOldIsOld(before: seq<Op>, op: Op, fp: string, w: Window, latest: int)
    requires Sorted(Recorded(before, fp)) && op.time <= latest
    ensures FoundOld(before, op, fp, w) <= Old(Recorded(before, fp), latest - w.Duration())
  {
    var all := Recorded(before, fp);
    OldGrows(all, [], op.time - w.Duration(), latest - w.Duration());
    assert all + [] == all;
    if op.Cleanup? && all != [] && all[|all| - 1] < op.time - STALE { StaleAllOld(all, w, latest); }
    hide Old;
    hide Examines;
  }

  /** A window shows at least what is recent at the latest reading, and at most what is recent at this one. */
  lemma ShownBetween(before: seq<Op>, fp: string, w: Window, now: int, latest: int)
    requires Sorted(Recorded(before, fp)) && ReadBy(before, latest) && now <= latest
    ensures var h := IdealAfter(map[], before);
            CountIn(h, fp, w, latest) <= Shown(before, fp, w, now) <= CountIn(h, fp, w, now)
  {
    GoneIsOld(before, fp, w, latest);
    HistoryIsRecorded(before, fp);
    CountSinceMonotone(Recorded(before, fp), now - w.Duration(), latest - w.Duration());
    hide IdealAfter;
    hide Recorded;
    hide Gone;
  }

  /** It shows all that is recent now iff what is gone is too old now as well. */
  lemma ShownIsFull(before: seq<Op>, fp: string, w: Window, now: int)
    ensures Shown(before, fp, w, now) == CountIn(IdealAfter(map[], before), fp, w, now)
       <==> DroppedIsOld(before, fp, w, now)
  {
    HistoryIsRecorded(before, fp);
    hide IdealAfter;
    hide Recorded;
    hide Gone;
  }

  /** What an operation answers lies between what full history gives at latest and at its own reading. */
  predicate Between(seen: Observation, h: History, op: Op, latest: int) {
    match op
    case GetFrequency(fp, now) =>
      seen.Frequency? && |seen.windows| == 3
      && ReportBetween(seen.windows[0], h, fp, M1, latest, now)
      && ReportBetween(seen.windows[1], h, fp, M5, latest, now)
      && ReportBetween(seen.windows[2], h, fp, M15, latest, now)
    case IsBursting(fp, threshold, now) =>
      seen.Answer? && (CountIn(h, fp, M1, latest) > threshold ==> seen.yes)
      && (seen.yes ==> CountIn(h, fp, M1, now) > threshold)
    case IsRecurring(fp, now) =>
      seen.Answer? && ((forall w: Window :: CountIn(h, fp, w, latest) > 0) ==> seen.yes)
      && (seen.yes ==> forall w: Window :: CountIn(h, fp, w, now) > 0)
    case _ => seen == Nothing
  }

  predicate ReportBetween(p: PatternWindow, h: History, fp: string, w: Window, latest: int, now: int) {
    p == Report(w, p.count) && CountIn(h, fp, w, latest) <= p.count <= CountIn(h, fp, w, now)
  }

  lemma ShowsBetween(before: seq<Op>, op: Op, latest: int)
    requires InOrder(before) && ReadBy(before, latest) && op.time <= latest
    ensures Between(Shows(before, op), IdealAfter(map[], before), op, latest)
  {
    if IsQuery(op) {
      var h, fp, now := IdealAfter(map[], before), op.fp, op.time;
      ShownBetween(before, fp, M1, now, latest);
      ShownBetween(before, fp, M5, now, latest);
      ShownBetween(before, fp, M15, now, latest);
      hide *;
      AnswerBetween(before, h, op, fp, now, latest);
    }
  }

  lemma AnswerBetween(before: seq<Op>, h: History, op: Op, fp: string, now: int, latest: int)
    requires IsQuery(op) && op.fp == fp && op.time == now
    requires CountIn(h, fp, M1, latest) <= Shown(before, fp, M1, now) <= CountIn(h, fp, M1, now)
    requires CountIn(h, fp, M5, latest) <= Shown(before, fp, M5, now) <= CountIn(h, fp, M5, now)
    requires CountIn(h, fp, M15, latest) <= Shown(before, fp, M15, now) <= CountIn(h, fp, M15, now)
    ensures Between(Shows(before, op), h, op, latest)
  {
    hide Shown;
    hide CountIn;
    if op.IsRecurring? && Shows(before, op).yes { AllWindows(h, fp, now); }
    hide Report;
  }

  lemma AllWindows(h: History, fp: string, now: int)
    requires CountIn(h, fp, M1, now) > 0 && CountIn(h, fp, M5, now) > 0 && CountIn(h, fp, M15, now) > 0
    ensures forall w: Window :: CountIn(h, fp, w, now) > 0
  {
    hide CountIn;
    forall w: Window
      ensures CountIn(h, fp, w, now) > 0
    {
      match w
      case M1 =>
      case M5 =>
      case M15 =>
    }
  }

  /**
   A late reading never overcounts: every answer lies between the one full history gives at any time that no
   reading so far exceeds and the one it gives at the operation's own reading. So an operation whose reading is the
   latest so far answers exactly what full history shows.
   */
  lemma LateReadingsNeverOvercount(ops: seq<Op>, i: nat, latest: int)
    requires InOrder(ops) && i < |ops| && BurstThresholdCounts(ops[i]) && ReadBy(ops[..i + 1], latest)
    ensures var h := IdealAfter(map[], ops[..i]);
            && Between(Run(map[], ops)[i], h, ops[i], latest)
            && (latest == ops[i].time ==> Run(map[], ops)[i] == IdealStep(h, ops[i]).1)
  {
    ReadByThen(ops, i, latest);
    LateReadingsExactly(ops, i);
    EarlierInOrder(ops, i);
    hide *;
    ShowsBetween(ops[..i], ops[i], latest);
    if latest == ops[i].time { LatestIsExact(Run(map[], ops)[i], IdealAfter(map[], ops[..i]), ops[i]); }
  }

  lemma ReadByThen(ops: seq<Op>, i: nat, latest: int)
    requires i < |ops| && ReadBy(ops[..i + 1], latest)
    ensures ReadBy(ops[..i], latest) && ops[i].time <= latest
  {
    assert forall k :: 0 <= k <= i ==> ops[..i + 1][k] == ops[k];
  }

  lemma LatestIsExact(seen: Observation, h: History, op: Op)
    requires Between(seen, h, op, op.time)
    ensures seen == IdealStep(h, op).1
  {
    hide CountIn;
    hide Report;
  }

  /** Whatever earlier operations have dropped from the window is too old now as well. */
  predicate DroppedIsOld(before: seq<Op>, fp: string, w: Window, now: int) {
    Gone(before, fp, w) <= Old(Recorded(before, fp), now - w.Duration())
  }

  /**
   A frequency report is the one of full history exactly when, in every window, whatever earlier operations on later
   readings have dropped is too old at its own reading as well.
   */
  lemma LateFrequencyIsFull(ops: seq<Op>, i: nat)
    requires InOrder(ops) && i < |ops| && ops[i].GetFrequency?
    ensures Run(map[], ops)[i] == IdealStep(IdealAfter(map[], ops[..i]), ops[i]).1
       <==> forall w: Window :: DroppedIsOld(ops[..i], ops[i].fp, w, ops[i].time)
  {
    var (before, fp, now) := (ops[..i], ops[i].fp, ops[i].time);
    var h := IdealAfter(map[], before);
    LateReadingsExactly(ops, i);
    ShownIsFull(before, fp, M1, now);
    ShownIsFull(before, fp, M5, now);
    ShownIsFull(before, fp, M15, now);
    EveryWindow(before, fp, now);
    assert ops[i] == GetFrequency(fp, now);
    hide *;
    SameFrequency(before, h, fp, now);
  }

  lemma SameFrequency(before: seq<Op>, h: History, fp: string, now: int)
    ensures Shows(before, GetFrequency(fp, now)) == IdealStep(h, GetFrequency(fp, now)).1
       <==> && Shown(before, fp, M1, now) == CountIn(h, fp, M1, now)
            && Shown(before, fp, M5, now) == CountIn(h, fp, M5, now)
            && Shown(before, fp, M15, now) == CountIn(h, fp, M15, now)
  {
    hide Shown;
    hide CountIn;
    var seen, ideal := Shows(before, GetFrequency(fp, now)).windows, IdealStep(h, GetFrequency(fp, now)).1.windows;
    assert seen == ideal ==> seen[0] == ideal[0] && seen[1] == ideal[1] && seen[2] == ideal[2];
  }

  lemma EveryWindow(before: seq<Op>, fp: string, now: int)
    ensures (forall w: Window :: DroppedIsOld(before, fp, w, now)) <==>
              DroppedIsOld(before, fp, M1, now) && DroppedIsOld(before, fp, M5, now)
              && DroppedIsOld(before, fp, M15, now)
  {
    hide DroppedIsOld;
    if DroppedIsOld(before, fp, M1, now) && DroppedIsOld(before, fp, M5, now) && DroppedIsOld(before, fp, M15, now) {
      forall w: Window
        ensures DroppedIsOld(before, fp, w, now)
      {
        match w
        case M1 =>
        case M5 =>
        case M15 =>
      }
    }
  }

  /** A late reading can undercount: another query has already pruned what it would still see. */
  lemma LateReadingCanUndercount(fp: string)
    ensures var ops := [Record(fp, 0), IsBursting(fp, 0, MINUTE + 1), IsBursting(fp, 0, MINUTE)];
            && Run(map[], ops)[2] == Answer(false)
            && IdealStep(IdealAfter(map[], ops[..2]), ops[2]).1 == Answer(true)
  {
    var o0, o1, o2 := Record(fp, 0), IsBursting(fp, 0, MINUTE + 1), IsBursting(fp, 0, MINUTE);
    var s1 := Step(map[], o0).0;
    assert s1[fp] == Tracked([0], [0], [0], 0);
    assert Pruned([0], MINUTE + 1 - MINUTE) == [];
    var s2 := Step(s1, o1).0;
    assert s2[fp].m1 == [] && Step(s2, o2).1 == Answer(false);
    var h := IdealStep(map[], o0).0;
    assert h[fp] == [0] && CountSince([0], 0) == 1;
    assert IdealStep(h, o2).1 == Answer(true) && IdealStep(h, o1).0 == h;
    RunThree(o0, o1, o2);
  }

  lemma RunThree(o0: Op, o1: Op, o2: Op)
    ensures var s1 := Step(map[], o0).0; Run(map[], [o0, o1, o2])[2] == Step(Step(s1, o1).0, o2).1
    ensures IdealAfter(map[], [o0, o1, o2][..2]) == IdealStep(IdealStep(map[], o0).0, o1).0
  {
    hide Step;
    hide IdealStep;
    assert [o0, o1, o2][1..] == [o1, o2] && [o1, o2][1..] == [o2];
    assert [o0, o1, o2][..2] == [o0, o1] && [o0, o1][1..] == [o1] && [o1][1..] == [];
    var s1, h1 := Step(map[], o0).0, IdealStep(map[], o0).0;
    assert Run(s1, [o1, o2]) == [Step(s1, o1).1] + Run(Step(s1, o1).0, [o2]);
    assert IdealAfter(h1, [o1]) == IdealStep(h1, o1).0;
  }
}
