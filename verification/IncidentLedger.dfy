/**
 What the incident store records (internal/aggregator/incident_store.go), as a state machine over
 values, and its bookkeeping over whole runs. The class with the source's objects is in IncidentStore.
 */
module IncidentLedger {
  import opened Basics
  import opened IncidentNames

  /** AnalysisResultData */
  datatype Analysis = Analysis(rootCause: string, confidence: real, impact: string, severity: string,
                               actions: seq<string>, runbooks: seq<string>, source: string, tokensUsed: int)

  /** FrequencyWindows; a window without an entry has no times. */
  datatype Frequency = Frequency(m1: seq<int>, m5: seq<int>, m15: seq<int>)

  const NO_TIMES := Frequency([], [], [])

  /** IncidentRecord */
  datatype Record = Record(fingerprint: string, pattern: string, sample: string, namespace: string, policy: string,
                           count: int, pods: set<string>, firstSeen: int, lastSeen: int, severity: string,
                           resolved: bool, crdName: string, windows: Frequency, analysis: Option<Analysis>)

  type State = map<string, Record>

  datatype Op =
    | Event(namespace: string, policy: string, fp: string, pattern: string, sample: string, pod: string, now: int)
    | GetOrCreate(fp: string, now: int)
    | Analysed(fp: string, severity: string, analysis: Option<Analysis>)
    | Synced(fp: string)  // syncRecord caches the object name in the live record, whatever its writes do

  /** The operations that start a record for a fingerprint without one. */
  predicate Creates(op: Op) {
    op.Event? || op.GetOrCreate?
  }

  // ------------------------------------------------------------------ the operations

  function NewRecord(op: Op): Record
    requires op.Event?
  {
    Record(op.fp, op.pattern, op.sample, op.namespace, op.policy, 0, {}, op.now, op.now, "low", false, "", NO_TIMES,
           None)
  }

  function Placeholder(fp: string, now: int): Record {
    Record(fp, "", "", "", "", 0, {}, now, now, "", false, "", NO_TIMES, None)
  }

  /** The dynamic fields that every event updates. */
  function Counted(r: Record, pod: string, now: int): Record {
    r.(count := r.count + 1, lastSeen := now, pods := if pod != "" then r.pods + {pod} else r.pods,
       windows := Frequency(r.windows.m1 + [now], r.windows.m5 + [now], r.windows.m15 + [now]))
  }

  function WithAnalysis(r: Record, severity: string, analysis: Analysis): Record {
    r.(severity := if severity != "" then severity else r.severity, analysis := Some(analysis))
  }

  /** Syncing fixes the object name of a record that has none. */
  function Named(r: Record, lower: char -> char): Record {
    if r.crdName == "" then r.(crdName := CrdName(r.pattern, r.fingerprint, lower)) else r
  }

  /** lower stands for strings.ToLower, which object names are derived with. */
  function Step(s: State, op: Op, lower: char -> char): State {
    match op
    case Event(_, _, fp, _, _, pod, now) => s[fp := Counted(if fp in s then s[fp] else NewRecord(op), pod, now)]
    case GetOrCreate(fp, now) => if fp in s then s else s[fp := Placeholder(fp, now)]
    case Analysed(fp, severity, analysis) =>
      if analysis.None? || fp !in s then s else s[fp := WithAnalysis(s[fp], severity, analysis.value)]
    case Synced(fp) => if fp in s then s[fp := Named(s[fp], lower)] else s
  }

  /** The second result of RecordEvent. */
  predicate IsNew(s: State, op: Op) {
    op.Event? && op.fp !in s
  }

  function After(s: State, ops: seq<Op>, lower: char -> char): State {
    if ops == [] then s else Step(After(s, ops[..|ops| - 1], lower), ops[|ops| - 1], lower)
  }

  // ------------------------------------------------------------------ bookkeeping over runs

  /** The events of a fingerprint, in order. */
  function EventsOf(ops: seq<Op>, fp: string): (r: seq<Op>)
    ensures forall e :: e in r ==> e.Event? && e.fp == fp
    ensures |r| <= |ops|
  {
    if ops == [] then []
    else
      var n := |ops| - 1;
      EventsOf(ops[..n], fp) + if ops[n].Event? && ops[n].fp == fp then [ops[n]] else []
  }

  function TimesOf(events: seq<Op>): seq<int>
    requires forall e :: e in events ==> e.Event?
  {
    seq(|events|, i requires 0 <= i < |events| => events[i].now)
  }

  function PodsOf(events: seq<Op>): set<string>
    requires forall e :: e in events ==> e.Event?
  {
    set e | e in events && e.pod != "" :: e.pod
  }

  /** The first operation of a run that creates a record for fp, if any. */
  function Creator(s: State, ops: seq<Op>, fp: string): (r: Option<Op>)
    ensures r.Some? ==> Creates(r.value) && r.value.fp == fp
    ensures r.Some? ==> fp !in s
  {
    if fp in s || ops == [] then None
    else
      var n := |ops| - 1;
      var before := Creator(s, ops[..n], fp);
      if before.Some? then before
      else if Creates(ops[n]) && ops[n].fp == fp then Some(ops[n])
      else None
  }

  /** The record a fingerprint starts from: the loaded one, or the one its first operation creates. */
  function Start(s: State, ops: seq<Op>, fp: string): Option<Record> {
    if fp in s then Some(s[fp])
    else match Creator(s, ops, fp)
      case None => None
      case Some(op) => Some(if op.Event? then NewRecord(op) else Placeholder(fp, op.now))
  }

  /** What a run leaves in a record: the events add up; identity and first-seen time never change. */
  predicate AccountsFor(r: Record, start: Record, events: seq<Op>)
    requires forall e :: e in events ==> e.Event?
  {
    var times := TimesOf(events);
    && r.count == start.count + |events|
    && r.pods == start.pods + PodsOf(events)
    && r.windows == Frequency(start.windows.m1 + times, start.windows.m5 + times, start.windows.m15 + times)
    && r.lastSeen == (if events == [] then start.lastSeen else events[|events| - 1].now)
    && r.fingerprint == start.fingerprint && r.pattern == start.pattern && r.sample == start.sample
    && r.namespace == start.namespace && r.policy == start.policy
    && r.firstSeen == start.firstSeen && r.resolved == start.resolved
  }

  lemma CountedAccounts(r: Record, start: Record, events: seq<Op>, e: Op)
    requires (forall x :: x in events ==> x.Event?) && e.Event? && AccountsFor(r, start, events)
    ensures AccountsFor(Counted(r, e.pod, e.now), start, events + [e])
  {
    assert TimesOf(events + [e]) == TimesOf(events) + [e.now];
    assert PodsOf(events + [e]) == PodsOf(events) + if e.pod != "" then {e.pod} else {};
    var t := TimesOf(events);
    assert forall w: seq<int> :: (w + t) + [e.now] == w + (t + [e.now]);
  }

  lemma NothingAccounts(start: Record)
    ensures AccountsFor(start, start, [])
  {
    assert TimesOf([]) == [] && PodsOf([]) == {};
  }

  /** A record exists iff it was loaded or created, and accounts for exactly the events of its fingerprint. */
  lemma {:induction false} EventAccounting(s: State, ops: seq<Op>, fp: string, lower: char -> char)
    ensures fp in After(s, ops, lower) <==> Start(s, ops, fp).Some?
    ensures fp in After(s, ops, lower) ==>
              AccountsFor(After(s, ops, lower)[fp], Start(s, ops, fp).value, EventsOf(ops, fp))
    ensures fp !in After(s, ops, lower) ==> EventsOf(ops, fp) == []
  {
    if ops == [] {
      if fp in s { NothingAccounts(s[fp]); }
    } else {
      var n := |ops| - 1;
      EventAccounting(s, ops[..n], fp, lower);
      AccountingStep(s, ops, fp, lower);
    }
  }

  lemma AccountingStep(s: State, ops: seq<Op>, fp: string, lower: char -> char)
    requires ops != []
    requires var before := ops[..|ops| - 1];
             && (fp in After(s, before, lower) <==> Start(s, before, fp).Some?)
             && (fp in After(s, before, lower) ==>
                   AccountsFor(After(s, before, lower)[fp], Start(s, before, fp).value, EventsOf(before, fp)))
             && (fp !in After(s, before, lower) ==> EventsOf(before, fp) == [])
    ensures fp in After(s, ops, lower) <==> Start(s, ops, fp).Some?
    ensures fp in After(s, ops, lower) ==>
              AccountsFor(After(s, ops, lower)[fp], Start(s, ops, fp).value, EventsOf(ops, fp))
    ensures fp !in After(s, ops, lower) ==> EventsOf(ops, fp) == []
  {
    var before, op := ops[..|ops| - 1], ops[|ops| - 1];
    var prior, events := After(s, before, lower), EventsOf(before, fp);
    assert After(s, ops, lower) == Step(prior, op, lower);
    assert EventsOf(ops, fp) == events + if op.Event? && op.fp == fp then [op] else [];
    StartUnfolds(s, ops, fp);
    hide *;
    assert events + [] == events;
    if fp in prior {
      KnownStep(prior, op, fp, Start(s, before, fp).value, events, lower);
    } else {
      FreshStep(prior, op, fp, lower);
      assert [] + [op] == [op];
    }
  }

  /** What a run starts from is settled by the first operation that creates it. */
  lemma StartUnfolds(s: State, ops: seq<Op>, fp: string)
    requires ops != []
    ensures var (before, op) := (Start(s, ops[..|ops| - 1], fp), ops[|ops| - 1]);
            Start(s, ops, fp) ==
            if before.Some? then before
            else if op.Event? && op.fp == fp then Some(NewRecord(op))
            else if op.GetOrCreate? && op.fp == fp then Some(Placeholder(fp, op.now))
            else None
  {
    hide NewRecord;
    hide Placeholder;
  }

  lemma KnownStep(s: State, op: Op, fp: string, start: Record, events: seq<Op>, lower: char -> char)
    requires (forall x :: x in events ==> x.Event?) && fp in s && AccountsFor(s[fp], start, events)
    ensures var mine := if op.Event? && op.fp == fp then [op] else [];
            fp in Step(s, op, lower) && AccountsFor(Step(s, op, lower)[fp], start, events + mine)
  {
    if op.Event? && op.fp == fp {
      CountedAccounts(s[fp], start, events, op);
    } else {
      assert events + [] == events;
    }
  }

  lemma FreshStep(s: State, op: Op, fp: string, lower: char -> char)
    requires fp !in s
    ensures fp in Step(s, op, lower) <==> op.fp == fp && (op.Event? || op.GetOrCreate?)
    ensures fp in Step(s, op, lower) ==>
              if op.Event? then AccountsFor(Step(s, op, lower)[fp], NewRecord(op), [op])
              else AccountsFor(Step(s, op, lower)[fp], Placeholder(fp, op.now), [])
  {
    if op.Event? && op.fp == fp {
      NothingAccounts(NewRecord(op));
      CountedAccounts(NewRecord(op), NewRecord(op), [], op);
      assert [] + [op] == [op];
    } else if op.GetOrCreate? && op.fp == fp {
      NothingAccounts(Placeholder(fp, op.now));
    }
  }

  /** A sync has come upon a record of fp. */
  predicate WasSynced(s: State, ops: seq<Op>, fp: string, lower: char -> char) {
    exists j :: 0 <= j < |ops| && ops[j] == Synced(fp) && fp in After(s, ops[..j], lower)
  }

  /** The object name of a record: the one it started with or, once synced, the one its pattern gives. */
  function NameOnceSynced(start: Record, synced: bool, lower: char -> char): string {
    if start.crdName == "" && synced then CrdName(start.pattern, start.fingerprint, lower) else start.crdName
  }

  lemma {:induction false} NameAccounting(s: State, ops: seq<Op>, fp: string, lower: char -> char)
    requires fp in After(s, ops, lower)
    ensures Start(s, ops, fp).Some?
    ensures After(s, ops, lower)[fp].crdName
            == NameOnceSynced(Start(s, ops, fp).value, WasSynced(s, ops, fp, lower), lower)
  {
    EventAccounting(s, ops, fp, lower);
    if ops != [] {
      var n := |ops| - 1;
      EventAccounting(s, ops[..n], fp, lower);
      WasSyncedUnfolds(s, ops, fp, lower);
      assert After(s, ops, lower) == Step(After(s, ops[..n], lower), ops[n], lower);
      if fp in After(s, ops[..n], lower) {
        NameAccounting(s, ops[..n], fp, lower);
        StartUnfolds(s, ops, fp);
        hide After;
        hide Start;
        hide WasSynced;
        hide AccountsFor;
        NameStep(After(s, ops[..n], lower), ops[n], fp, lower);
      } else {
        NothingToSync(s, ops[..n], fp, lower);
      }
    }
  }

  lemma WasSyncedUnfolds(s: State, ops: seq<Op>, fp: string, lower: char -> char)
    requires ops != []
    ensures var (n, before) := (|ops| - 1, ops[..|ops| - 1]);
            WasSynced(s, ops, fp, lower)
            <==> WasSynced(s, before, fp, lower) || (ops[n] == Synced(fp) && fp in After(s, before, lower))
  {
    hide After;
    var n := |ops| - 1;
    assert forall j :: 0 <= j < n ==> ops[..n][..j] == ops[..j] && ops[..n][j] == ops[j];
  }

  lemma NameStep(s: State, op: Op, fp: string, lower: char -> char)
    requires fp in s
    ensures fp in Step(s, op, lower)
    ensures Step(s, op, lower)[fp].crdName == if op == Synced(fp) then Named(s[fp], lower).crdName else s[fp].crdName
  {
  }

  /** Before a record exists no sync has come upon it. */
  lemma {:induction false} NothingToSync(s: State, ops: seq<Op>, fp: string, lower: char -> char)
    requires fp !in After(s, ops, lower)
    ensures !WasSynced(s, ops, fp, lower)
  {
    if ops != [] {
      var n := |ops| - 1;
      WasSyncedUnfolds(s, ops, fp, lower);
      hide WasSynced;
      assert After(s, ops, lower) == Step(After(s, ops[..n], lower), ops[n], lower);
      NothingToSync(s, ops[..n], fp, lower);
    }
  }

  /** Operation j attaches an analysis to a record of fp. */
  predicate AnalysedAt(s: State, ops: seq<Op>, j: nat, fp: string, lower: char -> char)
    requires j < |ops|
  {
    ops[j].Analysed? && ops[j].fp == fp && ops[j].analysis.Some? && fp in After(s, ops[..j], lower)
  }

  /** ... and sets its severity. */
  predicate RatedAt(s: State, ops: seq<Op>, j: nat, fp: string, lower: char -> char)
    requires j < |ops|
  {
    AnalysedAt(s, ops, j, fp, lower) && ops[j].severity != ""
  }

  /** The latest operation that attached an analysis to the record of fp, or only those that also rated it. */
  function LatestAnalysis(s: State, ops: seq<Op>, fp: string, rated: bool, lower: char -> char): (r: Option<nat>)
    ensures r.Some? ==> r.value < |ops|
  {
    if ops == [] then None
    else
      var n := |ops| - 1;
      if AnalysedAt(s, ops, n, fp, lower) && (rated ==> ops[n].severity != "") then Some(n)
      else LatestAnalysis(s, ops[..n], fp, rated, lower)
  }

  lemma {:induction false} LatestAnalysisIsLatest(s: State, ops: seq<Op>, fp: string, rated: bool, lower: char -> char)
    ensures var r := LatestAnalysis(s, ops, fp, rated, lower);
            && (r.Some? ==> AnalysedAt(s, ops, r.value, fp, lower) && (rated ==> ops[r.value].severity != ""))
            && forall k :: (if r.Some? then r.value + 1 else 0) <= k < |ops| ==>
                 !(AnalysedAt(s, ops, k, fp, lower) && (rated ==> ops[k].severity != ""))
  {
    hide After;
    if ops != [] {
      var n := |ops| - 1;
      LatestAnalysisIsLatest(s, ops[..n], fp, rated, lower);
      assert forall k :: 0 <= k < n ==> ops[..n][..k] == ops[..k] && ops[..n][k] == ops[k];
    }
  }

  /** The analysis and the severity a record has are those of the latest operations that set them. */
  predicate AnalysisIsLatest(r: Record, start: Record, ops: seq<Op>, analysed: Option<nat>, rated: Option<nat>)
    requires (analysed.Some? ==> analysed.value < |ops| && ops[analysed.value].Analysed?)
    requires (rated.Some? ==> rated.value < |ops| && ops[rated.value].Analysed?)
  {
    && r.analysis == (if analysed.Some? then ops[analysed.value].analysis else start.analysis)
    && r.severity == (if rated.Some? then ops[rated.value].severity else start.severity)
  }

  lemma {:induction false} AnalysisAccounting(s: State, ops: seq<Op>, fp: string, lower: char -> char)
    requires fp in After(s, ops, lower)
    ensures Start(s, ops, fp).Some?
    ensures var (a, b) := (LatestAnalysis(s, ops, fp, false, lower), LatestAnalysis(s, ops, fp, true, lower));
            && (a.Some? ==> AnalysedAt(s, ops, a.value, fp, lower)) && (b.Some? ==> RatedAt(s, ops, b.value, fp, lower))
            && AnalysisIsLatest(After(s, ops, lower)[fp], Start(s, ops, fp).value, ops, a, b)
  {
    EventAccounting(s, ops, fp, lower);
    LatestAnalysisIsLatest(s, ops, fp, false, lower);
    LatestAnalysisIsLatest(s, ops, fp, true, lower);
    if ops != [] {
      var n := |ops| - 1;
      assert After(s, ops, lower) == Step(After(s, ops[..n], lower), ops[n], lower);
      StartUnfolds(s, ops, fp);
      if fp in After(s, ops[..n], lower) {
        AnalysisAccounting(s, ops[..n], fp, lower);
        LatestUnfolds(s, ops, fp, lower);
        hide LatestAnalysis;
        hide AnalysedAt;
        hide After;
        hide Start;
        AnalysisStep(After(s, ops[..n], lower), ops[n], fp, lower);
      } else {
        NothingAnalysed(s, ops[..n], fp, lower);
        LatestUnfolds(s, ops, fp, lower);
        hide LatestAnalysis;
        hide After;
        EventAccounting(s, ops[..n], fp, lower);
        hide Start;
      }
    }
  }

  lemma LatestUnfolds(s: State, ops: seq<Op>, fp: string, lower: char -> char)
    requires ops != []
    ensures var (n, op) := (|ops| - 1, ops[|ops| - 1]);
            var applies := op.Analysed? && op.fp == fp && op.analysis.Some? && fp in After(s, ops[..n], lower);
            && LatestAnalysis(s, ops, fp, false, lower)
               == (if applies then Some(n) else LatestAnalysis(s, ops[..n], fp, false, lower))
            && LatestAnalysis(s, ops, fp, true, lower)
               == (if applies && op.severity != "" then Some(n) else LatestAnalysis(s, ops[..n], fp, true, lower))
  {
    hide After;
  }

  lemma AnalysisStep(s: State, op: Op, fp: string, lower: char -> char)
    requires fp in s
    ensures fp in Step(s, op, lower)
    ensures var r := Step(s, op, lower)[fp];
            if op.Analysed? && op.fp == fp && op.analysis.Some?
            then r.analysis == op.analysis && r.severity == if op.severity != "" then op.severity else s[fp].severity
            else r.analysis == s[fp].analysis && r.severity == s[fp].severity
  {
  }

  /** Before a record exists nothing is attached to it. */
  lemma {:induction false} NothingAnalysed(s: State, ops: seq<Op>, fp: string, lower: char -> char)
    requires fp !in After(s, ops, lower)
    ensures LatestAnalysis(s, ops, fp, false, lower) == LatestAnalysis(s, ops, fp, true, lower) == None
  {
    if ops != [] {
      var n := |ops| - 1;
      assert After(s, ops, lower) == Step(After(s, ops[..n], lower), ops[n], lower);
      NothingAnalysed(s, ops[..n], fp, lower);
      LatestUnfolds(s, ops, fp, lower);
      hide LatestAnalysis;
    }
  }

  /**
   Over any run, syncs included, from any loaded state: a record exists iff it was loaded or created, is
   never removed, and accounts for exactly the events of its fingerprint; its object name is the one it
   started with or, once a sync has come upon it without one, the one derived from its pattern; its analysis
   and severity are those of the latest operations that set them.
   */
  lemma StoreAccounting(s: State, ops: seq<Op>, fp: string, lower: char -> char)
    ensures fp in After(s, ops, lower) <==> Start(s, ops, fp).Some?
    ensures fp in After(s, ops, lower) ==>
              var (r, start) := (After(s, ops, lower)[fp], Start(s, ops, fp).value);
              var (a, b) := (LatestAnalysis(s, ops, fp, false, lower), LatestAnalysis(s, ops, fp, true, lower));
              && AccountsFor(r, start, EventsOf(ops, fp))
              && r.crdName == NameOnceSynced(start, WasSynced(s, ops, fp, lower), lower)
              && (a.Some? ==> AnalysedAt(s, ops, a.value, fp, lower))
              && (b.Some? ==> RatedAt(s, ops, b.value, fp, lower))
              && AnalysisIsLatest(r, start, ops, a, b)
    ensures fp !in After(s, ops, lower) ==> EventsOf(ops, fp) == []
  {
    EventAccounting(s, ops, fp, lower);
    if fp in After(s, ops, lower) {
      NameAccounting(s, ops, fp, lower);
      AnalysisAccounting(s, ops, fp, lower);
    }
    hide After;
    hide LatestAnalysis;
    hide AccountsFor;
    hide EventsOf;
  }

  // ------------------------------------------------------------------ what the first event leaves

  /** The record has what event e brought, and nothing has resolved it. */
  predicate BegunBy(r: Record, e: Op)
    requires e.Event?
  {
    && r.fingerprint == e.fp && r.pattern == e.pattern && r.sample == e.sample
    && r.namespace == e.namespace && r.policy == e.policy && r.firstSeen == e.now && !r.resolved
  }

  /** No operation after the i-th has rated fp. */
  predicate Unrated(ops: seq<Op>, i: nat, fp: string) {
    forall k :: i < k < |ops| && ops[k].Analysed? && ops[k].fp == fp && ops[k].analysis.Some? ==> ops[k].severity == ""
  }

  /** Right after its first event, an incident has seen one event, at one time and from one pod at most. */
  lemma AfterFirstEvent(s: State, e: Op, lower: char -> char)
    requires e.Event? && e.fp !in s
    ensures e.fp in Step(s, e, lower)
    ensures var r := Step(s, e, lower)[e.fp];
            && BegunBy(r, e) && r.severity == "low" && r.analysis.None? && r.crdName == ""
            && r.count == 1 && r.lastSeen == e.now && r.pods == (if e.pod == "" then {} else {e.pod})
            && r.windows == Frequency([e.now], [e.now], [e.now])
  {
  }

  lemma BegunStays(s: State, op: Op, e: Op, lower: char -> char)
    requires e.Event? && e.fp in s && BegunBy(s[e.fp], e)
    ensures e.fp in Step(s, op, lower) && BegunBy(Step(s, op, lower)[e.fp], e)
  {
  }

  /**
   If event i is new, then after every longer run its record has that event's pattern, sample, namespace and
   policy, was first seen at its time, is unresolved, and has severity low until an update rates it.
   */
  lemma {:induction false} NewRecordIsItsEvent(s: State, ops: seq<Op>, i: nat, lower: char -> char)
    requires i < |ops| && IsNew(After(s, ops[..i], lower), ops[i])
    ensures var (r, e) := (After(s, ops, lower), ops[i]);
            && e.fp in r && BegunBy(r[e.fp], e) && (Unrated(ops, i, e.fp) ==> r[e.fp].severity == "low")
  {
    var n, e := |ops| - 1, ops[i];
    assert After(s, ops, lower) == Step(After(s, ops[..n], lower), ops[n], lower);
    if i == n {
      AfterFirstEvent(After(s, ops[..n], lower), e, lower);
    } else {
      assert ops[..n][..i] == ops[..i] && ops[..n][i] == e;
      NewRecordIsItsEvent(s, ops[..n], i, lower);
      assert Unrated(ops, i, e.fp) ==> Unrated(ops[..n], i, e.fp);
      assert Unrated(ops, i, e.fp) && ops[n].Analysed? && ops[n].fp == e.fp && ops[n].analysis.Some?
             ==> ops[n].severity == "";
      hide After;
      hide Unrated;
      var prior := After(s, ops[..n], lower);
      BegunStays(prior, ops[n], e, lower);
      AnalysisStep(prior, ops[n], e.fp, lower);
      hide Step;
      hide BegunBy;
    }
  }

  // ------------------------------------------------------------------ what is new

  /** An event starts a new incident iff nothing before it loaded or created its fingerprint. */
  lemma NewMeansFirst(s: State, ops: seq<Op>, i: nat, lower: char -> char)
    requires i < |ops| && ops[i].Event?
    ensures IsNew(After(s, ops[..i], lower), ops[i]) <==>
              ops[i].fp !in s && forall j :: 0 <= j < i ==> !Creates(ops[j]) || ops[j].fp != ops[i].fp
  {
    StoreAccounting(s, ops[..i], ops[i].fp, lower);
    if ops[i].fp !in s { CreatorExists(s, ops[..i], ops[i].fp); }
    hide AccountsFor;
    hide EventsOf;
    hide Creator;
    assert forall j :: 0 <= j < i ==> ops[..i][j] == ops[j];
  }

  lemma {:induction false} CreatorExists(s: State, ops: seq<Op>, fp: string)
    requires fp !in s
    ensures Creator(s, ops, fp).Some? <==> exists j :: 0 <= j < |ops| && Creates(ops[j]) && ops[j].fp == fp
  {
    if ops != [] {
      var n := |ops| - 1;
      CreatorExists(s, ops[..n], fp);
      if j :| 0 <= j < |ops| && Creates(ops[j]) && ops[j].fp == fp {
        if j < n { assert ops[..n][j] == ops[j]; }
      }
    }
  }

  /** At most one event of each fingerprint is new, so at most one analysis is started for it. */
  lemma AtMostOneNew(s: State, ops: seq<Op>, i: nat, j: nat, lower: char -> char)
    requires i < j < |ops| && ops[i].Event? && ops[j].Event? && ops[i].fp == ops[j].fp
    ensures !IsNew(After(s, ops[..j], lower), ops[j])
  {
    NewMeansFirst(s, ops, j, lower);
  }

  /** The three frequency lists of a record are equal, and in order when the clock is. */
  predicate EvenWindows(r: Record) {
    r.windows.m1 == r.windows.m5 == r.windows.m15
  }

  lemma WindowsStayEven(s: State, ops: seq<Op>, fp: string, lower: char -> char)
    requires fp in s ==> EvenWindows(s[fp])
    requires fp in After(s, ops, lower)
    ensures EvenWindows(After(s, ops, lower)[fp])
    ensures fp !in s ==> After(s, ops, lower)[fp].windows.m1 == TimesOf(EventsOf(ops, fp))
  {
    StoreAccounting(s, ops, fp, lower);
    hide EventsOf;
    hide After;
    hide Creator;
    assert fp !in s ==> [] + TimesOf(EventsOf(ops, fp)) == TimesOf(EventsOf(ops, fp));
  }

  /** Events reach the store in clock order. */
  predicate InClockOrder(ops: seq<Op>) {
    forall i, j :: 0 <= i < j < |ops| && ops[i].Event? && ops[j].Event? ==> ops[i].now <= ops[j].now
  }

  predicate Ascending(times: seq<int>) {
    forall i, j :: 0 <= i < j < |times| ==> times[i] <= times[j]
  }

  /** ... and then so are the times of each fingerprint. */
  lemma {:induction false} TimesInOrder(ops: seq<Op>, fp: string)
    requires InClockOrder(ops)
    ensures Ascending(TimesOf(EventsOf(ops, fp)))
  {
    if ops != [] {
      var n := |ops| - 1;
      var before, e := EventsOf(ops[..n], fp), ops[n];
      TimesInOrder(ops[..n], fp);
      EventsAreAmong(ops[..n], fp);
      if e.Event? && e.fp == fp {
        assert forall x :: x in before ==> x.now <= e.now;
        AscendingSnoc(before, e);
        assert EventsOf(ops, fp) == before + [e];
      } else {
        assert EventsOf(ops, fp) == before + [] == before;
      }
    }
  }

  lemma AscendingSnoc(events: seq<Op>, e: Op)
    requires e.Event? && forall x :: x in events ==> x.Event? && x.now <= e.now
    requires Ascending(TimesOf(events))
    ensures Ascending(TimesOf(events + [e]))
  {
    assert TimesOf(events + [e]) == TimesOf(events) + [e.now];
  }

  lemma {:induction false} EventsAreAmong(ops: seq<Op>, fp: string)
    ensures forall e :: e in EventsOf(ops, fp) ==> e in ops
  {
    if ops != [] { EventsAreAmong(ops[..|ops| - 1], fp); }
  }

  /**
   A record that GetOrCreate placed is never filled in, whatever events follow: it keeps its empty
   pattern and namespace, and none of its events counts as new.
   */
  lemma PlaceholderIsNeverFilled(s: State, fp: string, now: int, ops: seq<Op>, lower: char -> char)
    requires fp !in s
    ensures var r := After(Step(s, GetOrCreate(fp, now), lower), ops, lower);
            && fp in r && r[fp].pattern == r[fp].namespace == r[fp].policy == r[fp].sample == ""
            && r[fp].fingerprint == fp && r[fp].firstSeen == now && !r[fp].resolved
    ensures forall i :: 0 <= i < |ops| && ops[i].Event? && ops[i].fp == fp ==>
              !IsNew(After(Step(s, GetOrCreate(fp, now), lower), ops[..i], lower), ops[i])
  {
    var placed := Step(s, GetOrCreate(fp, now), lower);
    StoreAccounting(placed, ops, fp, lower);
    forall i | 0 <= i < |ops| && ops[i].Event? && ops[i].fp == fp
      ensures !IsNew(After(placed, ops[..i], lower), ops[i])
    {
      NewMeansFirst(placed, ops, i, lower);
    }
  }
}
