/**
 Saving the store to Incident objects and loading it back (SyncToKubernetes and LoadExistingIncidents
 in internal/aggregator/incident_store.go). The API server is a map from names to objects.
 */
module IncidentSync {
  import opened Basics
  import opened IncidentLedger
  import opened IncidentNames

  const SECOND: int := 1_000_000_000

  /** Go's zero time, in nanoseconds from 1970. */
  const ZERO_TIME: int := -62_135_596_800_000_000_000

  datatype Spec = Spec(acknowledged: bool, acknowledgedBy: string, notes: string)

  datatype Resource = Resource(kind: string, name: string, namespace: string)

  datatype Action = Action(step: int, action: string, command: string, priority: string)

  datatype AIAnalysis = AIAnalysis(rootCause: string, confidence: real, impact: string, severity: string,
                                   actions: seq<Action>, runbooks: seq<string>, source: string, tokensUsed: int,
                                   analyzedAt: Option<int>)

  datatype Phase = NoPhase | Detecting | Analyzing | Notified | Acknowledged | Resolved | Archived

  /** Times on the wire are whole seconds; the zero time is sent as null. */
  datatype Status = Status(phase: Phase, fingerprint: string, pattern: string, count: int, resources: seq<Resource>,
                           sample: string, firstSeen: Option<int>, lastSeen: Option<int>, frequency: seq<string>,
                           analysis: Option<AIAnalysis>, severity: string, notified: bool, notifiedAt: Option<int>,
                           resolved: bool, resolvedAt: Option<int>, policyRef: string, conditions: seq<string>)

  datatype Label = FingerprintLabel | PolicyLabel | NamespaceLabel | OtherLabel(key: string)

  datatype Incident = Incident(labels: map<Label, string>, spec: Spec, status: Status)

  datatype Name = Name(namespace: string, name: string)

  type Cluster = map<Name, Incident>

  const BLANK := Incident(map[], Spec(false, "", ""),
                          Status(NoPhase, "", "", 0, [], "", None, None, [], None, "", false, None, false, None, "",
                                 []))

  /**
   How the map iterations of affectedPodsToResources list the pods of each record in one sync. Go promises no
   order, so two records with the same pods, and two syncs of one record, may list them differently.
   */
  type Listing = string -> seq<string>

  predicate NoRepeats(s: seq<string>) {
    forall i, j :: 0 <= i < j < |s| ==> s[i] != s[j]
  }

  /** A range over a map visits every key exactly once. */
  predicate ListsOnce(listed: seq<string>, pods: set<string>) {
    NoRepeats(listed) && (forall x :: x in listed ==> x in pods) && (forall x :: x in pods ==> x in listed)
  }

  predicate ListsAll(listing: Listing, s: State) {
    forall fp :: fp in s ==> ListsOnce(listing(fp), s[fp].pods)
  }

  /** What the API server does with the two writes of one record. */
  datatype Writes = BothWritten | CreateFailed | StatusFailed

  // ------------------------------------------------------------------ saving

  function WireTime(t: int): Option<int> {
    if t == ZERO_TIME then None else Some(t / SECOND)
  }

  function FromWire(t: Option<int>): int {
    match t case None => ZERO_TIME case Some(s) => s * SECOND
  }

  function PhaseOf(r: Record): Phase {
    if r.resolved then Resolved else if r.count > 1 then Analyzing else Detecting
  }

  function PodsToResources(namespace: string, pods: seq<string>): (r: seq<Resource>)
    ensures |r| == |pods| && forall i :: 0 <= i < |pods| ==> r[i] == Resource("Pod", pods[i], namespace)
  {
    seq(|pods|, i requires 0 <= i < |pods| => Resource("Pod", pods[i], namespace))
  }

  function ToActions(actions: seq<string>): (r: seq<Action>)
    ensures |r| == |actions| && forall i :: 0 <= i < |actions| ==> r[i] == Action(i + 1, actions[i], "", "")
  {
    seq(|actions|, i requires 0 <= i < |actions| => Action(i + 1, actions[i], "", ""))
  }

  function ToAIAnalysis(a: Analysis): AIAnalysis {
    AIAnalysis(a.rootCause, a.confidence, a.impact, a.severity, ToActions(a.actions), a.runbooks, a.source,
               a.tokensUsed, None)
  }

  /** syncStatus: the status it patches, given the current one. */
  function StatusOf(r: Record, current: Status, listed: seq<string>): Status {
    current.(phase := PhaseOf(r), fingerprint := r.fingerprint, pattern := r.pattern, count := r.count,
             sample := r.sample, resources := PodsToResources(r.namespace, listed),
             firstSeen := WireTime(r.firstSeen), lastSeen := WireTime(r.lastSeen), severity := r.severity,
             resolved := r.resolved, policyRef := r.policy,
             analysis := match r.analysis case None => None case Some(a) => Some(ToAIAnalysis(a)))
  }

  function NameOf(r: Record, lower: char -> char): Name {
    Name(r.namespace, CrdName(r.pattern, r.fingerprint, lower))
  }

  function Current(cluster: Cluster, name: Name): Incident {
    if name in cluster then cluster[name] else BLANK
  }

  /** The create-or-patch of syncRecord: only labels are set. */
  function Labelled(i: Incident, r: Record): Incident {
    i.(labels := i.labels[FingerprintLabel := r.fingerprint][PolicyLabel := r.policy][NamespaceLabel := r.namespace])
  }

  function Written(i: Incident, r: Record, listed: seq<string>): Incident {
    Labelled(i, r).(status := StatusOf(r, i.status, listed))
  }

  /** syncRecord */
  function SyncRecord(cluster: Cluster, r: Record, lower: char -> char, listed: seq<string>, w: Writes): Cluster {
    var name := NameOf(r, lower);
    match w
    case CreateFailed => cluster
    case StatusFailed => cluster[name := Labelled(Current(cluster, name), r)]
    case BothWritten => cluster[name := Written(Current(cluster, name), r, listed)]
  }

  /** SyncToKubernetes, the records taken in the order fps; a failing record does not stop the others. */
  function Sync(cluster: Cluster, s: State, fps: seq<string>, lower: char -> char, listing: Listing,
                writes: string -> Writes): Cluster
    requires forall fp :: fp in fps ==> fp in s
  {
    if fps == [] then cluster
    else
      var fp := fps[|fps| - 1];
      SyncRecord(Sync(cluster, s, fps[..|fps| - 1], lower, listing, writes), s[fp], lower, listing(fp), writes(fp))
  }

  // ------------------------------------------------------------------ loading

  function PodsIn(resources: seq<Resource>): set<string> {
    set r | r in resources && r.kind == "Pod" :: r.name
  }

  function FromActions(actions: seq<Action>): seq<string> {
    seq(|actions|, i requires 0 <= i < |actions| => actions[i].action)
  }

  function FromAIAnalysis(a: AIAnalysis): Analysis {
    Analysis(a.rootCause, a.confidence, a.impact, a.severity, FromActions(a.actions), a.runbooks, a.source,
             a.tokensUsed)
  }

  predicate IsActive(i: Incident) {
    !i.status.resolved && i.status.fingerprint != ""
  }

  function Recovered(name: Name, i: Incident): Record {
    var st := i.status;
    Record(st.fingerprint, st.pattern, st.sample, name.namespace, st.policyRef, st.count, PodsIn(st.resources),
           FromWire(st.firstSeen), FromWire(st.lastSeen), st.severity, st.resolved, name.name, NO_TIMES,
           match st.analysis case None => None case Some(a) => Some(FromAIAnalysis(a)))
  }

  /** LoadExistingIncidents; of several active objects with one fingerprint the last listed wins. */
  function Load(s: State, items: seq<(Name, Incident)>): State {
    if items == [] then s
    else
      var before, (name, i) := Load(s, items[..|items| - 1]), items[|items| - 1];
      if IsActive(i) then before[i.status.fingerprint := Recovered(name, i)] else before
  }

  /** The server lists every object once, in some order. */
  ghost predicate ListOf(items: seq<(Name, Incident)>, cluster: Cluster) {
    && (forall k :: 0 <= k < |items| ==> items[k].0 in cluster && items[k].1 == cluster[items[k].0])
    && (forall name :: name in cluster ==> exists k :: 0 <= k < |items| && items[k].0 == name)
  }

  // ------------------------------------------------------------------ what a record becomes

  /** A record after a round trip: whole seconds, no frequency windows, and the derived object name. */
  function Expected(r: Record, lower: char -> char): Record {
    r.(firstSeen := FromWire(WireTime(r.firstSeen)), lastSeen := FromWire(WireTime(r.lastSeen)), windows := NO_TIMES,
       crdName := CrdName(r.pattern, r.fingerprint, lower))
  }

  /** A time loses its fraction of a second and nothing else. */
  lemma WireKeepsSeconds(t: int)
    ensures FromWire(WireTime(t)) == t - t % SECOND
  {
  }

  lemma ActionsSurvive(actions: seq<string>)
    ensures FromActions(ToActions(actions)) == actions
  {
  }

  lemma PodsSurvive(namespace: string, pods: set<string>, listed: seq<string>)
    requires ListsOnce(listed, pods)
    ensures PodsIn(PodsToResources(namespace, listed)) == pods
  {
    var resources := PodsToResources(namespace, listed);
    forall x | x in pods
      ensures x in PodsIn(resources)
    {
      var i :| 0 <= i < |listed| && listed[i] == x;
      assert resources[i] in resources;
    }
  }

  lemma RecordSurvives(i: Incident, r: Record, lower: char -> char, listed: seq<string>)
    requires ListsOnce(listed, r.pods)
    ensures Recovered(NameOf(r, lower), Written(i, r, listed)) == Expected(r, lower)
    ensures IsActive(Written(i, r, listed)) <==> !r.resolved && r.fingerprint != ""
  {
    hide CrdName;
    hide ToActions;
    hide FromActions;
    hide PodsIn;
    hide WireTime;
    hide FromWire;
    PodsSurvive(r.namespace, r.pods, listed);
    if r.analysis.Some? { ActionsSurvive(r.analysis.value.actions); }
  }

  // ------------------------------------------------------------------ which objects a sync writes

  /** Record fp is written to the object: it has that name, and the server accepts its labels and its status. */
  predicate IsWritten(s: State, lower: char -> char, writes: string -> Writes, name: Name, fp: string)
    requires fp in s
  {
    NameOf(s[fp], lower) == name && writes(fp) == BothWritten
  }

  /** The position of the last record in fps that is written to the object. */
  function LastWriter(s: State, fps: seq<string>, lower: char -> char, writes: string -> Writes, name: Name)
    : (r: Option<nat>)
    requires forall fp :: fp in fps ==> fp in s
    ensures r.Some? ==> r.value < |fps|
  {
    if fps == [] then None
    else if IsWritten(s, lower, writes, name, fps[|fps| - 1]) then Some(|fps| - 1)
    else LastWriter(s, fps[..|fps| - 1], lower, writes, name)
  }

  lemma {:induction false} LastWriterIsLast(s: State, fps: seq<string>, lower: char -> char, writes: string -> Writes,
                                            name: Name)
    requires forall fp :: fp in fps ==> fp in s
    ensures var w := LastWriter(s, fps, lower, writes, name);
            && (w.Some? ==> IsWritten(s, lower, writes, name, fps[w.value]))
            && forall j :: (if w.Some? then w.value + 1 else 0) <= j < |fps| ==>
                 !IsWritten(s, lower, writes, name, fps[j])
  {
    hide IsWritten;
    if fps != [] { LastWriterIsLast(s, fps[..|fps| - 1], lower, writes, name); }
  }

  predicate AllWritten(fps: seq<string>, writes: string -> Writes) {
    forall fp :: fp in fps ==> writes(fp) == BothWritten
  }

  /** After a sync in which every write succeeds, an object holds the record that wrote it last. */
  lemma {:induction false} SyncedObject(cluster: Cluster, s: State, fps: seq<string>, lower: char -> char,
                                        listing: Listing, writes: string -> Writes, name: Name)
    requires (forall fp :: fp in fps ==> fp in s) && AllWritten(fps, writes)
    ensures var (after, w) := (Sync(cluster, s, fps, lower, listing, writes), LastWriter(s, fps, lower, writes, name));
            && (name in after <==> name in cluster || w.Some?)
            && (w.None? && name in cluster ==> after[name] == cluster[name])
            && (w.Some? ==> exists i :: after[name] == Written(i, s[fps[w.value]], listing(fps[w.value])))
  {
    hide SyncRecord;
    hide NameOf;
    hide Written;
    if fps != [] {
      var n := |fps| - 1;
      SyncedObject(cluster, s, fps[..n], lower, listing, writes, name);
      var before := Sync(cluster, s, fps[..n], lower, listing, writes);
      assert writes(fps[n]) == BothWritten;
      OneWritten(before, s[fps[n]], lower, listing(fps[n]), name);
      assert Sync(cluster, s, fps, lower, listing, writes)
          == SyncRecord(before, s[fps[n]], lower, listing(fps[n]), BothWritten);
      hide Sync;
    }
  }

  /** Whatever the server accepts: an object's status is the one its last writer left, or as it was before. */
  lemma {:induction false} SyncedStatus(cluster: Cluster, s: State, fps: seq<string>, lower: char -> char,
                                        listing: Listing, writes: string -> Writes, name: Name)
    requires forall fp :: fp in fps ==> fp in s
    ensures var (after, w) := (Sync(cluster, s, fps, lower, listing, writes), LastWriter(s, fps, lower, writes, name));
            && (w.None? ==> Current(after, name).status == Current(cluster, name).status)
            && (w.Some? ==> name in after && exists before ::
                  after[name].status == StatusOf(s[fps[w.value]], before, listing(fps[w.value])))
  {
    hide SyncRecord;
    hide StatusOf;
    hide IsWritten;
    if fps != [] {
      var n := |fps| - 1;
      SyncedStatus(cluster, s, fps[..n], lower, listing, writes, name);
      var before := Sync(cluster, s, fps[..n], lower, listing, writes);
      StatusAfterOne(before, s, lower, listing(fps[n]), writes, name, fps[n]);
      hide Sync;
    }
  }

  lemma StatusAfterOne(cluster: Cluster, s: State, lower: char -> char, listed: seq<string>, writes: string -> Writes,
                       name: Name, fp: string)
    requires fp in s
    ensures var after := SyncRecord(cluster, s[fp], lower, listed, writes(fp));
            && (name in cluster ==> name in after)
            && (if IsWritten(s, lower, writes, name, fp)
                then name in after && after[name].status == StatusOf(s[fp], Current(cluster, name).status, listed)
                else Current(after, name).status == Current(cluster, name).status)
  {
    hide NameOf;
    hide StatusOf;
  }

  lemma OneWritten(cluster: Cluster, r: Record, lower: char -> char, listed: seq<string>, name: Name)
    ensures var after := SyncRecord(cluster, r, lower, listed, BothWritten);
            if NameOf(r, lower) == name then name in after && after[name] == Written(Current(cluster, name), r, listed)
            else (name in after <==> name in cluster) && (name in cluster ==> after[name] == cluster[name])
  {
    hide NameOf;
    hide Written;
  }

  // ------------------------------------------------------------------ what a written object shows

  /** A time as the object shows it: in whole seconds, and not at all if it is the zero time. */
  predicate ShowsTime(shown: Option<int>, t: int) {
    if t == -62_135_596_800_000_000_000 then shown.None?
    else shown.Some? && shown.value * 1_000_000_000 <= t < (shown.value + 1) * 1_000_000_000
  }

  predicate ShowsAnalysis(shown: AIAnalysis, a: Analysis) {
    && shown.rootCause == a.rootCause && shown.confidence == a.confidence && shown.impact == a.impact
    && shown.severity == a.severity && shown.runbooks == a.runbooks && shown.source == a.source
    && shown.tokensUsed == a.tokensUsed && |shown.actions| == |a.actions|
    && forall k :: 0 <= k < |a.actions| ==> shown.actions[k].step == k + 1 && shown.actions[k].action == a.actions[k]
  }

  /** The status says of the record, field by field, what it is to say; listed is how the pods were listed. */
  predicate ShowsRecord(st: Status, r: Record, listed: seq<string>) {
    && (st.phase == Resolved <==> r.resolved)
    && (st.phase == Analyzing <==> !r.resolved && r.count > 1)
    && (st.phase == Detecting <==> !r.resolved && r.count <= 1)
    && st.fingerprint == r.fingerprint && st.pattern == r.pattern && st.sample == r.sample && st.count == r.count
    && st.severity == r.severity && st.policyRef == r.policy && st.resolved == r.resolved
    && ShowsTime(st.firstSeen, r.firstSeen) && ShowsTime(st.lastSeen, r.lastSeen)
    && |st.resources| == |listed|
    && (forall k :: 0 <= k < |listed| ==>
          && st.resources[k].kind == "Pod" && st.resources[k].name == listed[k]
          && st.resources[k].namespace == r.namespace)
    && (st.analysis.Some? <==> r.analysis.Some?)
    && (r.analysis.Some? ==> ShowsAnalysis(st.analysis.value, r.analysis.value))
  }

  predicate HasLabelsOf(i: Incident, r: Record) {
    && FingerprintLabel in i.labels && i.labels[FingerprintLabel] == r.fingerprint
    && PolicyLabel in i.labels && i.labels[PolicyLabel] == r.policy
    && NamespaceLabel in i.labels && i.labels[NamespaceLabel] == r.namespace
  }

  lemma StatusShows(r: Record, current: Status, listed: seq<string>)
    ensures ShowsRecord(StatusOf(r, current, listed), r, listed)
  {
    TimeShows(r.firstSeen);
    TimeShows(r.lastSeen);
    hide WireTime;
    hide ShowsTime;
  }

  lemma TimeShows(t: int)
    ensures ShowsTime(WireTime(t), t)
  {
  }

  /** What is read back from a time on the wire: whole seconds, or the zero time for want of any. */
  predicate ReadsTime(t: int, shown: Option<int>) {
    t == if shown.Some? then shown.value * 1_000_000_000 else -62_135_596_800_000_000_000
  }

  predicate ReadsAnalysis(a: Analysis, shown: AIAnalysis) {
    && a.rootCause == shown.rootCause && a.confidence == shown.confidence && a.impact == shown.impact
    && a.severity == shown.severity && a.runbooks == shown.runbooks && a.source == shown.source
    && a.tokensUsed == shown.tokensUsed && |a.actions| == |shown.actions|
    && forall k :: 0 <= k < |shown.actions| ==> a.actions[k] == shown.actions[k].action
  }

  /** The record says, field by field, what the object of that name shows; only resources of kind Pod are pods. */
  ghost predicate ReadsObject(r: Record, name: Name, i: Incident) {
    var st := i.status;
    && r.fingerprint == st.fingerprint && r.pattern == st.pattern && r.sample == st.sample
    && r.namespace == name.namespace && r.crdName == name.name && r.policy == st.policyRef
    && r.count == st.count && r.severity == st.severity && r.resolved == st.resolved
    && (forall pod :: pod in r.pods <==>
          exists k :: 0 <= k < |st.resources| && st.resources[k].kind == "Pod" && st.resources[k].name == pod)
    && ReadsTime(r.firstSeen, st.firstSeen) && ReadsTime(r.lastSeen, st.lastSeen)
    && r.windows == Frequency([], [], [])
    && (r.analysis.Some? <==> st.analysis.Some?)
    && (st.analysis.Some? ==> ReadsAnalysis(r.analysis.value, st.analysis.value))
  }

  /** Loading reads the objects that are unresolved and have a fingerprint. */
  lemma RecoveredReads(name: Name, i: Incident)
    ensures ReadsObject(Recovered(name, i), name, i)
    ensures IsActive(i) <==> !i.status.resolved && i.status.fingerprint != ""
  {
    PodsAreRead(i.status.resources);
    hide PodsIn;
    hide ReadsTime;
    TimeReads(i.status.firstSeen);
    TimeReads(i.status.lastSeen);
    hide FromWire;
  }

  lemma PodsAreRead(resources: seq<Resource>)
    ensures forall pod :: pod in PodsIn(resources) <==>
              exists k :: 0 <= k < |resources| && resources[k].kind == "Pod" && resources[k].name == pod
  {
    forall pod
      ensures pod in PodsIn(resources) <==>
                exists k :: 0 <= k < |resources| && resources[k].kind == "Pod" && resources[k].name == pod
    {
      if k :| 0 <= k < |resources| && resources[k].kind == "Pod" && resources[k].name == pod {
        assert resources[k] in resources;
      }
    }
  }

  lemma TimeReads(shown: Option<int>)
    ensures ReadsTime(FromWire(shown), shown)
  {
  }

  /** After any sync the object shows the last record whose writes to it were both accepted. */
  lemma SyncedShows(cluster: Cluster, s: State, fps: seq<string>, lower: char -> char, listing: Listing,
                    writes: string -> Writes, name: Name)
    requires forall fp :: fp in fps ==> fp in s
    ensures var (after, w) := (Sync(cluster, s, fps, lower, listing, writes), LastWriter(s, fps, lower, writes, name));
            w.Some? ==> name in after && ShowsRecord(after[name].status, s[fps[w.value]], listing(fps[w.value]))
  {
    SyncedStatus(cluster, s, fps, lower, listing, writes, name);
    var after, w := Sync(cluster, s, fps, lower, listing, writes), LastWriter(s, fps, lower, writes, name);
    hide *;
    if w.Some? {
      var before :| after[name].status == StatusOf(s[fps[w.value]], before, listing(fps[w.value]));
      StatusShows(s[fps[w.value]], before, listing(fps[w.value]));
    }
  }

  /** Every object shows the last record whose writes to it were both accepted. */
  ghost predicate ShowsLastWriters(after: Cluster, s: State, fps: seq<string>, lower: char -> char, listing: Listing,
                                   writes: string -> Writes)
    requires forall fp :: fp in fps ==> fp in s
  {
    forall name ::
      var w := LastWriter(s, fps, lower, writes, name);
      w.Some? ==> name in after && ShowsRecord(after[name].status, s[fps[w.value]], listing(fps[w.value]))
  }

  lemma AllShown(cluster: Cluster, s: State, fps: seq<string>, lower: char -> char, listing: Listing,
                 writes: string -> Writes)
    requires forall fp :: fp in fps ==> fp in s
    ensures ShowsLastWriters(Sync(cluster, s, fps, lower, listing, writes), s, fps, lower, listing, writes)
  {
    hide LastWriter;
    hide Sync;
    hide ShowsRecord;
    forall name
      ensures var after := Sync(cluster, s, fps, lower, listing, writes);
              var w := LastWriter(s, fps, lower, writes, name);
              w.Some? ==> name in after && ShowsRecord(after[name].status, s[fps[w.value]], listing(fps[w.value]))
    {
      SyncedShows(cluster, s, fps, lower, listing, writes, name);
    }
  }

  /** Record fp labels the object: it has that name, and the server accepts at least its labels. */
  predicate IsLabelled(s: State, lower: char -> char, writes: string -> Writes, name: Name, fp: string)
    requires fp in s
  {
    NameOf(s[fp], lower) == name && writes(fp) != CreateFailed
  }

  /** The position of the last record in fps that labels the object. */
  function LastLabeller(s: State, fps: seq<string>, lower: char -> char, writes: string -> Writes, name: Name)
    : (r: Option<nat>)
    requires forall fp :: fp in fps ==> fp in s
    ensures r.Some? ==> r.value < |fps|
  {
    if fps == [] then None
    else if IsLabelled(s, lower, writes, name, fps[|fps| - 1]) then Some(|fps| - 1)
    else LastLabeller(s, fps[..|fps| - 1], lower, writes, name)
  }

  /** Its labels are those of the last record whose labels were accepted. */
  lemma {:induction false} SyncedLabels(cluster: Cluster, s: State, fps: seq<string>, lower: char -> char,
                                        listing: Listing, writes: string -> Writes, name: Name)
    requires forall fp :: fp in fps ==> fp in s
    ensures var after := Sync(cluster, s, fps, lower, listing, writes);
            var l := LastLabeller(s, fps, lower, writes, name);
            && (l.Some? ==> name in after && HasLabelsOf(after[name], s[fps[l.value]]))
            && (l.Some? ==> IsLabelled(s, lower, writes, name, fps[l.value]))
            && forall j :: (if l.Some? then l.value + 1 else 0) <= j < |fps| ==>
                 !IsLabelled(s, lower, writes, name, fps[j])
  {
    hide SyncRecord;
    hide IsLabelled;
    hide HasLabelsOf;
    if fps != [] {
      var n := |fps| - 1;
      SyncedLabels(cluster, s, fps[..n], lower, listing, writes, name);
      var before := Sync(cluster, s, fps[..n], lower, listing, writes);
      LabelsAfterOne(before, s, lower, listing(fps[n]), writes, name, fps[n]);
      hide Sync;
    }
  }

  lemma LabelsAfterOne(cluster: Cluster, s: State, lower: char -> char, listed: seq<string>, writes: string -> Writes,
                       name: Name, fp: string)
    requires fp in s
    ensures var after := SyncRecord(cluster, s[fp], lower, listed, writes(fp));
            if IsLabelled(s, lower, writes, name, fp) then name in after && HasLabelsOf(after[name], s[fp])
            else (name in after <==> name in cluster) && (name in cluster ==> after[name] == cluster[name])
  {
    hide NameOf;
    hide StatusOf;
  }

  /**
   Whatever the writes do, a sync leaves of each existing object its spec, the foreign labels, and the
   status fields notified, notifiedAt, resolvedAt, conditions and frequency as they were.
   */
  lemma {:induction false} SyncLeavesTheRest(cluster: Cluster, s: State, fps: seq<string>, lower: char -> char,
                                             listing: Listing, writes: string -> Writes, name: Name)
    requires (forall fp :: fp in fps ==> fp in s) && name in cluster
    ensures var after := Sync(cluster, s, fps, lower, listing, writes);
            name in after && SameRest(after[name], cluster[name])
  {
    if fps != [] {
      var n := |fps| - 1;
      SyncLeavesTheRest(cluster, s, fps[..n], lower, listing, writes, name);
      var before := Sync(cluster, s, fps[..n], lower, listing, writes);
      hide CrdName;
      SyncRecordLeavesTheRest(before, s[fps[n]], lower, listing(fps[n]), writes(fps[n]), name);
      SameRestTransitive(Sync(cluster, s, fps, lower, listing, writes)[name], before[name], cluster[name]);
    }
  }

  ghost predicate SameRest(a: Incident, b: Incident) {
    && a.spec == b.spec
    && a.status.notified == b.status.notified && a.status.notifiedAt == b.status.notifiedAt
    && a.status.resolvedAt == b.status.resolvedAt && a.status.conditions == b.status.conditions
    && a.status.frequency == b.status.frequency
    && forall key: Label :: key.OtherLabel? ==> SameAt(a.labels, b.labels, key)
  }

  predicate SameAt(a: map<Label, string>, b: map<Label, string>, key: Label) {
    (key in a <==> key in b) && (key in a ==> a[key] == b[key])
  }

  lemma SameRestTransitive(a: Incident, b: Incident, c: Incident)
    requires SameRest(a, b) && SameRest(b, c)
    ensures SameRest(a, c)
  {
  }

  lemma SyncRecordLeavesTheRest(cluster: Cluster, r: Record, lower: char -> char, listed: seq<string>, w: Writes,
                                name: Name)
    requires name in cluster
    ensures var after := SyncRecord(cluster, r, lower, listed, w);
            name in after && SameRest(after[name], cluster[name])
  {
    hide CrdName;
    hide WireTime;
    hide ToActions;
    hide PodsToResources;
  }

  // ------------------------------------------------------------------ the round trip

  /** Item k is active and carries fingerprint fp. */
  predicate Carries(items: seq<(Name, Incident)>, k: nat, fp: string)
    requires k < |items|
  {
    IsActive(items[k].1) && items[k].1.status.fingerprint == fp
  }

  /** The last listed active object that carries fp. */
  function LastCarrier(items: seq<(Name, Incident)>, fp: string): (r: Option<nat>)
    ensures r.Some? ==> r.value < |items| && Carries(items, r.value, fp)
    ensures forall k: nat :: (if r.Some? then r.value + 1 else 0) <= k < |items| ==> !Carries(items, k, fp)
  {
    if items == [] then None
    else
      var n := |items| - 1;
      if Carries(items, n, fp) then Some(n)
      else
        assert forall k: nat :: k < n ==> Carries(items[..n], k, fp) == Carries(items, k, fp);
        LastCarrier(items[..n], fp)
  }

  /** Loading takes each fingerprint from the last active object that carries it, and keeps the others. */
  lemma {:induction false} LoadFinds(s: State, items: seq<(Name, Incident)>, fp: string)
    ensures var k := LastCarrier(items, fp);
            && (fp in Load(s, items) <==> fp in s || k.Some?)
            && (fp in Load(s, items) ==>
                  Load(s, items)[fp] == if k.Some? then Recovered(items[k.value].0, items[k.value].1) else s[fp])
  {
    hide Recovered;
    if items != [] {
      var n := |items| - 1;
      LoadFinds(s, items[..n], fp);
    }
  }

  predicate WellKeyed(s: State) {
    forall fp :: fp in s ==> s[fp].fingerprint == fp
  }

  /** The store keys every record by its fingerprint, through every run and every load. */
  lemma {:induction false} StaysWellKeyed(s: State, ops: seq<Op>, lower: char -> char)
    requires WellKeyed(s)
    ensures WellKeyed(After(s, ops, lower))
  {
    if ops != [] {
      StaysWellKeyed(s, ops[..|ops| - 1], lower);
      WellKeyedStep(After(s, ops[..|ops| - 1], lower), ops[|ops| - 1], lower);
    }
  }

  lemma WellKeyedStep(s: State, op: Op, lower: char -> char)
    requires WellKeyed(s)
    ensures WellKeyed(Step(s, op, lower))
  {
  }

  lemma {:induction false} LoadIsWellKeyed(s: State, items: seq<(Name, Incident)>)
    requires WellKeyed(s)
    ensures WellKeyed(Load(s, items))
  {
    if items != [] { LoadIsWellKeyed(s, items[..|items| - 1]); }
  }

  /** No active object that the sync does not write carries a fingerprint of the store. */
  predicate NoStrays(cluster: Cluster, s: State, fps: seq<string>, lower: char -> char, writes: string -> Writes)
    requires forall fp :: fp in fps ==> fp in s
  {
    forall name :: name in cluster && LastWriter(s, fps, lower, writes, name).None? ==>
      !(IsActive(cluster[name]) && cluster[name].status.fingerprint in s)
  }

  /** The record is written, and no record written later has the same namespace and object name. */
  predicate NotOverwritten(s: State, fps: seq<string>, lower: char -> char, writes: string -> Writes, fp: string)
    requires (forall x :: x in fps ==> x in s) && fp in s
  {
    var w := LastWriter(s, fps, lower, writes, NameOf(s[fp], lower));
    w.Some? && fps[w.value] == fp
  }

  /** An object of the synced cluster that carries fp was written by fp's record. */
  lemma CarrierIsWriter(cluster: Cluster, s: State, fps: seq<string>, lower: char -> char, listing: Listing,
                        writes: string -> Writes, name: Name, fp: string)
    requires (forall x :: x in fps ==> x in s) && WellKeyed(s) && ListsAll(listing, s) && fp in s
    requires NoStrays(cluster, s, fps, lower, writes)
    requires CarriesAt(Sync(cluster, s, fps, lower, listing, writes), name, fp)
    ensures NotOverwritten(s, fps, lower, writes, fp) && name == NameOf(s[fp], lower)
  {
    hide NameOf;
    hide Sync;
    SyncedStatus(cluster, s, fps, lower, listing, writes, name);
    LastWriterIsLast(s, fps, lower, writes, name);
    hide LastWriter;
  }

  /** An active object of that name carries fp. */
  predicate CarriesAt(cluster: Cluster, name: Name, fp: string) {
    name in cluster && IsActive(cluster[name]) && cluster[name].status.fingerprint == fp
  }

  /**
   At a record's own name, after a sync in which the server accepts what it will: if some record has been written
   there, an active object carries the fingerprint iff the last written one is the record itself, unresolved and
   with a fingerprint; otherwise iff one did before the sync.
   */
  lemma OwnCarrier(cluster: Cluster, s: State, fps: seq<string>, lower: char -> char, listing: Listing,
                   writes: string -> Writes, fp: string)
    requires (forall x :: x in fps ==> x in s) && fp in s && WellKeyed(s) && ListsAll(listing, s)
    ensures var (name, after) := (NameOf(s[fp], lower), Sync(cluster, s, fps, lower, listing, writes));
            && (CarriesAt(after, name, fp) <==> ShouldCarry(cluster, s, fps, lower, writes, fp))
            && (CarriesAt(after, name, fp) ==>
                  Recovered(name, after[name]) == Restored(cluster, s, fps, lower, writes, fp))
  {
    var name, after := NameOf(s[fp], lower), Sync(cluster, s, fps, lower, listing, writes);
    SyncedStatus(cluster, s, fps, lower, listing, writes, name);
    LastWriterIsLast(s, fps, lower, writes, name);
    var w := LastWriter(s, fps, lower, writes, name);
    hide Sync;
    hide LastWriter;
    if w.Some? {
      var before :| after[name].status == StatusOf(s[fps[w.value]], before, listing(fps[w.value]));
      StatusSurvives(after[name], before, s[fps[w.value]], lower, listing(fps[w.value]));
    } else {
      OnlyStatusCounts(Current(after, name), Current(cluster, name), name);
    }
    hide NameOf;
    hide StatusOf;
    hide Recovered;
    hide Expected;
  }

  /** When the record's own object is to carry its fingerprint after a sync. */
  predicate ShouldCarry(cluster: Cluster, s: State, fps: seq<string>, lower: char -> char, writes: string -> Writes,
                        fp: string)
    requires (forall x :: x in fps ==> x in s) && fp in s
  {
    if LastWriter(s, fps, lower, writes, NameOf(s[fp], lower)).Some?
    then !s[fp].resolved && fp != "" && NotOverwritten(s, fps, lower, writes, fp)
    else CarriesAt(cluster, NameOf(s[fp], lower), fp)
  }

  /** What it then restores: the record as synced or, if nothing was written there, what the object held before. */
  function Restored(cluster: Cluster, s: State, fps: seq<string>, lower: char -> char, writes: string -> Writes,
                    fp: string): Record
    requires (forall x :: x in fps ==> x in s) && fp in s
  {
    var name := NameOf(s[fp], lower);
    if LastWriter(s, fps, lower, writes, name).Some? then Expected(s[fp], lower)
    else Recovered(name, Current(cluster, name))
  }

  lemma OnlyStatusCounts(i: Incident, j: Incident, name: Name)
    requires i.status == j.status
    ensures Recovered(name, i) == Recovered(name, j) && IsActive(i) == IsActive(j)
  {
  }

  lemma StatusSurvives(i: Incident, before: Status, r: Record, lower: char -> char, listed: seq<string>)
    requires i.status == StatusOf(r, before, listed) && ListsOnce(listed, r.pods)
    ensures Recovered(NameOf(r, lower), i) == Expected(r, lower)
    ensures (IsActive(i) <==> !r.resolved && r.fingerprint != "") && i.status.fingerprint == r.fingerprint
  {
    var j := Incident(i.labels, i.spec, before);
    RecordSurvives(j, r, lower, listed);
    OnlyStatusCounts(i, Written(j, r, listed), NameOf(r, lower));
    hide NameOf;
    hide Expected;
    hide Recovered;
  }

  /** An object under another name never restores the record, whose namespace or name would differ. */
  lemma StrayIsNotExpected(name: Name, i: Incident, r: Record, lower: char -> char)
    requires name != NameOf(r, lower)
    ensures Recovered(name, i) != Expected(r, lower)
  {
    hide CrdName;
  }

  /**
   A sync in which the server accepts what it will, followed by a load into an empty store, whatever other objects
   the cluster holds. A fingerprint is loaded iff an active object carries it. If the last listed one that does is
   its record's own, the record comes back as Restored says: exactly as it was synced, except for fractions of a
   second, the frequency windows, and the object name, which is the derived one, if a record was written to that
   object, which acceptance of its own write ensures. From another object it never comes back. Its own object
   carries the fingerprint as ShouldCarry says: if a record was written there, iff that of fp was the last, is
   unresolved and has a fingerprint. Rejected writes of other records do not matter.
   */
  lemma RoundTrip(cluster: Cluster, s: State, fps: seq<string>, lower: char -> char, listing: Listing,
                  writes: string -> Writes, items: seq<(Name, Incident)>, fp: string)
    requires (forall x :: x in fps ==> x in s) && fp in fps && WellKeyed(s) && ListsAll(listing, s)
    requires ListOf(items, Sync(cluster, s, fps, lower, listing, writes))
    ensures var (k, loaded) := (LastCarrier(items, fp), Load(map[], items));
            && (fp in loaded <==> k.Some?)
            && (k.Some? ==> if items[k.value].0 == NameOf(s[fp], lower)
                            then loaded[fp] == Restored(cluster, s, fps, lower, writes, fp)
                            else loaded[fp] != Expected(s[fp], lower))
    ensures writes(fp) == BothWritten ==> Restored(cluster, s, fps, lower, writes, fp) == Expected(s[fp], lower)
    ensures (exists k: nat :: k < |items| && items[k].0 == NameOf(s[fp], lower) && Carries(items, k, fp))
       <==> ShouldCarry(cluster, s, fps, lower, writes, fp)
  {
    var after, own := Sync(cluster, s, fps, lower, listing, writes), NameOf(s[fp], lower);
    OwnCarrier(cluster, s, fps, lower, listing, writes, fp);
    RestoredIsExpected(cluster, s, fps, lower, writes, fp);
    hide *;
    OwnIsListed(items, after, own, fp);
    LoadedFrom(items, after, s[fp], lower, fp);
  }

  /** What a load makes of fp, by the object it takes it from. */
  lemma LoadedFrom(items: seq<(Name, Incident)>, cluster: Cluster, r: Record, lower: char -> char, fp: string)
    requires ListOf(items, cluster)
    ensures var (k, loaded, own) := (LastCarrier(items, fp), Load(map[], items), NameOf(r, lower));
            && (fp in loaded <==> k.Some?)
            && (k.Some? ==> if items[k.value].0 == own
                            then CarriesAt(cluster, own, fp) && loaded[fp] == Recovered(own, cluster[own])
                            else loaded[fp] != Expected(r, lower))
  {
    LoadFinds(map[], items, fp);
    var k, own := LastCarrier(items, fp), NameOf(r, lower);
    hide NameOf;
    hide LastCarrier;
    hide Recovered;
    hide Expected;
    if k.Some? && items[k.value].0 != own { StrayIsNotExpected(items[k.value].0, items[k.value].1, r, lower); }
  }

  lemma RestoredIsExpected(cluster: Cluster, s: State, fps: seq<string>, lower: char -> char,
                           writes: string -> Writes, fp: string)
    requires (forall x :: x in fps ==> x in s) && fp in fps
    ensures writes(fp) == BothWritten ==> Restored(cluster, s, fps, lower, writes, fp) == Expected(s[fp], lower)
  {
    if writes(fp) == BothWritten { AcceptedIsWritten(s, fps, lower, writes, fp); }
    hide Expected;
    hide Recovered;
  }

  lemma AcceptedIsWritten(s: State, fps: seq<string>, lower: char -> char, writes: string -> Writes, fp: string)
    requires (forall x :: x in fps ==> x in s) && fp in fps && writes(fp) == BothWritten
    ensures LastWriter(s, fps, lower, writes, NameOf(s[fp], lower)).Some?
  {
    var k :| 0 <= k < |fps| && fps[k] == fp;
    LastWriterIsLast(s, fps, lower, writes, NameOf(s[fp], lower));
    hide LastWriter;
    hide NameOf;
    assert IsWritten(s, lower, writes, NameOf(s[fp], lower), fps[k]);
  }

  lemma OwnIsListed(items: seq<(Name, Incident)>, cluster: Cluster, name: Name, fp: string)
    requires ListOf(items, cluster)
    ensures (exists k: nat :: k < |items| && items[k].0 == name && Carries(items, k, fp))
       <==> CarriesAt(cluster, name, fp)
  {
    hide IsActive;
    if CarriesAt(cluster, name, fp) {
      var k :| 0 <= k < |items| && items[k].0 == name;
      assert Carries(items, k, fp);
    }
  }

  /**
   With no other active object carrying a fingerprint of the store: a record is recovered iff it is unresolved,
   has a fingerprint, is written, and no record written later has the same namespace and object name.
   */
  lemma RoundTripWithoutStrays(cluster: Cluster, s: State, fps: seq<string>, lower: char -> char, listing: Listing,
                               writes: string -> Writes, items: seq<(Name, Incident)>, fp: string)
    requires (forall x :: x in fps ==> x in s) && WellKeyed(s) && fp in s
    requires NoStrays(cluster, s, fps, lower, writes) && ListsAll(listing, s)
    requires ListOf(items, Sync(cluster, s, fps, lower, listing, writes))
    ensures fp in Load(map[], items) <==> !s[fp].resolved && fp != "" && NotOverwritten(s, fps, lower, writes, fp)
    ensures fp in Load(map[], items) ==> Load(map[], items)[fp] == Expected(s[fp], lower)
  {
    var after, own := Sync(cluster, s, fps, lower, listing, writes), NameOf(s[fp], lower);
    LoadFinds(map[], items, fp);
    OwnCarrier(cluster, s, fps, lower, listing, writes, fp);
    OwnIsListed(items, after, own, fp);
    var k := LastCarrier(items, fp);
    if k.Some? {
      assert CarriesAt(after, items[k.value].0, fp);
      CarrierIsWriter(cluster, s, fps, lower, listing, writes, items[k.value].0, fp);
    }
    hide Sync;
    hide NameOf;
    hide LastCarrier;
    hide LastWriter;
    hide Recovered;
    hide Expected;
  }

  predicate DistinctNames(s: State, fps: seq<string>, lower: char -> char)
    requires forall fp :: fp in fps ==> fp in s
  {
    forall i, j :: 0 <= i < j < |fps| ==> NameOf(s[fps[i]], lower) != NameOf(s[fps[j]], lower)
  }

  /** With distinct (namespace, object name) pairs every unresolved record that is written comes back. */
  lemma DistinctNamesSurvive(s: State, fps: seq<string>, lower: char -> char, writes: string -> Writes, fp: string)
    requires (forall x :: x in fps ==> x in s) && fp in fps && DistinctNames(s, fps, lower)
    ensures NotOverwritten(s, fps, lower, writes, fp) <==> writes(fp) == BothWritten
  {
    var i :| 0 <= i < |fps| && fps[i] == fp;
    var name := NameOf(s[fp], lower);
    hide NameOf;
    var w := LastWriter(s, fps, lower, writes, name);
    LastWriterIsLast(s, fps, lower, writes, name);
    hide LastWriter;
    if writes(fp) == BothWritten {
      assert IsWritten(s, lower, writes, name, fps[i]) && w.Some?;
      assert NameOf(s[fps[i]], lower) == NameOf(s[fps[w.value]], lower);
    }
  }

  /** An object is determined by the record written to it, by how its pods are listed, and by what syncing leaves. */
  lemma WrittenIsDetermined(i: Incident, j: Incident, r: Record, listed: seq<string>, relisted: seq<string>)
    requires SameRest(Written(i, r, relisted), Written(j, r, listed))
    ensures Written(i, r, relisted) == Relisted(Written(j, r, listed), r, relisted)
    ensures Written(i, r, relisted) == Written(j, r, listed) <==> relisted == listed
  {
    hide ToAIAnalysis;
    hide PodsToResources;
    hide WireTime;
    var a, b := Written(i, r, relisted), Written(j, r, listed);
    forall key: Label
      ensures SameAt(a.labels, b.labels, key)
    {
      match key
      case OtherLabel(_) =>
      case FingerprintLabel =>
      case PolicyLabel =>
      case NamespaceLabel =>
    }
    SameStatus(i, j, r, listed, relisted);
    ResourcesDetermineListing(r.namespace, listed, relisted);
    hide Written;
    hide StatusOf;
    SameLabels(a.labels, b.labels);
  }

  /** The object with the record's pods listed anew. */
  function Relisted(i: Incident, r: Record, listed: seq<string>): Incident {
    i.(status := i.status.(resources := PodsToResources(r.namespace, listed)))
  }

  lemma ResourcesDetermineListing(namespace: string, listed: seq<string>, relisted: seq<string>)
    ensures PodsToResources(namespace, listed) == PodsToResources(namespace, relisted) <==> listed == relisted
  {
    var a, b := PodsToResources(namespace, listed), PodsToResources(namespace, relisted);
    if a == b {
      assert |listed| == |relisted|;
      assert forall k :: 0 <= k < |listed| ==> a[k].name == listed[k] && b[k].name == relisted[k];
    }
  }

  lemma SameLabels(a: map<Label, string>, b: map<Label, string>)
    requires forall key: Label :: SameAt(a, b, key)
    ensures a == b
  {
    assert forall key: Label :: SameAt(a, b, key) ==> (key in a <==> key in b) && (key in a ==> a[key] == b[key]);
  }

  lemma SameStatus(i: Incident, j: Incident, r: Record, listed: seq<string>, relisted: seq<string>)
    requires SameRest(Written(i, r, relisted), Written(j, r, listed))
    ensures var (a, b) := (Written(i, r, relisted).status, Written(j, r, listed).status);
            && a == b.(resources := PodsToResources(r.namespace, relisted))
            && b.resources == PodsToResources(r.namespace, listed)
  {
    hide ToAIAnalysis;
    hide PodsToResources;
    hide WireTime;
    hide SameAt;
  }

  /** With distinct object names the writer of an object does not depend on the order of the sync. */
  lemma SameWriter(s: State, fps: seq<string>, again: seq<string>, lower: char -> char, writes: string -> Writes,
                   name: Name)
    requires (forall fp :: fp in fps ==> fp in s) && (forall fp :: fp in again <==> fp in fps)
    requires DistinctNames(s, fps, lower)
    ensures var (v, w) := (LastWriter(s, fps, lower, writes, name), LastWriter(s, again, lower, writes, name));
            (v.Some? <==> w.Some?) && (v.Some? ==> fps[v.value] == again[w.value])
  {
    hide NameOf;
    LastWriterIsLast(s, fps, lower, writes, name);
    LastWriterIsLast(s, again, lower, writes, name);
    var v, w := LastWriter(s, fps, lower, writes, name), LastWriter(s, again, lower, writes, name);
    hide LastWriter;
    if v.Some? {
      assert fps[v.value] in again;
    }
    if w.Some? {
      assert again[w.value] in fps;
      var k :| 0 <= k < |fps| && fps[k] == again[w.value];
      assert IsWritten(s, lower, writes, name, fps[k]);
      assert v.Some? && NameOf(s[fps[k]], lower) == NameOf(s[fps[v.value]], lower);
    }
  }

  /** A store in which syncing has named the records of fps. */
  function NamedAt(s: State, fps: seq<string>, lower: char -> char): State {
    map fp | fp in s :: if fp in fps then Named(s[fp], lower) else s[fp]
  }

  /** A store after a sync. */
  function AllNamed(s: State, lower: char -> char): State {
    map fp | fp in s :: Named(s[fp], lower)
  }

  lemma NamedSnoc(s: State, fps: seq<string>, fp: string, lower: char -> char)
    requires fp in s
    ensures NamedAt(s, fps + [fp], lower) == NamedAt(s, fps, lower)[fp := Named(s[fp], lower)]
    ensures fp !in fps ==> NamedAt(s, fps, lower)[fp] == s[fp]
  {
    hide Named;
  }

  lemma NamedEverywhere(s: State, fps: seq<string>, lower: char -> char)
    requires forall fp :: fp in s ==> fp in fps
    ensures NamedAt(s, fps, lower) == AllNamed(s, lower)
  {
    hide Named;
  }

  /** In the ledger, a sync of fps is a Synced step for each of them. */
  lemma {:induction false} SyncIsItsSteps(s: State, fps: seq<string>, ops: seq<Op>, lower: char -> char)
    requires forall fp :: fp in fps ==> fp in s
    requires |ops| == |fps| && forall k :: 0 <= k < |fps| ==> ops[k] == Synced(fps[k])
    ensures After(s, ops, lower) == NamedAt(s, fps, lower)
  {
    if fps != [] {
      var n := |fps| - 1;
      SyncIsItsSteps(s, fps[..n], ops[..n], lower);
      assert fps == fps[..n] + [fps[n]];
      NamedSnoc(s, fps[..n], fps[n], lower);
      assert After(s, ops, lower) == Step(NamedAt(s, fps[..n], lower), ops[n], lower);
      NamedTwice(s, fps[..n], fps[n], lower);
      hide *;
    }
  }

  lemma NamedTwice(s: State, fps: seq<string>, fp: string, lower: char -> char)
    requires fp in s
    ensures Step(NamedAt(s, fps, lower), Synced(fp), lower) == NamedAt(s, fps, lower)[fp := Named(s[fp], lower)]
  {
    NameIsShort(s[fp].pattern, s[fp].fingerprint, lower);
    hide CrdName;
  }

  lemma SyncRecordIgnoresNames(cluster: Cluster, r: Record, lower: char -> char, listed: seq<string>, w: Writes)
    ensures SyncRecord(cluster, Named(r, lower), lower, listed, w) == SyncRecord(cluster, r, lower, listed, w)
  {
    hide CrdName;
    hide ToAIAnalysis;
    hide WireTime;
  }

  /** What a sync writes does not depend on the names it caches. */
  lemma {:induction false} SyncIgnoresNames(cluster: Cluster, s: State, fps: seq<string>, lower: char -> char,
                                            listing: Listing, writes: string -> Writes)
    requires forall fp :: fp in fps ==> fp in s
    ensures Sync(cluster, AllNamed(s, lower), fps, lower, listing, writes)
         == Sync(cluster, s, fps, lower, listing, writes)
  {
    hide SyncRecord;
    hide Named;
    if fps != [] {
      var n := |fps| - 1;
      SyncIgnoresNames(cluster, s, fps[..n], lower, listing, writes);
      var before := Sync(cluster, s, fps[..n], lower, listing, writes);
      SyncRecordIgnoresNames(before, s[fps[n]], lower, listing(fps[n]), writes(fps[n]));
    }
  }

  /** No two records of the store have the same namespace and object name. */
  predicate NamesApart(s: State, lower: char -> char) {
    forall p, q :: p in s && q in s && p != q ==> NameOf(s[p], lower) != NameOf(s[q], lower)
  }

  /** Syncing every record once, the names met are distinct if the records' names are. */
  lemma NamesApartAreDistinct(s: State, fps: seq<string>, lower: char -> char)
    requires (forall fp :: fp in fps ==> fp in s) && NoRepeats(fps) && NamesApart(s, lower)
    ensures DistinctNames(s, fps, lower)
  {
    hide NameOf;
  }

  /** fps takes every record once. */
  predicate Covers(fps: seq<string>, s: State) {
    NoRepeats(fps) && (forall fp :: fp in fps ==> fp in s) && (forall fp :: fp in s ==> fp in fps)
  }

  predicate SameObject(a: Cluster, b: Cluster, name: Name) {
    (name in a <==> name in b) && (name in a ==> a[name] == b[name])
  }

  lemma SameObjects(a: Cluster, b: Cluster)
    requires forall name :: SameObject(a, b, name)
    ensures a == b
  {
    assert forall name :: SameObject(a, b, name) ==> (name in a <==> name in b) && (name in a ==> a[name] == b[name]);
  }

  /** What a second sync of the same store makes of one object: its record's pods may come in another order. */
  lemma ResyncedObject(cluster: Cluster, s: State, fps: seq<string>, again: seq<string>, lower: char -> char,
                       listing: Listing, relisting: Listing, writes: string -> Writes, name: Name)
    requires (forall fp :: fp in fps ==> fp in s) && (forall fp :: fp in again <==> fp in fps)
    requires AllWritten(fps, writes) && DistinctNames(s, fps, lower)
    ensures var once := Sync(cluster, s, fps, lower, listing, writes);
            var (twice, w) := (Sync(once, s, again, lower, relisting, writes), LastWriter(s, fps, lower, writes, name));
            if w.None? then SameObject(twice, once, name)
            else
              var fp := fps[w.value];
              && name in once && name in twice && twice[name] == Relisted(once[name], s[fp], relisting(fp))
              && (twice[name] == once[name] <==> relisting(fp) == listing(fp))
  {
    var once := Sync(cluster, s, fps, lower, listing, writes);
    assert AllWritten(again, writes);
    hide Sync;
    hide LastWriter;
    hide Written;
    hide DistinctNames;
    hide AllWritten;
    SyncedObject(cluster, s, fps, lower, listing, writes, name);
    SyncedObject(once, s, again, lower, relisting, writes, name);
    SameWriter(s, fps, again, lower, writes, name);
    var w := LastWriter(s, fps, lower, writes, name);
    if w.Some? {
      var fp := fps[w.value];
      SyncLeavesTheRest(once, s, again, lower, relisting, writes, name);
      var i :| once[name] == Written(i, s[fp], listing(fp));
      var j :| Sync(once, s, again, lower, relisting, writes)[name] == Written(j, s[fp], relisting(fp));
      WrittenIsDetermined(j, i, s[fp], listing(fp), relisting(fp));
    }
  }

  /** Between two states of the cluster, the object of fp's record has its pods listed anew. */
  predicate RelistedAt(once: Cluster, twice: Cluster, s: State, lower: char -> char, listing: Listing,
                       relisting: Listing, fp: string)
    requires fp in s
  {
    var name := NameOf(s[fp], lower);
    && name in once && name in twice && twice[name] == Relisted(once[name], s[fp], relisting(fp))
    && (twice[name] == once[name] <==> relisting(fp) == listing(fp))
  }

  /** Between two states of the cluster, nothing happens to an object that is no record's. */
  ghost predicate KeptUnlessOwned(once: Cluster, twice: Cluster, s: State, lower: char -> char, name: Name) {
    (forall fp :: fp in s ==> NameOf(s[fp], lower) != name) ==> SameObject(twice, once, name)
  }

  lemma ResyncedRecord(cluster: Cluster, s: State, fps: seq<string>, again: seq<string>, lower: char -> char,
                       listing: Listing, relisting: Listing, writes: string -> Writes, fp: string)
    requires Covers(fps, s) && Covers(again, s) && AllWritten(fps, writes) && DistinctNames(s, fps, lower) && fp in s
    ensures var once := Sync(cluster, s, fps, lower, listing, writes);
            RelistedAt(once, Sync(once, s, again, lower, relisting, writes), s, lower, listing, relisting, fp)
  {
    hide Sync;
    hide LastWriter;
    hide NameOf;
    hide Relisted;
    assert writes(fp) == BothWritten;
    hide AllWritten;
    DistinctNamesSurvive(s, fps, lower, writes, fp);
    hide DistinctNames;
    ResyncedObject(cluster, s, fps, again, lower, listing, relisting, writes, NameOf(s[fp], lower));
  }

  lemma ResyncedOther(cluster: Cluster, s: State, fps: seq<string>, again: seq<string>, lower: char -> char,
                      listing: Listing, relisting: Listing, writes: string -> Writes, name: Name)
    requires Covers(fps, s) && Covers(again, s) && AllWritten(fps, writes) && DistinctNames(s, fps, lower)
    ensures var once := Sync(cluster, s, fps, lower, listing, writes);
            KeptUnlessOwned(once, Sync(once, s, again, lower, relisting, writes), s, lower, name)
  {
    hide Sync;
    hide LastWriter;
    hide NameOf;
    hide Relisted;
    hide AllWritten;
    hide DistinctNames;
    LastWriterIsLast(s, fps, lower, writes, name);
    ResyncedObject(cluster, s, fps, again, lower, listing, relisting, writes, name);
  }

  /**
   The next sync of an unchanged store, after one complete sync of records with distinct object names: every
   record's object is as before except that its pods are listed in the order of this sync, and it is the same
   object iff that is the order of the first sync; the other objects are as before.
   */
  lemma ResyncOnlyRelists(cluster: Cluster, s: State, fps: seq<string>, again: seq<string>, lower: char -> char,
                          listing: Listing, relisting: Listing, writes: string -> Writes)
    requires Covers(fps, s) && Covers(again, s) && AllWritten(fps, writes) && NamesApart(s, lower)
    ensures var once := Sync(cluster, s, fps, lower, listing, writes);
            var twice := Sync(once, AllNamed(s, lower), again, lower, relisting, writes);
            && (forall fp :: fp in s ==> RelistedAt(once, twice, s, lower, listing, relisting, fp))
            && forall name :: KeptUnlessOwned(once, twice, s, lower, name)
  {
    var once := Sync(cluster, s, fps, lower, listing, writes);
    NamesApartAreDistinct(s, fps, lower);
    SyncIgnoresNames(once, s, again, lower, relisting, writes);
    hide *;
    forall fp | fp in s
      ensures RelistedAt(once, Sync(once, s, again, lower, relisting, writes), s, lower, listing, relisting, fp)
    {
      ResyncedRecord(cluster, s, fps, again, lower, listing, relisting, writes, fp);
    }
    forall name
      ensures KeptUnlessOwned(once, Sync(once, s, again, lower, relisting, writes), s, lower, name)
    {
      ResyncedOther(cluster, s, fps, again, lower, listing, relisting, writes, name);
    }
  }

  lemma QuietIfListedAlike(once: Cluster, twice: Cluster, s: State, lower: char -> char, listing: Listing,
                           relisting: Listing)
    requires forall fp :: fp in s ==> RelistedAt(once, twice, s, lower, listing, relisting, fp)
    requires forall name :: KeptUnlessOwned(once, twice, s, lower, name)
    ensures twice == once <==> forall fp :: fp in s ==> relisting(fp) == listing(fp)
  {
    hide NameOf;
    hide Relisted;
    if forall fp :: fp in s ==> relisting(fp) == listing(fp) {
      forall name ensures SameObject(twice, once, name) {
        if fp :| fp in s && NameOf(s[fp], lower) == name {
          assert RelistedAt(once, twice, s, lower, listing, relisting, fp);
        } else {
          assert KeptUnlessOwned(once, twice, s, lower, name);
        }
      }
      SameObjects(twice, once);
    } else {
      var fp :| fp in s && relisting(fp) != listing(fp);
      assert RelistedAt(once, twice, s, lower, listing, relisting, fp);
    }
  }

  /** So it changes no object iff it lists the pods of every record in the order the first sync did. */
  lemma ResyncChangesNothing(cluster: Cluster, s: State, fps: seq<string>, again: seq<string>, lower: char -> char,
                             listing: Listing, relisting: Listing, writes: string -> Writes)
    requires Covers(fps, s) && Covers(again, s) && AllWritten(fps, writes) && NamesApart(s, lower)
    ensures var once := Sync(cluster, s, fps, lower, listing, writes);
            Sync(once, AllNamed(s, lower), again, lower, relisting, writes) == once
            <==> forall fp :: fp in s ==> relisting(fp) == listing(fp)
  {
    var once := Sync(cluster, s, fps, lower, listing, writes);
    assert forall fp :: fp in again ==> fp in AllNamed(s, lower);
    hide *;
    ResyncOnlyRelists(cluster, s, fps, again, lower, listing, relisting, writes);
    var twice := Sync(once, AllNamed(s, lower), again, lower, relisting, writes);
    QuietIfListedAlike(once, twice, s, lower, listing, relisting);
  }

  /** If two records share a name, some order of the next sync rewrites their object. */
  lemma ResyncNeedsNamesApart(cluster: Cluster, s: State, fps: seq<string>, lower: char -> char, listing: Listing,
                              writes: string -> Writes) returns (again: seq<string>)
    requires Covers(fps, s) && AllWritten(fps, writes) && WellKeyed(s) && !NamesApart(s, lower)
    ensures Covers(again, s)
    ensures var once := Sync(cluster, s, fps, lower, listing, writes);
            Sync(once, AllNamed(s, lower), again, lower, listing, writes) != once
  {
    var p, q :| p in s && q in s && p != q && NameOf(s[p], lower) == NameOf(s[q], lower);
    var name, once := NameOf(s[p], lower), Sync(cluster, s, fps, lower, listing, writes);
    hide NameOf;
    SyncedObject(cluster, s, fps, lower, listing, writes, name);
    LastWriterIsLast(s, fps, lower, writes, name);
    var k :| 0 <= k < |fps| && fps[k] == p;
    var w := LastWriter(s, fps, lower, writes, name);
    hide LastWriter;
    assert w.Some?;
    var x := if fps[w.value] == p then q else p;
    again := MoveLast(fps, x);
    assert writes(x) == BothWritten;
    hide *;
    SyncIgnoresNames(once, s, again, lower, listing, writes);
    LastSynced(once, s, again, lower, listing, writes);
    LabelOfWritten(s, fps[w.value], listing(fps[w.value]));
    LabelOfWritten(s, x, listing(x));
    CoversAgain(again, fps, s);
  }

  lemma CoversAgain(again: seq<string>, fps: seq<string>, s: State)
    requires Covers(fps, s) && NoRepeats(again) && forall fp :: fp in again <==> fp in fps
    ensures Covers(again, s)
  {
  }

  lemma MoveLast(fps: seq<string>, x: string) returns (again: seq<string>)
    requires NoRepeats(fps) && x in fps
    ensures NoRepeats(again) && again != [] && again[|again| - 1] == x && forall fp :: fp in again <==> fp in fps
  {
    var k :| 0 <= k < |fps| && fps[k] == x;
    again := Without(fps, k) + [x];
    assert forall i :: 0 <= i < |fps| - 1 ==> again[i] == fps[if i < k then i else i + 1];
    forall fp | fp in fps
      ensures fp in again
    {
      var i :| 0 <= i < |fps| && fps[i] == fp;
      assert fp == again[if i < k then i else if i == k then |fps| - 1 else i - 1];
    }
  }

  /** The record synced last is the one its object shows. */
  lemma LastSynced(cluster: Cluster, s: State, fps: seq<string>, lower: char -> char, listing: Listing,
                   writes: string -> Writes)
    requires (forall fp :: fp in fps ==> fp in s) && fps != [] && writes(fps[|fps| - 1]) == BothWritten
    ensures var (fp, after) := (fps[|fps| - 1], Sync(cluster, s, fps, lower, listing, writes));
            var name := NameOf(s[fp], lower);
            name in after && exists i :: after[name] == Written(i, s[fp], listing(fp))
  {
    hide NameOf;
    hide Written;
    var n := |fps| - 1;
    var before := Sync(cluster, s, fps[..n], lower, listing, writes);
    var name := NameOf(s[fps[n]], lower);
    assert Sync(cluster, s, fps, lower, listing, writes)[name]
        == Written(Current(before, name), s[fps[n]], listing(fps[n]));
  }

  lemma LabelOfWritten(s: State, fp: string, listed: seq<string>)
    requires WellKeyed(s) && fp in s
    ensures forall i :: FingerprintLabel in Written(i, s[fp], listed).labels
                        && Written(i, s[fp], listed).labels[FingerprintLabel] == fp
  {
    hide StatusOf;
  }

  /** At most one pod can be listed in one way only. */
  lemma OnePodOneListing(listed: seq<string>, relisted: seq<string>, pods: set<string>)
    requires ListsOnce(listed, pods) && ListsOnce(relisted, pods) && |pods| <= 1
    ensures listed == relisted
  {
    if x :| x in pods {
      SingletonListing(listed, pods, x);
      SingletonListing(relisted, pods, x);
    } else {
      NothingListed(listed, pods);
      NothingListed(relisted, pods);
    }
  }

  lemma NothingListed(listed: seq<string>, pods: set<string>)
    requires ListsOnce(listed, pods) && pods == {}
    ensures listed == []
  {
    if listed != [] { FirstIsPod(listed, pods); }
  }

  lemma FirstIsPod(listed: seq<string>, pods: set<string>)
    requires ListsOnce(listed, pods) && listed != []
    ensures listed[0] in pods
    ensures |listed| > 1 ==> |pods| > 1
  {
    assert listed[0] in listed;
    if |listed| > 1 {
      assert listed[1] in listed;
      SubsetSize({listed[0], listed[1]}, pods);
    }
  }

  lemma SingletonListing(listed: seq<string>, pods: set<string>, x: string)
    requires ListsOnce(listed, pods) && |pods| <= 1 && x in pods
    ensures listed == [x]
  {
    forall y | y in pods
      ensures y == x
    {
      if y != x { SubsetSize({x, y}, pods); }
    }
    FirstIsPod(listed, pods);
  }

  /** Two pods or more can be listed in another order. */
  lemma AnotherListing(listed: seq<string>, pods: set<string>) returns (relisted: seq<string>)
    requires ListsOnce(listed, pods) && |pods| >= 2
    ensures ListsOnce(relisted, pods) && relisted != listed
  {
    assert |listed| >= 2 by {
      if |listed| <= 1 { FewListed(listed, pods); }
    }
    relisted := MoveLast(listed, listed[0]);
    assert listed[|listed| - 1] != listed[0];
  }

  lemma FewListed(listed: seq<string>, pods: set<string>)
    requires ListsOnce(listed, pods) && |listed| <= 1
    ensures |pods| <= 1
  {
    var all := if listed == [] then {} else {listed[0]};
    assert pods == all;
  }

  /** Whatever order it takes the records and their pods in, the next sync of the store changes no object. */
  ghost predicate NextSyncIsQuiet(once: Cluster, s: State, lower: char -> char, writes: string -> Writes) {
    forall again: seq<string>, relisting: Listing | Covers(again, s) && ListsAll(relisting, s) ::
      Sync(once, AllNamed(s, lower), again, lower, relisting, writes) == once
  }

  /**
   Exactly when the periodic sync is idempotent: after one complete sync, the next one changes no object, in
   every order of the records and of their pods, iff no two records share a namespace and object name and no
   record has more than one pod.
   */
  lemma QuietExactly(cluster: Cluster, s: State, fps: seq<string>, lower: char -> char, listing: Listing,
                     writes: string -> Writes)
    requires Covers(fps, s) && AllWritten(fps, writes) && WellKeyed(s) && ListsAll(listing, s)
    ensures NextSyncIsQuiet(Sync(cluster, s, fps, lower, listing, writes), s, lower, writes)
       <==> NamesApart(s, lower) && forall fp :: fp in s ==> |s[fp].pods| <= 1
  {
    var once := Sync(cluster, s, fps, lower, listing, writes);
    hide *;
    if !NamesApart(s, lower) {
      var again := ResyncNeedsNamesApart(cluster, s, fps, lower, listing, writes);
      LoudOrder(once, s, lower, writes, again, listing);
    } else if fp :| fp in s && |s[fp].pods| > 1 {
      var relisting := RelistOne(s, listing, fp);
      CoveredAfterNaming(fps, s, lower);
      ResyncChangesNothing(cluster, s, fps, fps, lower, listing, relisting, writes);
      LoudOrder(once, s, lower, writes, fps, relisting);
    } else {
      FewPodsAreQuiet(cluster, s, fps, lower, listing, writes);
    }
  }

  lemma CoveredAfterNaming(fps: seq<string>, s: State, lower: char -> char)
    requires Covers(fps, s)
    ensures forall fp :: fp in fps ==> fp in AllNamed(s, lower)
  {
  }

  lemma LoudOrder(once: Cluster, s: State, lower: char -> char, writes: string -> Writes, again: seq<string>,
                  relisting: Listing)
    requires Covers(again, s) && ListsAll(relisting, s)
    requires Sync(once, AllNamed(s, lower), again, lower, relisting, writes) != once
    ensures !NextSyncIsQuiet(once, s, lower, writes)
  {
    hide Sync;
  }

  lemma RelistOne(s: State, listing: Listing, fp: string) returns (relisting: Listing)
    requires ListsAll(listing, s) && fp in s && |s[fp].pods| > 1
    ensures ListsAll(relisting, s) && relisting(fp) != listing(fp)
  {
    var relisted := AnotherListing(listing(fp), s[fp].pods);
    relisting := x => if x == fp then relisted else listing(x);
  }

  lemma SameListings(s: State, listing: Listing, relisting: Listing)
    requires ListsAll(listing, s) && ListsAll(relisting, s) && forall fp :: fp in s ==> |s[fp].pods| <= 1
    ensures forall fp :: fp in s ==> relisting(fp) == listing(fp)
  {
    forall fp | fp in s ensures relisting(fp) == listing(fp) {
      OnePodOneListing(listing(fp), relisting(fp), s[fp].pods);
    }
  }

  lemma FewPodsAreQuiet(cluster: Cluster, s: State, fps: seq<string>, lower: char -> char, listing: Listing,
                        writes: string -> Writes)
    requires Covers(fps, s) && AllWritten(fps, writes) && ListsAll(listing, s) && NamesApart(s, lower)
    requires forall fp :: fp in s ==> |s[fp].pods| <= 1
    ensures NextSyncIsQuiet(Sync(cluster, s, fps, lower, listing, writes), s, lower, writes)
  {
    hide Sync;
    hide NamesApart;
    hide AllWritten;
    hide ListsAll;
    var once := Sync(cluster, s, fps, lower, listing, writes);
    forall again: seq<string>, relisting: Listing | Covers(again, s) && ListsAll(relisting, s)
      ensures Sync(once, AllNamed(s, lower), again, lower, relisting, writes) == once
    {
      SameListings(s, listing, relisting);
      ResyncChangesNothing(cluster, s, fps, again, lower, listing, relisting, writes);
    }
  }

  /** One record with two pods is enough for two syncs in a row to differ. */
  lemma TwoPodsCanBeReordered(fp: string, r: Record, lower: char -> char, cluster: Cluster)
    requires r.fingerprint == fp && r.pods == {"a", "b"}
    ensures var (s, written) := (map[fp := r], (_: string) => BothWritten);
            var (first, second) := ((_: string) => ["a", "b"], (_: string) => ["b", "a"]);
            var once := Sync(cluster, s, [fp], lower, first, written);
            && NamesApart(s, lower) && ListsAll(first, s) && ListsAll(second, s)
            && Sync(once, AllNamed(s, lower), [fp], lower, second, written) != once
  {
    var s, written := map[fp := r], (_: string) => BothWritten;
    var first, second := (_: string) => ["a", "b"], (_: string) => ["b", "a"];
    hide NameOf;
    assert Covers([fp], s) && AllWritten([fp], written) && NamesApart(s, lower);
    assert ["a", "b"][0] != ["b", "a"][0];
    ResyncChangesNothing(cluster, s, [fp], [fp], lower, first, second, written);
  }

  /**
   A restart between a sync, with whatever writes the server accepts, and any further run, syncs included, in any
   cluster where the record's own object is the last active one with its fingerprint: the restored record goes on
   counting where it was, keeps its object name, and none of its later events starts a new incident, hence no
   second analysis.
   */
  lemma RestartContinues(cluster: Cluster, s: State, fps: seq<string>, lower: char -> char, listing: Listing,
                         writes: string -> Writes, items: seq<(Name, Incident)>, fp: string, ops: seq<Op>)
    requires (forall x :: x in fps ==> x in s) && fp in fps && WellKeyed(s) && ListsAll(listing, s)
    requires ListOf(items, Sync(cluster, s, fps, lower, listing, writes))
    requires LastCarrier(items, fp).Some? && items[LastCarrier(items, fp).value].0 == NameOf(s[fp], lower)
    ensures var (loaded, restored) := (Load(map[], items), Restored(cluster, s, fps, lower, writes, fp));
            && fp in After(loaded, ops, lower)
            && AccountsFor(After(loaded, ops, lower)[fp], restored, EventsOf(ops, fp))
            && After(loaded, ops, lower)[fp].crdName == CrdName(s[fp].pattern, s[fp].fingerprint, lower)
            && forall i :: 0 <= i < |ops| && ops[i].Event? && ops[i].fp == fp ==>
                 !IsNew(After(loaded, ops[..i], lower), ops[i])
  {
    var loaded, restored := Load(map[], items), Restored(cluster, s, fps, lower, writes, fp);
    RoundTrip(cluster, s, fps, lower, listing, writes, items, fp);
    StoreAccounting(loaded, ops, fp, lower);
    assert Start(loaded, ops, fp) == Some(loaded[fp]);
    assert restored.crdName == CrdName(s[fp].pattern, s[fp].fingerprint, lower);
    DerivedNameStays(restored, s[fp], WasSynced(loaded, ops, fp, lower), lower);
    hide *;
    forall i | 0 <= i < |ops| && ops[i].Event? && ops[i].fp == fp
      ensures !IsNew(After(loaded, ops[..i], lower), ops[i])
    {
      NewMeansFirst(loaded, ops, i, lower);
    }
  }

  lemma DerivedNameStays(restored: Record, r: Record, synced: bool, lower: char -> char)
    requires restored.crdName == CrdName(r.pattern, r.fingerprint, lower)
    ensures NameOnceSynced(restored, synced, lower) == restored.crdName
  {
    NameIsShort(r.pattern, r.fingerprint, lower);
  }
}
