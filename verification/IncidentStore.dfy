/**
 The incident store's objects and methods (internal/aggregator/incident_store.go): live records updated
 in place, proved to do exactly what IncidentLedger and IncidentSync specify. Clock readings and the
 outcomes of API writes are parameters; the store's lock makes each method one atomic step.
 */
module IncidentStore {
  import opened Basics
  import opened IncidentLedger
  import opened IncidentSync
  import opened IncidentNames
  import SW = SlidingWindows

  /** IncidentRecord */
  class IncidentRecord {
    var fingerprint: string
    var pattern: string
    var sampleMessage: string
    var namespace: string
    var policyName: string
    var count: int
    var affectedPods: set<string>
    var firstSeen: int
    var lastSeen: int
    var severity: string
    var resolved: bool
    var crdName: string
    var frequencyWindows: map<SW.Window, seq<int>>
    var analysis: Option<Analysis>

    /** The times of a window; a missing entry reads as an empty slice. */
    function Times(w: SW.Window): seq<int>
      reads this
    {
      if w in frequencyWindows then frequencyWindows[w] else []
    }

    ghost function Abs(): Record
      reads this
    {
      Record(fingerprint, pattern, sampleMessage, namespace, policyName, count, affectedPods, firstSeen, lastSeen,
             severity, resolved, crdName, Frequency(Times(SW.M1), Times(SW.M5), Times(SW.M15)), analysis)
    }

    constructor (r: Record)
      requires r.windows == NO_TIMES
      ensures Abs() == r
    {
      fingerprint, pattern, sampleMessage := r.fingerprint, r.pattern, r.sample;
      namespace, policyName := r.namespace, r.policy;
      count, affectedPods, firstSeen, lastSeen := r.count, r.pods, r.firstSeen, r.lastSeen;
      severity, resolved, crdName, frequencyWindows, analysis := r.severity, r.resolved, r.crdName, map[], r.analysis;
    }

    lemma Fields()
      ensures fingerprint == Abs().fingerprint && pattern == Abs().pattern && sampleMessage == Abs().sample
      ensures namespace == Abs().namespace && policyName == Abs().policy && count == Abs().count
      ensures affectedPods == Abs().pods && firstSeen == Abs().firstSeen && lastSeen == Abs().lastSeen
      ensures severity == Abs().severity && resolved == Abs().resolved && analysis == Abs().analysis
    {
    }

    /** The dynamic part of RecordEvent. */
    method Observe(pod: string, now: int)
      modifies this
      ensures Abs() == Counted(old(Abs()), pod, now)
    {
      AppendTimes(now);
      count := count + 1;
      lastSeen := now;
      if pod != "" {
        affectedPods := affectedPods + {pod};
      }
    }

    /** The loop over the three windows, written out. */
    method AppendTimes(now: int)
      modifies `frequencyWindows
      ensures Times(SW.M1) == old(Times(SW.M1)) + [now]
      ensures Times(SW.M5) == old(Times(SW.M5)) + [now]
      ensures Times(SW.M15) == old(Times(SW.M15)) + [now]
    {
      AppendTime(SW.M1, now);
      AppendTime(SW.M5, now);
      AppendTime(SW.M15, now);
    }

    method AppendTime(w: SW.Window, now: int)
      modifies `frequencyWindows
      ensures Times(w) == old(Times(w)) + [now]
      ensures forall v: SW.Window :: v != w ==> Times(v) == old(Times(v))
    {
      frequencyWindows := frequencyWindows[w := Times(w) + [now]];
    }
  }

  /** The API server: objects by namespace and name. */
  class ApiServer {
    var objects: Cluster

    constructor (objects: Cluster)
      ensures this.objects == objects
    {
      this.objects := objects;
    }

    /** CreateOrPatch with syncRecord's mutation */
    method CreateOrPatch(name: Name, r: IncidentRecord, accepted: bool) returns (ok: bool)
      modifies this
      ensures ok == accepted
      ensures objects == if ok then old(objects)[name := Labelled(Current(old(objects), name), r.Abs())]
                         else old(objects)
    {
      if accepted {
        var current := if name in objects then objects[name] else BLANK;
        var labels := current.labels;
        labels := labels[FingerprintLabel := r.fingerprint];
        labels := labels[PolicyLabel := r.policyName];
        labels := labels[NamespaceLabel := r.namespace];
        objects := objects[name := current.(labels := labels)];
      }
      return accepted;
    }

    /** The status sub-resource patch of syncStatus */
    method PatchStatus(name: Name, status: Status, accepted: bool) returns (ok: bool)
      requires name in objects
      modifies this
      ensures ok == accepted
      ensures objects == if ok then old(objects)[name := old(objects)[name].(status := status)] else old(objects)
    {
      if accepted {
        objects := objects[name := objects[name].(status := status)];
      }
      return accepted;
    }
  }

  /** affectedPodsToResources; the order listed in which the map is walked is arbitrary. */
  method AffectedPodsToResources(namespace: string, pods: set<string>)
    returns (out: seq<Resource>, ghost listed: seq<string>)
    ensures |out| == |pods| && forall r :: r in out <==> r == Resource("Pod", r.name, namespace) && r.name in pods
    ensures ListsOnce(listed, pods) && out == PodsToResources(namespace, listed)
  {
    hide ListsOnce;
    hide PodsToResources;
    var todo := pods;
    out, listed := [], [];
    NoneListed(namespace);
    assert pods - todo == {};
    while todo != {}
      invariant todo <= pods && |listed| + |todo| == |pods|
      invariant ListsOnce(listed, pods - todo) && out == PodsToResources(namespace, listed)
      decreases |todo|
    {
      var pod :| pod in todo;
      ListsOneMore(listed, pods - todo, pod);
      ResourcesSnoc(namespace, listed, pod);
      assert pods - (todo - {pod}) == pods - todo + {pod};
      todo := todo - {pod};
      out, listed := out + [Resource("Pod", pod, namespace)], listed + [pod];
    }
    assert pods - {} == pods;
    PodsListed(namespace, listed, pods);
  }

  lemma NoneListed(namespace: string)
    ensures ListsOnce([], {}) && PodsToResources(namespace, []) == []
  {
  }

  lemma PodsListed(namespace: string, listed: seq<string>, pods: set<string>)
    requires ListsOnce(listed, pods)
    ensures |PodsToResources(namespace, listed)| == |listed|
    ensures forall r :: r in PodsToResources(namespace, listed) <==>
              r == Resource("Pod", r.name, namespace) && r.name in pods
  {
    var out := PodsToResources(namespace, listed);
    forall p | p in pods
      ensures Resource("Pod", p, namespace) in out
    {
      var i :| 0 <= i < |listed| && listed[i] == p;
      assert out[i] == Resource("Pod", p, namespace);
    }
    assert forall i :: 0 <= i < |listed| ==> listed[i] in pods;
  }

  lemma ResourcesSnoc(namespace: string, listed: seq<string>, pod: string)
    ensures PodsToResources(namespace, listed + [pod])
         == PodsToResources(namespace, listed) + [Resource("Pod", pod, namespace)]
  {
  }

  lemma ListsOneMore(listed: seq<string>, pods: set<string>, pod: string)
    requires ListsOnce(listed, pods) && pod !in pods
    ensures ListsOnce(listed + [pod], pods + {pod})
  {
    assert forall k :: 0 <= k < |listed| ==> listed[k] in pods;
  }

  /** The pods among an object's affected resources. */
  method LoadPods(resources: seq<Resource>) returns (pods: set<string>)
    ensures pods == PodsIn(resources)
  {
    pods := {};
    for n := 0 to |resources|
      invariant pods == PodsIn(resources[..n])
    {
      PodsSnoc(resources[..n], resources[n]);
      assert resources[..n + 1] == resources[..n] + [resources[n]];
      if resources[n].kind == "Pod" {
        pods := pods + {resources[n].name};
      }
    }
    assert resources[..|resources|] == resources;
  }

  lemma PodsSnoc(resources: seq<Resource>, r: Resource)
    ensures PodsIn(resources + [r]) == PodsIn(resources) + if r.kind == "Pod" then {r.name} else {}
  {
  }

  /** The texts of the recommended actions of a loaded analysis. */
  method LoadActions(actions: seq<Action>) returns (texts: seq<string>)
    ensures texts == FromActions(actions)
  {
    texts := [];
    for n := 0 to |actions|
      invariant |texts| == n && forall k :: 0 <= k < n ==> texts[k] == actions[k].action
    {
      texts := texts + [actions[n].action];
    }
  }

  /** The record LoadExistingIncidents builds from one object. */
  method Reconstruct(name: Name, i: Incident) returns (r: Record)
    ensures r == Recovered(name, i) && ReadsObject(r, name, i)
  {
    RecoveredReads(name, i);
    hide ReadsObject;
    hide PodsIn;
    hide FromActions;
    hide FromWire;
    var st := i.status;
    var pods := LoadPods(st.resources);
    var analysis: Option<Analysis> := None;
    if st.analysis.Some? {
      var a := st.analysis.value;
      var texts := LoadActions(a.actions);
      analysis := Some(Analysis(a.rootCause, a.confidence, a.impact, a.severity, texts, a.runbooks, a.source,
                                a.tokensUsed));
    }
    r := Record(st.fingerprint, st.pattern, st.sample, name.namespace, st.policyRef, st.count, pods,
                FromWire(st.firstSeen), FromWire(st.lastSeen), st.severity, st.resolved, name.name, NO_TIMES, analysis);
  }

  /** IncidentStore */
  class IncidentStore {
    var records: map<string, IncidentRecord>

    /** strings.ToLower */
    const lower: char -> char

    ghost function Objects(): set<IncidentRecord>
      reads this
    {
      set fp | fp in records :: records[fp]
    }

    /** No record is shared by two fingerprints. */
    ghost predicate Valid()
      reads this
    {
      forall p, q :: p in records && q in records && p != q ==> records[p] != records[q]
    }

    ghost function Abs(): State
      reads this, Objects()
    {
      map fp | fp in records :: records[fp].Abs()
    }

    constructor (lower: char -> char)
      ensures Valid() && Abs() == map[] && this.lower == lower
    {
      records := map[];
      this.lower := lower;
    }

    /** Put a fresh record under fp. */
    method Insert(fp: string, r: Record) returns (rec: IncidentRecord)
      requires Valid() && r.windows == NO_TIMES
      modifies this
      ensures Valid() && fresh(rec) && records == old(records)[fp := rec] && Abs() == old(Abs())[fp := r]
    {
      hide NewRecord;
      rec := new IncidentRecord(r);
      records := records[fp := rec];
    }

    /** RecordEvent; the result is the live record. */
    method RecordEvent(namespace: string, policy: string, fp: string, pattern: string, sample: string, pod: string,
                       now: int)
      returns (rec: IncidentRecord, isNew: bool)
      requires Valid()
      modifies this, Objects()
      ensures Valid() && fp in records && rec == records[fp] && (isNew ==> fresh(rec))
      ensures forall p :: p in old(records) ==> p in records && records[p] == old(records)[p]
      ensures var op := Event(namespace, policy, fp, pattern, sample, pod, now);
              Abs() == Step(old(Abs()), op, lower) && isNew == IsNew(old(Abs()), op)
      ensures isNew ==>
                && rec.fingerprint == fp && rec.pattern == pattern && rec.sampleMessage == sample
                && rec.namespace == namespace && rec.policyName == policy && rec.firstSeen == now && !rec.resolved
                && rec.severity == "low" && rec.count == 1 && rec.lastSeen == now
                && rec.affectedPods == (if pod == "" then {} else {pod})
    {
      hide *;
      rec, isNew := FindOrInsert(Event(namespace, policy, fp, pattern, sample, pod, now));
      label Found:
      AbsOf(fp);
      assert isNew || rec in old(Objects());
      rec.Observe(pod, now);
      OneChanged@Found(fp);
      SameRecords@Found();
      EventStep(old(Abs()), Event(namespace, policy, fp, pattern, sample, pod, now));
      if isNew {
        FirstFields(old(Abs()), namespace, policy, fp, pattern, sample, pod, now);
        AbsOf(fp);
        rec.Fields();
      }
    }

    lemma FirstFields(s: State, namespace: string, policy: string, fp: string, pattern: string, sample: string,
                      pod: string, now: int)
      requires IsNew(s, Event(namespace, policy, fp, pattern, sample, pod, now))
      ensures var next := Step(s, Event(namespace, policy, fp, pattern, sample, pod, now), lower);
              && fp in next && next[fp].fingerprint == fp && next[fp].pattern == pattern && next[fp].sample == sample
              && next[fp].namespace == namespace && next[fp].policy == policy && next[fp].firstSeen == now
              && !next[fp].resolved && next[fp].severity == "low" && next[fp].count == 1 && next[fp].lastSeen == now
              && next[fp].pods == if pod == "" then {} else {pod}
    {
      AfterFirstEvent(s, Event(namespace, policy, fp, pattern, sample, pod, now), lower);
      hide Step;
    }

    /** The first half of RecordEvent: look the fingerprint up, or start a record for it. */
    method FindOrInsert(op: Op) returns (rec: IncidentRecord, isNew: bool)
      requires Valid() && op.Event?
      modifies this
      ensures Valid() && op.fp in records && rec == records[op.fp]
      ensures if isNew then fresh(rec) else rec in old(Objects())
      ensures forall p :: p in old(records) ==> p in records && records[p] == old(records)[p]
      ensures isNew == (op.fp !in old(Abs()))
      ensures Abs() == if isNew then old(Abs())[op.fp := NewRecord(op)] else old(Abs())
    {
      isNew := op.fp !in records;
      if isNew {
        rec := Insert(op.fp, NewRecord(op));
      } else {
        rec := records[op.fp];
      }
    }

    lemma EventStep(s: State, op: Op)
      requires op.Event?
      ensures IsNew(s, op) <==> op.fp !in s
      ensures var placed := if op.fp !in s then s[op.fp := NewRecord(op)] else s;
              Step(s, op, lower) == placed[op.fp := Counted(placed[op.fp], op.pod, op.now)]
    {
      hide Counted;
      hide NewRecord;
    }

    /** Updating one record in place leaves the others as they were. */
    twostate lemma OneChanged(fp: string)
      requires old(Valid()) && records == old(records) && fp in records
      requires forall p :: p in records && p != fp ==> unchanged(records[p])
      ensures Abs() == old(Abs())[fp := records[fp].Abs()]
    {
    }

    /** GetOrCreate */
    method GetOrCreate(fp: string, now: int) returns (rec: IncidentRecord)
      requires Valid()
      modifies this
      ensures Valid() && fp in records && rec == records[fp]
      ensures Abs() == Step(old(Abs()), Op.GetOrCreate(fp, now), lower)
    {
      if fp in records {
        return records[fp];
      }
      rec := Insert(fp, Placeholder(fp, now));
    }

    /** UpdateSeverityAndAnalysis; a nil analysis is None. */
    method UpdateSeverityAndAnalysis(fp: string, severity: string, analysis: Option<Analysis>)
      requires Valid()
      modifies Objects()
      ensures Valid() && records == old(records)
      ensures Abs() == Step(old(Abs()), Analysed(fp, severity, analysis), lower)
    {
      if analysis.None? || fp !in records {
        return;
      }
      var rec := records[fp];
      if severity != "" {
        rec.severity := severity;
      }
      rec.analysis := analysis;
      OneChanged(fp);
    }

    /** syncRecord; writes says which of the two API writes the server takes. */
    method SyncRecord(server: ApiServer, rec: IncidentRecord, writes: Writes)
      returns (ok: bool, ghost listed: seq<string>)
      modifies server, rec
      ensures rec.Abs() == Named(old(rec.Abs()), lower) && ListsOnce(listed, rec.affectedPods)
      ensures server.objects == IncidentSync.SyncRecord(old(server.objects), old(rec.Abs()), lower, listed, writes)
      ensures ok == writes.BothWritten?
      ensures ok ==>
                var name := Name(rec.namespace, CrdName(rec.pattern, rec.fingerprint, lower));
                && name in server.objects && HasLabelsOf(server.objects[name], rec.Abs())
                && ShowsRecord(server.objects[name].status, rec.Abs(), listed)
    {
      hide CrdName;
      hide StatusOf;
      hide ShowsRecord;
      var crdName := CrdName(rec.pattern, rec.fingerprint, lower);
      if rec.crdName == "" {
        rec.crdName := crdName;
      }
      var name := Name(rec.namespace, crdName);
      ok := server.CreateOrPatch(name, rec, !writes.CreateFailed?);
      if ok {
        label Created:
        ok, listed := SyncStatus(server, rec, name, writes.BothWritten?);
        StatusIgnoresName(old(rec.Abs()), old@Created(server.objects)[name].status, lower, listed);
      } else {
        listed := SomeListing(rec.affectedPods);
      }
    }

    lemma StatusIgnoresName(r: Record, current: Status, lower: char -> char, listed: seq<string>)
      ensures StatusOf(Named(r, lower), current, listed) == StatusOf(r, current, listed)
    {
    }

    /** Pods can be listed, also when a failed write keeps them from being. */
    lemma SomeListing(pods: set<string>) returns (listed: seq<string>)
      ensures ListsOnce(listed, pods)
    {
      if pod :| pod in pods {
        listed := SomeListing(pods - {pod});
        ListsOneMore(listed, pods - {pod}, pod);
        assert pods - {pod} + {pod} == pods;
        listed := listed + [pod];
      } else {
        listed := [];
      }
    }

    /** syncStatus */
    method SyncStatus(server: ApiServer, rec: IncidentRecord, name: Name, accepted: bool)
      returns (ok: bool, ghost listed: seq<string>)
      requires name in server.objects
      modifies server
      ensures ok == accepted && ListsOnce(listed, rec.affectedPods)
      ensures server.objects == if ok then old(server.objects)[name := old(server.objects)[name].(status :=
                                  StatusOf(rec.Abs(), old(server.objects)[name].status, listed))]
                                else old(server.objects)
      ensures ok ==> ShowsRecord(server.objects[name].status, rec.Abs(), listed)
    {
      hide ShowsRecord;
      hide WireTime;
      hide PodsToResources;
      hide ToAIAnalysis;
      var phase := Detecting;
      if rec.resolved {
        phase := Resolved;
      } else if rec.count > 1 {
        phase := Analyzing;
      }
      hide ListsOnce;
      var resources;
      resources, listed := AffectedPodsToResources(rec.namespace, rec.affectedPods);
      var current := server.objects[name].status;
      current := current.(phase := phase, fingerprint := rec.fingerprint, pattern := rec.pattern, count := rec.count,
                          sample := rec.sampleMessage, resources := resources,
                          firstSeen := WireTime(rec.firstSeen), lastSeen := WireTime(rec.lastSeen),
                          severity := rec.severity, resolved := rec.resolved, policyRef := rec.policyName);
      if rec.analysis.Some? {
        current := current.(analysis := Some(ToAIAnalysis(rec.analysis.value)));
      } else {
        current := current.(analysis := None);
      }
      StatusShows(rec.Abs(), server.objects[name].status, listed);
      ok := server.PatchStatus(name, current, accepted);
    }

    /**
     SyncToKubernetes: every record once, in the arbitrary order fps of the map iteration, its pods in the
     arbitrary order listing gives; a record whose write fails does not stop the others.
     */
    method SyncToKubernetes(server: ApiServer, writes: string -> Writes)
      returns (ok: bool, ghost fps: seq<string>, ghost listing: Listing)
      requires Valid()
      modifies server, Objects()
      ensures Valid() && records == old(records) && Covers(fps, old(Abs())) && ListsAll(listing, old(Abs()))
      ensures Abs() == AllNamed(old(Abs()), lower)
      ensures server.objects == Sync(old(server.objects), old(Abs()), fps, lower, listing, writes)
      ensures ShowsLastWriters(server.objects, old(Abs()), fps, lower, listing, writes)
      ensures ok == AllWritten(fps, writes)
    {
      hide *;
      ghost var start := Abs();
      listing := _ => [];
      SyncStart(server.objects, start, lower, listing, writes);
      KeysOfAbs();
      var keys := records.Keys;
      ok, fps := true, [];
      while keys != {}
        invariant Valid() && keys <= records.Keys && forall fp :: fp in fps <==> fp in records && fp !in keys
        invariant NoRepeats(fps) && ListsThese(listing, start, fps) && Abs() == NamedAt(start, fps, lower)
        invariant server.objects == Sync(old(server.objects), start, fps, lower, listing, writes)
        invariant ok == AllWritten(fps, writes)
        decreases |keys|
      {
        var fp :| fp in keys;
        InObjects(fp);
        var done;
        done, listing := SyncNext(server, fp, writes, old(server.objects), start, fps, listing);
        OneMoreOnce(fps, fp);
        ok := ok && done;
        keys, fps := keys - {fp}, fps + [fp];
      }
      NamedEverywhere(start, fps, lower);
      SyncedAll(fps, start, listing);
      AllShown(old(server.objects), start, fps, lower, listing, writes);
    }

    /** One turn of the loop of SyncToKubernetes. */
    method SyncNext(server: ApiServer, fp: string, writes: string -> Writes, ghost cluster: Cluster,
                    ghost start: State, ghost fps: seq<string>, ghost listing: Listing)
      returns (done: bool, ghost extended: Listing)
      requires Valid() && fp in records && fp !in fps && start.Keys == records.Keys
      requires forall x :: x in fps ==> x in records
      requires ListsThese(listing, start, fps) && Abs() == NamedAt(start, fps, lower)
      requires server.objects == Sync(cluster, start, fps, lower, listing, writes)
      modifies server, records[fp]
      ensures Valid() && ListsThese(extended, start, fps + [fp]) && Abs() == NamedAt(start, fps + [fp], lower)
      ensures server.objects == Sync(cluster, start, fps + [fp], lower, extended, writes)
      ensures AllWritten(fps + [fp], writes) == (AllWritten(fps, writes) && done)
    {
      hide *;
      AbsOf(fp);
      Unshared(fp);
      NamedSnoc(start, fps, fp, lower);
      ghost var listed;
      done, listed := SyncRecord(server, records[fp], writes(fp));
      PodsOfAbs(records[fp]);
      extended := ExtendListing(listing, start, fps, fp, listed, lower);
      SameListingSameSync(cluster, start, fps, lower, listing, extended, writes);
      SyncSnoc(cluster, start, fps, fp, lower, extended, writes);
      OneChanged(fp);
      SameRecords();
    }

    lemma PodsOfAbs(rec: IncidentRecord)
      ensures rec.Abs().pods == rec.affectedPods
    {
    }

    /** listing lists the pods of the records of fps. */
    ghost predicate ListsThese(listing: Listing, s: State, fps: seq<string>) {
      forall fp :: fp in fps ==> fp in s && ListsOnce(listing(fp), s[fp].pods)
    }

    lemma ExtendListing(listing: Listing, s: State, fps: seq<string>, fp: string, listed: seq<string>,
                        lower: char -> char) returns (extended: Listing)
      requires ListsThese(listing, s, fps) && fp in s && fp !in fps && ListsOnce(listed, Named(s[fp], lower).pods)
      ensures ListsThese(extended, s, fps + [fp]) && extended(fp) == listed
      ensures forall x :: x in fps ==> extended(x) == listing(x)
    {
      hide CrdName;
      extended := x => if x == fp then listed else listing(x);
      hide ListsOnce;
    }

    lemma SameListingSameSync(cluster: Cluster, s: State, fps: seq<string>, lower: char -> char, listing: Listing,
                              extended: Listing, writes: string -> Writes)
      requires (forall x :: x in fps ==> x in s) && forall x :: x in fps ==> extended(x) == listing(x)
      ensures Sync(cluster, s, fps, lower, extended, writes) == Sync(cluster, s, fps, lower, listing, writes)
    {
      hide IncidentSync.SyncRecord;
      if fps != [] {
        SameListingSameSync(cluster, s, fps[..|fps| - 1], lower, listing, extended, writes);
      }
    }

    lemma SyncedAll(fps: seq<string>, s: State, listing: Listing)
      requires NoRepeats(fps) && ListsThese(listing, s, fps) && forall fp :: fp in fps <==> fp in s
      ensures Covers(fps, s) && ListsAll(listing, s)
    {
      hide ListsOnce;
    }

    lemma KeysOfAbs()
      ensures Abs().Keys == records.Keys
    {
    }

    lemma AbsOf(fp: string)
      requires fp in records
      ensures fp in Abs() && Abs()[fp] == records[fp].Abs()
    {
    }

    lemma Unshared(fp: string)
      requires Valid() && fp in records
      ensures forall p :: p in records && p != fp ==> records[p] != records[fp]
    {
    }

    lemma InObjects(fp: string)
      requires fp in records
      ensures records[fp] in Objects()
    {
    }

    twostate lemma SameRecords()
      requires old(Valid()) && records == old(records)
      ensures Valid()
    {
    }

    lemma OneMoreOnce(fps: seq<string>, fp: string)
      requires NoRepeats(fps) && fp !in fps
      ensures NoRepeats(fps + [fp])
    {
    }

    lemma SyncStart(cluster: Cluster, s: State, lower: char -> char, listing: Listing, writes: string -> Writes)
      ensures Sync(cluster, s, [], lower, listing, writes) == cluster && AllWritten([], writes)
      ensures NamedAt(s, [], lower) == s && NoRepeats([]) && ListsThese(listing, s, [])
    {
    }

    lemma SyncSnoc(cluster: Cluster, s: State, fps: seq<string>, fp: string, lower: char -> char, listing: Listing,
                   writes: string -> Writes)
      requires fp in s && forall x :: x in fps ==> x in s
      ensures Sync(cluster, s, fps + [fp], lower, listing, writes)
              == IncidentSync.SyncRecord(Sync(cluster, s, fps, lower, listing, writes), s[fp], lower, listing(fp),
                                         writes(fp))
      ensures AllWritten(fps + [fp], writes) <==> AllWritten(fps, writes) && writes(fp).BothWritten?
    {
      hide IncidentSync.SyncRecord;
      assert (fps + [fp])[..|fps|] == fps;
    }

    /** LoadExistingIncidents on the listed objects */
    method LoadExistingIncidents(items: seq<(Name, Incident)>)
      requires Valid()
      modifies this
      ensures Valid() && Abs() == Load(old(Abs()), items)
    {
      hide FromAIAnalysis;
      hide PodsIn;
      hide FromWire;
      for n := 0 to |items|
        invariant Valid() && Abs() == Load(old(Abs()), items[..n])
      {
        var (name, item) := items[n];
        assert items[..n + 1][..n] == items[..n];
        if item.status.resolved || item.status.fingerprint == "" {
          continue;
        }
        var r := Reconstruct(name, item);
        var rec := Insert(item.status.fingerprint, r);
      }
      assert items[..|items|] == items;
    }
  }
}
