/**
 The log watcher's registry (internal/logwatcher/watcher.go) as interleaved steps: starting a stream,
 stopping it (first the map entry goes, later the context is cancelled), and the exit of a streaming
 loop, whose deferred clean-up deletes the entry of its key whoever owns it by then. The class with
 the map is in Watcher.
 */
module WatcherRegistry {
  import opened Basics

  /** watcherKey */
  datatype Key = Key(namespace: string, pod: string, container: string)

  /**
   Where a streaming loop is in its life. A stop first deletes its entry (Stopping) and then cancels its
   context (Cancelled); it has Exited once its deferred clean-up has run.
   */
  datatype Stage = Streaming | Stopping | Cancelled | Exited

  datatype Loop = Loop(key: Key, stage: Stage)

  /** Loops are numbered in the order they were started. */
  datatype Registry = Registry(watchers: map<Key, nat>, loops: seq<Loop>)

  const EMPTY := Registry(map[], [])

  /**
   The atomic steps. Delete and Cancel are the two halves of StopWatchingPod; a loop may exit at any time,
   because its context was cancelled (also by the caller that started it) or because its pod is gone.
   */
  datatype Event = Start(key: Key) | Delete(key: Key) | Cancel(id: nat) | StopAll | Exit(id: nat)

  // ------------------------------------------------------------------ the steps

  function SetStage(loops: seq<Loop>, id: nat, stage: Stage): (r: seq<Loop>)
    requires id < |loops|
    ensures |r| == |loops| && r[id] == Loop(loops[id].key, stage)
    ensures forall i :: 0 <= i < |loops| && i != id ==> r[i] == loops[i]
  {
    loops[id := loops[id].(stage := stage)]
  }

  predicate Owns(r: Registry, id: nat)
    requires id < |r.loops|
  {
    r.loops[id].key in r.watchers && r.watchers[r.loops[id].key] == id
  }

  /** Cancel the loops that own the entries of keys. */
  function CancelOwners(r: Registry, keys: set<Key>): (loops: seq<Loop>)
    ensures |loops| == |r.loops|
    ensures forall i :: 0 <= i < |loops| ==>
              loops[i] == if Owns(r, i) && r.loops[i].key in keys then Loop(r.loops[i].key, Cancelled) else r.loops[i]
  {
    seq(|r.loops|, i requires 0 <= i < |r.loops| =>
      if Owns(r, i) && r.loops[i].key in keys then Loop(r.loops[i].key, Cancelled) else r.loops[i])
  }

  function Apply(r: Registry, e: Event): Registry {
    match e
    case Start(key) =>
      if key in r.watchers then r else Registry(r.watchers[key := |r.loops|], r.loops + [Loop(key, Streaming)])
    case Delete(key) =>
      if key !in r.watchers || r.watchers[key] >= |r.loops| then r
      else Registry(r.watchers - {key}, SetStage(r.loops, r.watchers[key], Stopping))
    case Cancel(id) =>
      if id < |r.loops| && r.loops[id].stage == Stopping then r.(loops := SetStage(r.loops, id, Cancelled)) else r
    case StopAll => Registry(map[], CancelOwners(r, r.watchers.Keys))
    case Exit(id) =>
      if id < |r.loops| && r.loops[id].stage != Exited
      then Registry(r.watchers - {r.loops[id].key}, SetStage(r.loops, id, Exited))
      else r
  }

  function After(r: Registry, es: seq<Event>): Registry {
    if es == [] then r else Apply(After(r, es[..|es| - 1]), es[|es| - 1])
  }

  /** A StopAll under way, with the entries of keys gone. */
  function StoppedAt(r: Registry, keys: set<Key>): Registry {
    Registry(r.watchers - keys, CancelOwners(r, keys))
  }

  lemma StopAllEnds(r: Registry)
    requires EntriesStream(r)
    ensures StoppedAt(r, r.watchers.Keys - r.watchers.Keys) == r && StoppedAt(r, r.watchers.Keys) == Apply(r, StopAll)
  {
  }

  /** Cancelling and deleting one entry after the other, in any order, amounts to StopAll. */
  lemma StopAllKeyByKey(r: Registry, keys: set<Key>, key: Key)
    requires EntriesStream(r) && key in r.watchers && key !in keys
    ensures EntriesStream(StoppedAt(r, keys)) && StoppedAt(r, keys).watchers[key] == r.watchers[key]
    ensures StoppedAt(r, keys + {key})
            == Registry(StoppedAt(r, keys).watchers - {key},
                        SetStage(StoppedAt(r, keys).loops, r.watchers[key], Cancelled))
  {
  }

  // ------------------------------------------------------------------ every run

  /** Every entry names a loop of its own key that is still streaming. */
  predicate EntriesStream(r: Registry) {
    forall key :: key in r.watchers ==>
      r.watchers[key] < |r.loops| && r.loops[r.watchers[key]] == Loop(key, Streaming)
  }

  lemma EntriesStreamStep(r: Registry, e: Event)
    requires EntriesStream(r)
    ensures EntriesStream(Apply(r, e))
  {
  }

  /** In every run, however its steps interleave, an entry names a streaming loop of its key. */
  lemma {:induction false} EntriesAlwaysStream(es: seq<Event>)
    ensures EntriesStream(After(EMPTY, es))
  {
    if es != [] {
      EntriesAlwaysStream(es[..|es| - 1]);
      EntriesStreamStep(After(EMPTY, es[..|es| - 1]), es[|es| - 1]);
    }
  }

  // ------------------------------------------------------------------ what a caller gets

  /** After starting, the key is watched by a streaming loop of its own; a new one iff it was not watched. */
  lemma StartStreams(r: Registry, key: Key)
    requires EntriesStream(r)
    ensures var after := Apply(r, Start(key));
            && key in after.watchers && after.watchers[key] < |after.loops|
            && after.loops[after.watchers[key]] == Loop(key, Streaming)
            && |after.loops| == |r.loops| + (if key in r.watchers then 0 else 1) && r.loops <= after.loops
            && forall k :: k in r.watchers ==> k in after.watchers && after.watchers[k] == r.watchers[k]
  {
  }

  /** Both halves of stopping a watched key: its entry goes, its loop is cancelled, and nothing else changes. */
  lemma StopCancels(r: Registry, key: Key)
    requires EntriesStream(r) && key in r.watchers
    ensures var id := r.watchers[key];
            var after := Apply(Apply(r, Delete(key)), Cancel(id));
            && after.watchers == r.watchers - {key}
            && |after.loops| == |r.loops| && after.loops[id] == Loop(key, Cancelled)
            && forall i :: 0 <= i < |r.loops| && i != id ==> after.loops[i] == r.loops[i]
  {
  }

  /** After stopping everything nothing is watched, and only orphans still stream. */
  lemma StopAllStops(r: Registry, id: nat)
    requires EntriesStream(r) && id < |r.loops|
    ensures var after := Apply(r, StopAll);
            && after.watchers == map[] && |after.loops| == |r.loops|
            && (after.loops[id].stage == Streaming <==> Orphan(r, id))
            && (r.loops[id].stage != Streaming ==> after.loops[id] == r.loops[id])
  {
  }

  // ------------------------------------------------------------------ orphans

  /** A loop that streams without an entry of its own. */
  predicate Orphan(r: Registry, id: nat) {
    id < |r.loops| && r.loops[id].stage == Streaming && !Owns(r, id)
  }

  lemma OrphanStep(r: Registry, e: Event, id: nat)
    requires EntriesStream(r) && Orphan(r, id) && e != Exit(id)
    ensures Orphan(Apply(r, e), id)
  {
  }

  /** No later call stops an orphan, not even StopAll: it goes on until it exits by itself. */
  lemma {:induction false} OrphanCannotBeStopped(r: Registry, es: seq<Event>, id: nat)
    requires EntriesStream(r) && Orphan(r, id) && Exit(id) !in es
    ensures EntriesStream(After(r, es)) && Orphan(After(r, es), id)
  {
    if es != [] {
      var n := |es| - 1;
      OrphanCannotBeStopped(r, es[..n], id);
      EntriesStreamStep(After(r, es[..n]), es[n]);
      OrphanStep(After(r, es[..n]), es[n], id);
    }
  }

  /** The only step that makes a loop an orphan is the exit of another loop of the same key. */
  lemma OrphansComeFromExits(r: Registry, e: Event, id: nat)
    requires EntriesStream(r) && !Orphan(r, id)
    ensures Orphan(Apply(r, e), id) <==>
              && id < |r.loops| && Owns(r, id)
              && e.Exit? && e.id != id && e.id < |r.loops|
              && r.loops[e.id].key == r.loops[id].key && r.loops[e.id].stage != Exited
  {
  }

  // ------------------------------------------------------------------ runs that wait for stopped loops

  /** Entries and streaming loops correspond one to one: no loop is an orphan. */
  ghost predicate Exact(r: Registry) {
    EntriesStream(r) && forall id :: !Orphan(r, id)
  }

  predicate Lingers(r: Registry, id: nat)
    requires id < |r.loops|
  {
    r.loops[id].stage == Stopping || r.loops[id].stage == Cancelled
  }

  /** No stopped loop of key is still to exit: what a caller must wait for before starting key again. */
  predicate Quiet(r: Registry, key: Key) {
    forall id :: 0 <= id < |r.loops| && r.loops[id].key == key ==> !Lingers(r, id)
  }

  predicate Guarded(r: Registry, es: seq<Event>) {
    forall i :: 0 <= i < |es| && es[i].Start? ==> Quiet(After(r, es[..i]), es[i].key)
  }

  predicate OneLiveLoopPerKey(r: Registry) {
    forall i, j :: 0 <= i < |r.loops| && 0 <= j < |r.loops| && i != j && r.loops[i].key == r.loops[j].key ==>
      r.loops[i].stage == Exited || r.loops[j].stage == Exited
  }

  ghost predicate Disciplined(r: Registry) {
    Exact(r) && OneLiveLoopPerKey(r)
  }

  lemma DisciplinedStep(r: Registry, e: Event)
    requires Disciplined(r) && (e.Start? ==> Quiet(r, e.key))
    ensures Disciplined(Apply(r, e))
  {
    EntriesStreamStep(r, e);
    forall id ensures !Orphan(Apply(r, e), id) {
      OrphansComeFromExits(r, e, id);
    }
    OneLiveLoopStep(r, e);
    hide *;
    Combine(Apply(r, e));
  }

  lemma Combine(r: Registry)
    requires EntriesStream(r) && (forall id :: !Orphan(r, id)) && OneLiveLoopPerKey(r)
    ensures Disciplined(r)
  {
  }

  lemma OneLiveLoopStep(r: Registry, e: Event)
    requires Disciplined(r) && (e.Start? ==> Quiet(r, e.key))
    ensures OneLiveLoopPerKey(Apply(r, e))
  {
    if e.Start? && e.key !in r.watchers {
      forall id | 0 <= id < |r.loops| && r.loops[id].key == e.key
        ensures r.loops[id].stage == Exited
      {
        assert !Orphan(r, id);
      }
    }
  }

  lemma {:induction false} GuardedRunsAreExact(r: Registry, es: seq<Event>)
    requires Disciplined(r) && Guarded(r, es)
    ensures Disciplined(After(r, es))
  {
    if es != [] {
      var n := |es| - 1;
      assert forall i :: 0 <= i < n ==> es[..n][..i] == es[..i];
      GuardedRunsAreExact(r, es[..n]);
      DisciplinedStep(After(r, es[..n]), es[n]);
    }
  }

  /** Without stops nothing lingers, so every such run is guarded. */
  lemma {:induction false} WithoutStopsNothingLingers(es: seq<Event>)
    requires forall e :: e in es ==> !e.Delete? && !e.StopAll?
    ensures Guarded(EMPTY, es)
    ensures forall key :: Quiet(After(EMPTY, es), key)
  {
    if es != [] {
      var n := |es| - 1;
      WithoutStopsNothingLingers(es[..n]);
      QuietStep(After(EMPTY, es[..n]), es[n]);
      hide Quiet;
      hide Apply;
      GuardedSnoc(EMPTY, es);
    }
  }

  lemma GuardedSnoc(r: Registry, es: seq<Event>)
    requires es != [] && Guarded(r, es[..|es| - 1])
    requires es[|es| - 1].Start? ==> Quiet(After(r, es[..|es| - 1]), es[|es| - 1].key)
    ensures Guarded(r, es)
  {
    hide Quiet;
    hide After;
    var n := |es| - 1;
    assert forall i :: 0 <= i < n ==> es[..n][..i] == es[..i] && es[..n][i] == es[i];
  }

  lemma QuietStep(r: Registry, e: Event)
    requires (forall key :: Quiet(r, key)) && !e.Delete? && !e.StopAll?
    ensures forall key :: Quiet(Apply(r, e), key)
  {
    var s := Apply(r, e);
    forall id | 0 <= id < |s.loops|
      ensures !Lingers(s, id)
    {
      if id < |r.loops| { assert Quiet(r, r.loops[id].key); }
    }
  }

  // ------------------------------------------------------------------ the guard is exact

  /**
   Starting a key is safe in every guarded future iff no stopped loop of it lingers: otherwise that loop's
   exit alone deletes the new entry while the new loop goes on streaming.
   */
  lemma GuardIsExact(r: Registry, key: Key)
    requires Disciplined(r)
    ensures Quiet(r, key) <==>
              forall es :: Guarded(Apply(r, Start(key)), es) ==> Exact(After(Apply(r, Start(key)), es))
  {
    var started := Apply(r, Start(key));
    if Quiet(r, key) {
      DisciplinedStep(r, Start(key));
      forall es | Guarded(started, es)
        ensures Exact(After(started, es))
      {
        GuardedRunsAreExact(started, es);
      }
    } else {
      var id :| 0 <= id < |r.loops| && r.loops[id].key == key && Lingers(r, id);
      var es := [Exit(id)];
      assert After(started, es[..0]) == started;
      assert After(started, es) == Apply(started, Exit(id));
      assert Guarded(started, es);
      ExitOfLingeringLoop(r, key, id);
    }
  }

  lemma ExitOfLingeringLoop(r: Registry, key: Key, id: nat)
    requires Disciplined(r) && id < |r.loops| && r.loops[id].key == key && Lingers(r, id)
    ensures var s := Apply(Apply(r, Start(key)), Exit(id));
            && !Exact(s) && key !in s.watchers
            && |s.loops| == |r.loops| + 1 && s.loops[|r.loops|] == Loop(key, Streaming)
  {
    assert key !in r.watchers;
    var s := Apply(Apply(r, Start(key)), Exit(id));
    assert Orphan(s, |r.loops|);
  }

  // ------------------------------------------------------------------ what is counted

  function StreamingLoops(r: Registry): set<nat> {
    set id: nat | 0 <= id < |r.loops| && r.loops[id].stage == Streaming
  }

  lemma {:induction false} InjectiveImageSize(m: map<Key, nat>, keys: set<Key>, ids: set<nat>)
    requires keys <= m.Keys
    requires forall p, q :: p in keys && q in keys && m[p] == m[q] ==> p == q
    requires forall id :: id in ids <==> exists key :: key in keys && m[key] == id
    ensures |keys| == |ids|
    decreases keys
  {
    if key :| key in keys {
      InjectiveImageSize(m, keys - {key}, ids - {m[key]});
    } else {
      assert ids == {};
    }
  }

  /**
   WatchedCount is never more than the number of streaming loops, in any run; the two are equal iff
   entries and streaming loops correspond.
   */
  lemma WatchedCountIsLoops(r: Registry)
    requires EntriesStream(r)
    ensures |r.watchers| <= |StreamingLoops(r)|
    ensures |r.watchers| == |StreamingLoops(r)| <==> Exact(r)
  {
    var owners := set id | id in StreamingLoops(r) && !Orphan(r, id);
    OwnersAreImage(r, owners);
    NoOrphans(r, owners);
    hide *;
    InjectiveImageSize(r.watchers, r.watchers.Keys, owners);
    SubsetSize(owners, StreamingLoops(r));
    if |owners| == |StreamingLoops(r)| {
      SameSize(owners, StreamingLoops(r));
    }
  }

  lemma OwnersAreImage(r: Registry, owners: set<nat>)
    requires EntriesStream(r) && owners == set id | id in StreamingLoops(r) && !Orphan(r, id)
    ensures forall id :: id in owners <==> exists key :: key in r.watchers.Keys && r.watchers[key] == id
    ensures forall p, q :: p in r.watchers && q in r.watchers && r.watchers[p] == r.watchers[q] ==> p == q
  {
    forall id
      ensures id in owners <==> exists key :: key in r.watchers.Keys && r.watchers[key] == id
    {
      if key :| key in r.watchers.Keys && r.watchers[key] == id {
        assert r.loops[id].key == key;
      } else if id in owners {
        assert r.loops[id].key in r.watchers.Keys;
      }
    }
  }

  lemma NoOrphans(r: Registry, owners: set<nat>)
    requires EntriesStream(r) && owners == set id | id in StreamingLoops(r) && !Orphan(r, id)
    ensures owners == StreamingLoops(r) <==> Exact(r)
    ensures owners <= StreamingLoops(r)
  {
    if !Exact(r) {
      var id :| Orphan(r, id);
      assert id in StreamingLoops(r) && id !in owners;
    }
  }

  lemma SameSize(s: set<nat>, t: set<nat>)
    requires s <= t && |s| == |t|
    ensures s == t
  {
    if x :| x in t && x !in s { SubsetSize(s, t - {x}); }
  }

  /** In a guarded run the count is exact and no triple is streamed twice. */
  lemma GuardedRunsAreCounted(es: seq<Event>)
    requires Guarded(EMPTY, es)
    ensures |After(EMPTY, es).watchers| == |StreamingLoops(After(EMPTY, es))|
    ensures OneLiveLoopPerKey(After(EMPTY, es))
  {
    GuardedRunsAreExact(EMPTY, es);
    EntriesAlwaysStream(es);
    hide After;
    WatchedCountIsLoops(After(EMPTY, es));
  }

  /** A stop and a quick restart can leave two loops streaming one container, of which one is counted. */
  lemma RestartCanDuplicate(key: Key)
    ensures var r := After(EMPTY, [Start(key), Delete(key), Cancel(0), Start(key), Exit(0), Start(key)]);
            r == Registry(map[key := 2], [Loop(key, Exited), Loop(key, Streaming), Loop(key, Streaming)])
  {
    var es := [Start(key), Delete(key), Cancel(0), Start(key), Exit(0), Start(key)];
    StopAndRestart(key);
    ExitAndRestart(key);
    hide *;
    AfterOneMore(es, 0);
    AfterOneMore(es, 1);
    AfterOneMore(es, 2);
    AfterOneMore(es, 3);
    AfterOneMore(es, 4);
    AfterOneMore(es, 5);
    assert es[..6] == es && es[..0] == [];
  }

  /** The first loop is still on its way out; the entry is the second one's. */
  function Restarted(key: Key): Registry {
    Registry(map[key := 1], [Loop(key, Cancelled), Loop(key, Streaming)])
  }

  lemma StopAndRestart(key: Key)
    ensures Apply(Apply(Apply(Apply(EMPTY, Start(key)), Delete(key)), Cancel(0)), Start(key)) == Restarted(key)
  {
    assert Apply(EMPTY, Start(key)) == Registry(map[key := 0], [Loop(key, Streaming)]);
    assert Apply(Registry(map[key := 0], [Loop(key, Streaming)]), Delete(key))
        == Registry(map[], [Loop(key, Stopping)]);
    assert Apply(Registry(map[], [Loop(key, Stopping)]), Cancel(0)) == Registry(map[], [Loop(key, Cancelled)]);
  }

  lemma ExitAndRestart(key: Key)
    ensures Apply(Apply(Restarted(key), Exit(0)), Start(key))
            == Registry(map[key := 2], [Loop(key, Exited), Loop(key, Streaming), Loop(key, Streaming)])
  {
    assert Apply(Restarted(key), Exit(0)) == Registry(map[], [Loop(key, Exited), Loop(key, Streaming)]);
  }

  lemma AfterOneMore(es: seq<Event>, i: nat)
    requires i < |es|
    ensures After(EMPTY, es[..i + 1]) == Apply(After(EMPTY, es[..i]), es[i]) && After(EMPTY, []) == EMPTY
  {
    hide Apply;
    assert es[..i + 1][..i] == es[..i];
  }
}
