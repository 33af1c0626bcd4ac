/**
 The watcher's methods (internal/logwatcher/watcher.go) on its map of running streams, each proved to
 take exactly the steps of WatcherRegistry. The lock makes every locked section one step.
 */
module Watcher {
  import opened Basics
  import opened WatcherRegistry

  /** A streaming goroutine and its context. */
  class StreamLoop {
    ghost const id: nat
    const key: Key
    var stage: Stage

    constructor (ghost id: nat, key: Key)
      ensures this.id == id && this.key == key && stage == Streaming
    {
      this.id, this.key, this.stage := id, key, Streaming;
    }

    /** The cancel function of the loop's context; cancelling twice or after the exit does nothing. */
    method CancelContext()
      modifies this
      ensures stage == if old(stage) == Exited then Exited else Cancelled
    {
      if stage != Exited {
        stage := Cancelled;
      }
    }
  }

  class Watcher {
    var watchers: map<Key, StreamLoop>

    /** Every loop ever started, in order. */
    ghost var loops: seq<StreamLoop>

    ghost predicate Valid()
      reads this
    {
      && (forall i :: 0 <= i < |loops| ==> loops[i].id == i)
      && forall key :: key in watchers ==> watchers[key] in loops
    }

    ghost function Abs(): Registry
      reads this, loops
    {
      Registry(map key | key in watchers :: watchers[key].id,
               seq(|loops|, i requires 0 <= i < |loops| reads this, loops => Loop(loops[i].key, loops[i].stage)))
    }

    constructor ()
      ensures Valid() && Abs() == EMPTY
    {
      watchers, loops := map[], [];
    }

    /** StartWatchingPod; the result is the goroutine it launches, if any. */
    method StartWatchingPod(key: Key) returns (started: Option<StreamLoop>)
      requires Valid()
      modifies this
      ensures Valid() && Abs() == Apply(old(Abs()), Start(key))
      ensures started.None? <==> key in old(watchers)
      ensures started.Some? ==> fresh(started.value) && loops == old(loops) + [started.value]
    {
      if key in watchers {
        return None;
      }
      var loop := new StreamLoop(|loops|, key);
      watchers := watchers[key := loop];
      loops := loops + [loop];
      started := Some(loop);
    }

    /** The locked section of StopWatchingPod. */
    method Remove(key: Key) returns (removed: Option<StreamLoop>)
      requires Valid() && EntriesStream(Abs())
      modifies this, loops
      ensures Valid() && loops == old(loops) && Abs() == Apply(old(Abs()), Delete(key))
      ensures removed == if key in old(watchers) then Some(old(watchers)[key]) else None
    {
      if key !in watchers {
        return None;
      }
      removed := Some(watchers[key]);
      watchers := watchers - {key};
      removed.value.stage := Stopping;
      OneStage(removed.value);
    }

    /** StopWatchingPod, when no other call comes between its two halves. */
    method StopWatchingPod(key: Key)
      requires Valid() && EntriesStream(Abs())
      modifies this, loops
      ensures Valid() && loops == old(loops)
      ensures key !in old(watchers) ==> Abs() == old(Abs())
      ensures key in old(watchers) ==> Abs() == Apply(Apply(old(Abs()), Delete(key)), Cancel(old(watchers)[key].id))
    {
      var removed := Remove(key);
      if removed.None? {
        return;
      }
      label Removed:
      removed.value.CancelContext();
      OneStage@Removed(removed.value);
    }

    /** Changing the stage of one loop leaves the others as they were. */
    twostate lemma OneStage(loop: StreamLoop)
      requires old(Valid()) && loops == old(loops) && loop in loops
      requires forall x :: x in loops && x != loop ==> unchanged(x)
      ensures loop.id < |loops| && loops[loop.id] == loop
      ensures Abs().loops == SetStage(old(Abs()).loops, loop.id, loop.stage)
    {
      forall i | 0 <= i < |loops|
        ensures Abs().loops[i] == SetStage(old(Abs()).loops, loop.id, loop.stage)[i]
      {
        assert loops[i] in loops && loops[i].id == i;
      }
    }

    /** StopAll; the map is iterated in any order. */
    method StopAll()
      requires Valid() && EntriesStream(Abs())
      modifies this, loops
      ensures Valid() && loops == old(loops) && Abs() == Apply(old(Abs()), Event.StopAll)
    {
      hide *;
      ghost var start := Abs();
      StopAllEnds(start);
      AbsKeys();
      var keys := watchers.Keys;
      while keys != {}
        invariant loops == old(loops) && Valid() && keys == watchers.Keys && keys <= start.watchers.Keys
        invariant Abs() == StoppedAt(start, start.watchers.Keys - keys)
        decreases |keys|
      {
        var key :| key in keys;
        StopOne(key, start);
        assert start.watchers.Keys - (keys - {key}) == start.watchers.Keys - keys + {key};
        keys := keys - {key};
      }
      assert start.watchers.Keys - {} == start.watchers.Keys;
    }

    /** One turn of the loop of StopAll. */
    method StopOne(key: Key, ghost start: Registry)
      requires Valid() && key in watchers && EntriesStream(start) && watchers.Keys <= start.watchers.Keys
      requires Abs() == StoppedAt(start, start.watchers.Keys - watchers.Keys)
      modifies this, loops
      ensures Valid() && loops == old(loops) && watchers == old(watchers) - {key}
      ensures Abs() == StoppedAt(start, start.watchers.Keys - old(watchers).Keys + {key})
    {
      hide *;
      ghost var gone := start.watchers.Keys - watchers.Keys;
      StopAllKeyByKey(start, gone, key);
      Entry(key);
      var loop := watchers[key];
      loop.CancelContext();
      watchers := watchers - {key};
      EntryGone(key);
      OneStage(loop);
    }

    lemma Entry(key: Key)
      requires Valid() && key in watchers && EntriesStream(Abs())
      ensures watchers[key] in loops && watchers[key].stage == Streaming && Abs().watchers[key] == watchers[key].id
    {
      var r, id := Abs(), watchers[key].id;
      assert r.watchers[key] == id && r.loops[id].stage == loops[id].stage;
    }

    twostate lemma EntryGone(key: Key)
      requires old(Valid()) && loops == old(loops) && watchers == old(watchers) - {key}
      ensures Valid() && Abs().watchers == old(Abs()).watchers - {key}
    {
    }

    lemma AbsKeys()
      ensures Abs().watchers.Keys == watchers.Keys
    {
    }

    /** WatchedCount */
    method WatchedCount() returns (n: nat)
      requires Valid()
      ensures n == |Abs().watchers|
    {
      AbsKeys();
      n := |watchers|;
    }

    /** The deferred clean-up of streamLoop. */
    method CleanUp(loop: StreamLoop)
      requires Valid() && loop in loops && loop.stage != Exited
      modifies this, loop
      ensures Valid() && loops == old(loops) && Abs() == Apply(old(Abs()), Exit(loop.id))
    {
      watchers := watchers - {loop.key};
      loop.stage := Exited;
      OneStage(loop);
    }
  }
}
