/**
 Overlapping Analyze calls (internal/llm/analyzer.go). Each call is cut into the moves between which another
 call may run: reading its cache entry, comparing it with the clock, the limit check, counting a provider's
 success, and the locked store. A check that finds the window expired reads the clock once more, still holding
 the limiter's lock, while other calls may use the cache. Purging reads the clock before it takes the lock. The
 machine of CostGuard, where calls do not overlap, is the special case at the end.
 */
module ConcurrentAnalyzer {
  import opened Basics
  import opened CostGuard
  import RateLimiter

  /**
   Where a call is. seen is the entry it read, and mark the number of stores made until then; Storing carries
   what it is about to store.
   */
  datatype Phase =
    | Fetched(seen: Option<Entry>, mark: nat)
    | Missed
    | Admitted
    | Storing(exit: Exit, result: Result)
    | Ended(exit: Exit, answer: Result)

  datatype Call = Call(q: Request, phase: Phase)

  datatype Stored = Stored(id: nat, key: string, result: Result, time: int)

  /** The call that holds the limiter's lock between its two clock readings, and the first of them. */
  datatype Holder = Holder(id: nat, now: int)

  /** Calls are numbered in the order they begin; log records the stores, events the limiter's. */
  datatype Machine = Machine(entries: map<string, Entry>, calls: seq<Call>, used: nat, resetAt: int,
                             lock: Option<Holder>, clock: int, log: seq<Stored>, events: seq<RateLimiter.Event>)

  datatype Move =
    | Fetch(q: Request)
    | Decide(id: nat, now: int)
    | Check(id: nat, now: int)
    | Reopen(id: nat, again: int)
    | Provide(id: nat, now: int)
    | Degrade(id: nat)
    | Store(id: nat, now: int)
    | Purge(now: int)

  function Begun(start: int): Machine {
    Machine(map[], [], 0, start + HOUR, None, start, [], [RateLimiter.Reset(start)])
  }

  // ------------------------------------------------------------------ the moves

  predicate In(m: Machine, id: nat) {
    id < |m.calls|
  }

  /**
   The clock never goes back; only a purge may act on a reading that is already old. While a call holds the
   limiter's lock, no other checks the limit or counts itself.
   */
  predicate Allowed(m: Machine, move: Move) {
    match move
    case Fetch(_) => true
    case Decide(id, now) => In(m, id) && m.calls[id].phase.Fetched? && m.clock <= now
    case Check(id, now) => In(m, id) && m.calls[id].phase.Missed? && m.lock.None? && m.clock <= now
    case Reopen(id, again) =>
      && In(m, id) && m.calls[id].phase.Missed? && m.lock.Some? && m.lock.value.id == id && m.clock <= again
    case Provide(id, now) =>
      && In(m, id) && m.calls[id].phase.Admitted? && m.lock.None? && m.clock <= now
      && FirstSuccess(m.calls[id].q.outcomes, 0).Some?
    case Degrade(id) => In(m, id) && m.calls[id].phase.Admitted? && FirstSuccess(m.calls[id].q.outcomes, 0).None?
    case Store(id, now) => In(m, id) && m.calls[id].phase.Storing? && m.clock <= now
    case Purge(_) => true
  }

  function KeyOfCall(q: Request): string {
    Key(q.pattern, q.namespace)
  }

  function Rag(q: Request): Result {
    RagOnlyResult(q.ragContext, q.ragConfidence, q.severity)
  }

  function Put(m: Machine, id: nat, phase: Phase): Machine
    requires In(m, id)
  {
    m.(calls := m.calls[id := Call(m.calls[id].q, phase)])
  }

  /** The cache decision and, on a miss, the cost gate. */
  function Decided(c: Config, q: Request, seen: Option<Entry>, now: int): Phase {
    if seen.Some? && !(now > seen.value.expiresAt) then Ended(Hit, seen.value.result.(source := "cache"))
    else if !ShouldUseLLM(c, q.ragConfidence, q.severity) then Storing(Shortcut, Rag(q))
    else Missed
  }

  function Reopened(m: Machine, again: int): Machine {
    m.(used := 0, resetAt := again + HOUR, lock := None, clock := again,
       events := m.events + [RateLimiter.Reset(again)])
  }

  function LimitChecked(c: Config, q: Request, used: nat): Phase {
    if used >= c.maxCalls then Ended(Limited, Rag(q).(rootCause := RateLimited(Rag(q).rootCause))) else Admitted
  }

  function Counted(m: Machine, now: int): Machine {
    m.(used := m.used + 1, clock := now, events := m.events + [RateLimiter.Counted(now)])
  }

  function Provision(q: Request): Phase
    requires FirstSuccess(q.outcomes, 0).Some?
  {
    Storing(Provided(FirstSuccess(q.outcomes, 0).value), q.outcomes[FirstSuccess(q.outcomes, 0).value].result)
  }

  function Kept(c: Config, m: Machine, id: nat, key: string, result: Result, now: int): Machine {
    m.(entries := m.entries[key := Entry(result, now + c.ttl)], clock := now,
       log := m.log + [Stored(id, key, result, now)])
  }

  function Purged(m: Machine, now: int): Machine {
    m.(entries := map k | k in m.entries && !(now > m.entries[k].expiresAt) :: m.entries[k],
       clock := if now > m.clock then now else m.clock)
  }

  function Do(c: Config, m: Machine, move: Move): Machine
    requires Allowed(m, move)
  {
    match move
    case Fetch(q) =>
      var seen := if KeyOfCall(q) in m.entries then Some(m.entries[KeyOfCall(q)]) else None;
      m.(calls := m.calls + [Call(q, Fetched(seen, |m.log|))])
    case Decide(id, now) => Put(m.(clock := now), id, Decided(c, m.calls[id].q, m.calls[id].phase.seen, now))
    case Check(id, now) =>
      if now > m.resetAt then m.(clock := now, lock := Some(Holder(id, now)))
      else Put(m.(clock := now), id, LimitChecked(c, m.calls[id].q, m.used))
    case Reopen(id, again) => Put(Reopened(m, again), id, LimitChecked(c, m.calls[id].q, 0))
    case Provide(id, now) => Put(Counted(m, now), id, Provision(m.calls[id].q))
    case Degrade(id) =>
      var q := m.calls[id].q;
      Put(m, id, Ended(Degraded, Rag(q).(rootCause := LlmUnavailable(LastError(q.outcomes)))))
    case Store(id, now) =>
      var call := m.calls[id];
      Put(Kept(c, m, id, KeyOfCall(call.q), call.phase.result, now), id, Ended(call.phase.exit, call.phase.result))
    case Purge(now) => Purged(m, now)
  }

  predicate IsRun(c: Config, m: Machine, moves: seq<Move>)
    decreases |moves|, 0
  {
    moves == [] || (IsRun(c, m, moves[..|moves| - 1]) && Allowed(After(c, m, moves[..|moves| - 1]), moves[|moves| - 1]))
  }

  function After(c: Config, m: Machine, moves: seq<Move>): Machine
    requires IsRun(c, m, moves)
    decreases |moves|, 1
  {
    if moves == [] then m else Do(c, After(c, m, moves[..|moves| - 1]), moves[|moves| - 1])
  }

  // ------------------------------------------------------------------ the cache holds the latest store

  /** The latest store of key, if any. */
  function Latest(log: seq<Stored>, key: string): (r: Option<nat>)
    ensures r.Some? ==> r.value < |log| && log[r.value].key == key
    ensures forall k :: (if r.Some? then r.value + 1 else 0) <= k < |log| ==> log[k].key != key
  {
    if log == [] then None
    else if log[|log| - 1].key == key then Some(|log| - 1)
    else Latest(log[..|log| - 1], key)
  }

  /** entry is what the latest store of key in log left; it may be missing only if that has expired. */
  predicate Reflects(c: Config, entry: Option<Entry>, log: seq<Stored>, key: string, clock: int) {
    match Latest(log, key)
    case None => entry == None
    case Some(j) =>
      if entry.Some? then entry.value == Entry(log[j].result, log[j].time + c.ttl) else clock > log[j].time + c.ttl
  }

  function EntryOf(m: Machine, key: string): Option<Entry> {
    if key in m.entries then Some(m.entries[key]) else None
  }

  /** What a call has read is what its key's latest store had left by then. */
  predicate SeenOk(c: Config, m: Machine, id: nat)
    requires In(m, id)
  {
    match m.calls[id].phase
    case Fetched(seen, mark) => mark <= |m.log| && Reflects(c, seen, m.log[..mark], KeyOfCall(m.calls[id].q), m.clock)
    case _ => true
  }

  ghost predicate CacheOk(c: Config, m: Machine) {
    && (forall key :: Reflects(c, EntryOf(m, key), m.log, key, m.clock))
    && (forall id: nat :: In(m, id) ==> SeenOk(c, m, id))
  }

  lemma ReflectsLater(c: Config, entry: Option<Entry>, log: seq<Stored>, key: string, clock: int, later: int)
    requires Reflects(c, entry, log, key, clock) && clock <= later
    ensures Reflects(c, entry, log, key, later)
  {
  }

  lemma LatestUnfolds(log: seq<Stored>, e: Stored, key: string)
    ensures Latest(log + [e], key) == if e.key == key then Some(|log|) else Latest(log, key)
  {
    assert (log + [e])[..|log|] == log;
  }

  /** A move that stores nothing and purges nothing keeps the relation. */
  lemma CacheOkWithoutStore(c: Config, m: Machine, n: Machine)
    requires CacheOk(c, m) && n.entries == m.entries && n.log == m.log && m.clock <= n.clock
    requires |m.calls| <= |n.calls|
    requires forall id: nat :: In(m, id) && n.calls[id].phase.Fetched? ==> n.calls[id] == m.calls[id]
    requires forall id: nat :: In(n, id) && !In(m, id) ==> SeenOk(c, n, id)
    ensures CacheOk(c, n)
  {
    hide Reflects;
    forall key ensures Reflects(c, EntryOf(n, key), n.log, key, n.clock) {
      ReflectsLater(c, EntryOf(m, key), m.log, key, m.clock, n.clock);
    }
    forall id: nat | In(n, id) ensures SeenOk(c, n, id) {
      if In(m, id) && n.calls[id].phase.Fetched? {
        assert SeenOk(c, m, id);
        var p := m.calls[id].phase;
        ReflectsLater(c, p.seen, m.log[..p.mark], KeyOfCall(m.calls[id].q), m.clock, n.clock);
      }
    }
  }

  lemma FetchKeepsCacheOk(c: Config, m: Machine, q: Request)
    requires CacheOk(c, m)
    ensures CacheOk(c, Do(c, m, Fetch(q)))
  {
    var n := Do(c, m, Fetch(q));
    assert m.log[..|m.log|] == m.log;
    assert Reflects(c, EntryOf(m, KeyOfCall(q)), m.log, KeyOfCall(q), m.clock);
    hide Reflects;
    hide KeyOfCall;
    CacheOkWithoutStore(c, m, n);
  }

  lemma StoreKeepsCacheOk(c: Config, m: Machine, id: nat, now: int)
    requires CacheOk(c, m) && Allowed(m, Store(id, now))
    ensures CacheOk(c, Do(c, m, Store(id, now)))
  {
    var n, key := Do(c, m, Store(id, now)), KeyOfCall(m.calls[id].q);
    var e := Stored(id, key, m.calls[id].phase.result, now);
    assert n.log == m.log + [e] && n.clock == now;
    forall k ensures Reflects(c, EntryOf(n, k), n.log, k, n.clock) {
      LatestUnfolds(m.log, e, k);
      if k != key { ReflectsLater(c, EntryOf(m, k), m.log, k, m.clock, now); }
    }
    hide Reflects;
    hide KeyOfCall;
    forall i: nat | In(n, i) ensures SeenOk(c, n, i) {
      if n.calls[i].phase.Fetched? {
        assert SeenOk(c, m, i) && n.calls[i] == m.calls[i];
        var p := m.calls[i].phase;
        assert n.log[..p.mark] == m.log[..p.mark];
        ReflectsLater(c, p.seen, m.log[..p.mark], KeyOfCall(m.calls[i].q), m.clock, now);
      }
    }
  }

  lemma PurgeKeepsCacheOk(c: Config, m: Machine, now: int)
    requires CacheOk(c, m)
    ensures CacheOk(c, Do(c, m, Move.Purge(now)))
  {
    var n := Do(c, m, Move.Purge(now));
    forall k ensures Reflects(c, EntryOf(n, k), n.log, k, n.clock) {
      ReflectsLater(c, EntryOf(m, k), m.log, k, m.clock, n.clock);
    }
    hide Reflects;
    forall i: nat | In(n, i) ensures SeenOk(c, n, i) {
      if n.calls[i].phase.Fetched? {
        assert SeenOk(c, m, i);
        var p := m.calls[i].phase;
        ReflectsLater(c, p.seen, m.log[..p.mark], KeyOfCall(m.calls[i].q), m.clock, n.clock);
      }
    }
  }

  lemma MoveKeepsCacheOk(c: Config, m: Machine, move: Move)
    requires CacheOk(c, m) && Allowed(m, move)
    ensures CacheOk(c, Do(c, m, move))
  {
    match move
    case Fetch(q) => FetchKeepsCacheOk(c, m, q);
    case Store(id, now) => StoreKeepsCacheOk(c, m, id, now);
    case Purge(now) => PurgeKeepsCacheOk(c, m, now);
    case _ =>
      OtherMoves(c, m, move);
      CacheOkWithoutStore(c, m, Do(c, m, move));
  }

  /** The other moves change the phase of one call, which has then read its entry. */
  lemma OtherMoves(c: Config, m: Machine, move: Move)
    requires Allowed(m, move) && !move.Fetch? && !move.Store? && !move.Purge?
    ensures var n := Do(c, m, move);
            && n.entries == m.entries && n.log == m.log && m.clock <= n.clock && |n.calls| == |m.calls|
            && (forall id: nat :: In(m, id) ==> n.calls[id].q == m.calls[id].q)
            && (forall id: nat :: In(m, id) && n.calls[id].phase.Fetched? ==> n.calls[id] == m.calls[id])
  {
    hide ShouldUseLLM;
    hide RagOnlyResult;
    hide FirstSuccess;
    hide LastError;
  }

  lemma {:induction false} RunKeepsCacheOk(c: Config, start: int, moves: seq<Move>)
    requires IsRun(c, Begun(start), moves)
    ensures CacheOk(c, After(c, Begun(start), moves))
  {
    hide CacheOk;
    hide Do;
    hide Allowed;
    if moves == [] {
      BegunIsOk(c, start);
    } else {
      var n := |moves| - 1;
      RunKeepsCacheOk(c, start, moves[..n]);
      MoveKeepsCacheOk(c, After(c, Begun(start), moves[..n]), moves[n]);
    }
  }

  lemma BegunIsOk(c: Config, start: int)
    ensures CacheOk(c, Begun(start))
  {
  }

  /**
   In every interleaving: a cached entry is the one its key's latest store left, and where the entry of a
   stored key is missing, that store has expired.
   */
  lemma EntriesFollowStores(c: Config, start: int, moves: seq<Move>, key: string)
    requires IsRun(c, Begun(start), moves)
    ensures var m := After(c, Begun(start), moves);
            var j := Latest(m.log, key);
            && (key in m.entries ==>
                  j.Some? && m.entries[key] == Entry(m.log[j.value].result, m.log[j.value].time + c.ttl))
            && (j.Some? && key !in m.entries ==> m.clock > m.log[j.value].time + c.ttl)
  {
    RunKeepsCacheOk(c, start, moves);
    var m := After(c, Begun(start), moves);
    assert Reflects(c, EntryOf(m, key), m.log, key, m.clock);
  }

  // ------------------------------------------------------------------ hits

  lemma MoveRemembers(c: Config, m: Machine, move: Move, id: nat)
    requires Allowed(m, move) && In(m, id)
    ensures var n := Do(c, m, move);
            && In(n, id) && n.calls[id].q == m.calls[id].q && m.log <= n.log && m.clock <= n.clock
            && (n.calls[id].phase.Fetched? ==> n.calls[id] == m.calls[id])
  {
    if !move.Fetch? && !move.Store? && !move.Purge? { OtherMoves(c, m, move); }
    hide KeyOfCall;
  }

  /** What a call has read stays with it until it decides, whatever other calls do meanwhile. */
  lemma {:induction false} RunRemembers(c: Config, m: Machine, moves: seq<Move>, id: nat)
    requires IsRun(c, m, moves) && In(m, id)
    ensures var n := After(c, m, moves);
            && In(n, id) && n.calls[id].q == m.calls[id].q && m.log <= n.log && m.clock <= n.clock
            && (n.calls[id].phase.Fetched? ==> n.calls[id] == m.calls[id])
  {
    hide Do;
    hide Allowed;
    if moves != [] {
      var n := |moves| - 1;
      RunRemembers(c, m, moves[..n], id);
      MoveRemembers(c, After(c, m, moves[..n]), moves[n], id);
    }
  }

  lemma ReflectedHit(c: Config, q: Request, seen: Option<Entry>, log: seq<Stored>, now: int)
    requires Reflects(c, seen, log, KeyOfCall(q), now)
    ensures var (p, j) := (Decided(c, q, seen, now), Latest(log, KeyOfCall(q)));
            && (p.Ended? <==> j.Some? && now - log[j.value].time <= c.ttl)
            && (p.Ended? ==> p == Ended(Hit, log[j.value].result.(source := "cache")))
  {
    hide ShouldUseLLM;
    hide RagOnlyResult;
    hide Latest;
  }

  /**
   However calls overlap: a call is answered from the cache iff the latest store of its key, at the moment
   it read the cache, is at most ttl old at the moment it compares with the clock; and the answer is the
   stored result except for its source.
   */
  lemma HitIffLatestStoreIsFresh(c: Config, start: int, before: seq<Move>, q: Request, middle: seq<Move>, now: int)
    requires IsRun(c, Begun(start), before)
    requires IsRun(c, Do(c, After(c, Begun(start), before), Fetch(q)), middle)
    requires var read := After(c, Begun(start), before);
             Allowed(After(c, Do(c, read, Fetch(q)), middle), Decide(|read.calls|, now))
    ensures var read := After(c, Begun(start), before);
            var decided := Do(c, After(c, Do(c, read, Fetch(q)), middle), Decide(|read.calls|, now));
            var (p, j) := (decided.calls[|read.calls|].phase, Latest(read.log, KeyOfCall(q)));
            && (p.Ended? <==> j.Some? && now - read.log[j.value].time <= c.ttl)
            && (p.Ended? ==> p == Ended(Hit, read.log[j.value].result.(source := "cache")))
  {
    var read := After(c, Begun(start), before);
    RunKeepsCacheOk(c, start, before);
    var fetched := Do(c, read, Fetch(q));
    var key := KeyOfCall(q);
    assert Reflects(c, EntryOf(read, key), read.log, key, read.clock);
    RunRemembers(c, fetched, middle, |read.calls|);
    hide Reflects;
    hide Decided;
    hide Latest;
    hide After;
    hide IsRun;
    hide CacheOk;
    hide KeyOfCall;
    ReflectsLater(c, EntryOf(read, key), read.log, key, read.clock, now);
    ReflectedHit(c, q, EntryOf(read, key), read.log, now);
  }

  // ------------------------------------------------------------------ what is stored

  predicate IsFresh(exit: Exit) {
    exit.Shortcut? || exit.Provided?
  }

  /** The analysis a request gets afresh: retrieval's, above the gate, or the first successful provider's. */
  predicate Fresh(c: Config, q: Request, exit: Exit, result: Result) {
    match exit
    case Shortcut => !ShouldUseLLM(c, q.ragConfidence, q.severity) && result == Rag(q)
    case Provided(i) =>
      && ShouldUseLLM(c, q.ragConfidence, q.severity) && FirstSuccess(q.outcomes, 0) == Some(i)
      && result == q.outcomes[i].result
    case _ => false
  }

  predicate PhaseOk(c: Config, call: Call) {
    match call.phase
    case Fetched(_, _) => true
    case Missed => ShouldUseLLM(c, call.q.ragConfidence, call.q.severity)
    case Admitted => ShouldUseLLM(c, call.q.ragConfidence, call.q.severity)
    case Storing(exit, result) => Fresh(c, call.q, exit, result)
    case Ended(exit, answer) => IsFresh(exit) ==> Fresh(c, call.q, exit, answer)
  }

  /** How often call id has stored. */
  function StoresOf(log: seq<Stored>, id: nat): nat {
    if log == [] then 0 else StoresOf(log[..|log| - 1], id) + if log[|log| - 1].id == id then 1 else 0
  }

  predicate HasStored(call: Call) {
    call.phase.Ended? && IsFresh(call.phase.exit)
  }

  /** The stores of a call: one, of its own answer under its own key, if it ended afresh, and none otherwise. */
  predicate StoresMatch(log: seq<Stored>, id: nat, call: Call) {
    && StoresOf(log, id) == (if HasStored(call) then 1 else 0)
    && forall k :: 0 <= k < |log| && log[k].id == id ==>
         HasStored(call) && log[k].key == KeyOfCall(call.q) && log[k].result == call.phase.answer
  }

  predicate CallOk(c: Config, m: Machine, id: nat)
    requires In(m, id)
  {
    PhaseOk(c, m.calls[id]) && StoresMatch(m.log, id, m.calls[id])
  }

  ghost predicate AllCallsOk(c: Config, m: Machine) {
    && (forall k :: 0 <= k < |m.log| ==> In(m, m.log[k].id))
    && (forall id: nat :: In(m, id) ==> CallOk(c, m, id))
  }

  lemma {:induction false} NoStoresOf(log: seq<Stored>, id: nat)
    requires forall k :: 0 <= k < |log| ==> log[k].id != id
    ensures StoresOf(log, id) == 0
  {
    if log != [] { NoStoresOf(log[..|log| - 1], id); }
  }

  lemma StoresUnfold(log: seq<Stored>, e: Stored, id: nat)
    ensures StoresOf(log + [e], id) == StoresOf(log, id) + if e.id == id then 1 else 0
  {
    assert (log + [e])[..|log|] == log;
  }

  lemma PhasesStayOk(c: Config, m: Machine, move: Move, id: nat)
    requires Allowed(m, move) && In(m, id) && PhaseOk(c, m.calls[id])
    ensures var n := Do(c, m, move);
            && In(n, id) && PhaseOk(c, n.calls[id]) && n.calls[id].q == m.calls[id].q
            && (HasStored(m.calls[id]) ==> n.calls[id] == m.calls[id])
            && (!move.Store? || move.id != id ==> (HasStored(n.calls[id]) <==> HasStored(m.calls[id])))
            && (move.Store? && move.id == id ==>
                  && HasStored(n.calls[id]) && !HasStored(m.calls[id])
                  && n.calls[id].phase.answer == m.calls[id].phase.result)
  {
    hide ShouldUseLLM;
    hide RagOnlyResult;
    hide FirstSuccess;
    hide LastError;
    hide Key;
  }

  lemma LogGrows(c: Config, m: Machine, move: Move)
    requires Allowed(m, move)
    ensures var n := Do(c, m, move);
            if move.Store? then
              n.log == m.log + [Stored(move.id, KeyOfCall(m.calls[move.id].q), m.calls[move.id].phase.result, move.now)]
            else n.log == m.log
    ensures |Do(c, m, move).calls| == |m.calls| + if move.Fetch? then 1 else 0
    ensures move.Fetch? ==> var call := Do(c, m, move).calls[|m.calls|]; call.phase.Fetched?
  {
    hide ShouldUseLLM;
    hide RagOnlyResult;
    hide FirstSuccess;
    hide LastError;
    hide KeyOfCall;
  }

  lemma MoveKeepsCallsOk(c: Config, m: Machine, move: Move)
    requires AllCallsOk(c, m) && Allowed(m, move)
    ensures AllCallsOk(c, Do(c, m, move))
  {
    var n := Do(c, m, move);
    LogGrows(c, m, move);
    forall id: nat | In(n, id)
      ensures CallOk(c, n, id)
    {
      if In(m, id) {
        assert CallOk(c, m, id);
        PhasesStayOk(c, m, move, id);
        hide Do;
        if move.Store? {
          assert In(m, move.id);
          var e := Stored(move.id, KeyOfCall(m.calls[move.id].q), m.calls[move.id].phase.result, move.now);
          StoresMatchOneMore(m.log, e, id, m.calls[id], n.calls[id]);
        } else {
          StoresMatchStill(m.log, id, m.calls[id], n.calls[id]);
        }
      } else {
        NoStoresOf(m.log, id);
        hide Do;
      }
    }
    hide Do;
    hide CallOk;
  }

  lemma StoresMatchStill(log: seq<Stored>, id: nat, call: Call, later: Call)
    requires StoresMatch(log, id, call)
    requires (HasStored(later) <==> HasStored(call)) && (HasStored(call) ==> later == call)
    ensures StoresMatch(log, id, later)
  {
  }

  lemma StoresMatchOneMore(log: seq<Stored>, e: Stored, id: nat, call: Call, later: Call)
    requires StoresMatch(log, id, call) && later.q == call.q
    requires if e.id == id
             then !HasStored(call) && HasStored(later) && e.key == KeyOfCall(call.q) && later.phase.answer == e.result
             else (HasStored(later) <==> HasStored(call)) && (HasStored(call) ==> later == call)
    ensures StoresMatch(log + [e], id, later)
  {
    StoresUnfold(log, e, id);
  }

  lemma {:induction false} RunKeepsCallsOk(c: Config, start: int, moves: seq<Move>)
    requires IsRun(c, Begun(start), moves)
    ensures AllCallsOk(c, After(c, Begun(start), moves))
  {
    hide Do;
    hide Allowed;
    hide CallOk;
    if moves != [] {
      var n := |moves| - 1;
      RunKeepsCallsOk(c, start, moves[..n]);
      hide AllCallsOk;
      MoveKeepsCallsOk(c, After(c, Begun(start), moves[..n]), moves[n]);
    }
  }

  /**
   In every interleaving, a call stores at most once: exactly once if it ends by the shortcut or a provider,
   then its own fresh answer under its own key, and never if it ends by a cache hit, rate-limited, degraded,
   or not yet.
   */
  lemma OnlyFreshAnalysesAreStored(c: Config, start: int, moves: seq<Move>, id: nat)
    requires IsRun(c, Begun(start), moves) && In(After(c, Begun(start), moves), id)
    ensures var m := After(c, Begun(start), moves);
            && (forall k :: 0 <= k < |m.log| ==> In(m, m.log[k].id))
            && StoresMatch(m.log, id, m.calls[id])
            && (HasStored(m.calls[id]) ==> Fresh(c, m.calls[id].q, m.calls[id].phase.exit, m.calls[id].phase.answer))
  {
    RunKeepsCallsOk(c, start, moves);
    hide After;
    hide IsRun;
    assert CallOk(c, After(c, Begun(start), moves), id);
    hide Fresh;
    hide StoresMatch;
  }

  // ------------------------------------------------------------------ what is answered

  /** What each way out other than a hit answers, by what the caller passes in. */
  predicate AnswersAs(c: Config, q: Request, exit: Exit, answer: Result) {
    match exit
    case Hit => answer.source == "cache"
    case Shortcut => ConfidentEnough(c, q) && FromRetrieval(answer, q) && answer.rootCause == Excerpt(q)
    case Limited => !ConfidentEnough(c, q) && FromRetrieval(answer, q) && answer.rootCause == RateLimited(Excerpt(q))
    case Provided(i) => !ConfidentEnough(c, q) && FirstToSucceed(q.outcomes, i, answer)
    case Degraded =>
      && !ConfidentEnough(c, q) && FromRetrieval(answer, q) && AllFail(q.outcomes)
      && answer.rootCause == LlmUnavailable(ErrorOfLast(q.outcomes))
  }

  predicate OnItsWay(c: Config, call: Call) {
    match call.phase
    case Fetched(_, _) => true
    case Missed => !ConfidentEnough(c, call.q)
    case Admitted => !ConfidentEnough(c, call.q)
    case Storing(exit, result) => AnswersAs(c, call.q, exit, result)
    case Ended(exit, answer) => AnswersAs(c, call.q, exit, answer)
  }

  ghost predicate AllOnTheirWay(c: Config, m: Machine) {
    forall id: nat :: In(m, id) ==> OnItsWay(c, m.calls[id])
  }

  lemma GateIsConfidence(c: Config, q: Request)
    ensures ShouldUseLLM(c, q.ragConfidence, q.severity) <==> !ConfidentEnough(c, q)
  {
    CriticalInAnyCase(q.severity);
    hide IsCritical;
    hide SpellsCritical;
  }

  /** What the moves make of one call's answer. */
  lemma DecidedOnItsWay(c: Config, q: Request, seen: Option<Entry>, now: int)
    ensures OnItsWay(c, Call(q, Decided(c, q, seen, now)))
  {
    GateIsConfidence(c, q);
    hide ShouldUseLLM;
    hide ConfidentEnough;
  }

  lemma CheckedOnItsWay(c: Config, q: Request, used: nat)
    requires !ConfidentEnough(c, q)
    ensures OnItsWay(c, Call(q, LimitChecked(c, q, used)))
  {
    hide ConfidentEnough;
  }

  lemma AskedOnItsWay(c: Config, q: Request)
    requires !ConfidentEnough(c, q)
    ensures FirstSuccess(q.outcomes, 0).Some? ==> OnItsWay(c, Call(q, Provision(q)))
    ensures FirstSuccess(q.outcomes, 0).None? ==>
              OnItsWay(c, Call(q, Ended(Degraded, Rag(q).(rootCause := LlmUnavailable(LastError(q.outcomes))))))
  {
    hide ConfidentEnough;
  }

  /** A move changes one call at most, or begins one. */
  lemma MoveIsOnItsWay(c: Config, m: Machine, move: Move, id: nat)
    requires Allowed(m, move) && In(m, id) && OnItsWay(c, m.calls[id])
    ensures OnItsWay(c, Do(c, m, move).calls[id])
  {
    var q := m.calls[id].q;
    if m.calls[id].phase.Fetched? && move.Decide? && move.id == id {
      DecidedOnItsWay(c, q, m.calls[id].phase.seen, move.now);
    } else if m.calls[id].phase.Missed? && (move.Check? || move.Reopen?) && move.id == id {
      CheckedOnItsWay(c, q, if move.Check? then m.used else 0);
    } else if m.calls[id].phase.Admitted? && (move.Provide? || move.Degrade?) && move.id == id {
      AskedOnItsWay(c, q);
    }
    hide AnswersAs;
    hide ConfidentEnough;
    hide Decided;
    hide LimitChecked;
    hide Provision;
    hide Rag;
    hide FirstSuccess;
    hide LastError;
    hide KeyOfCall;
  }

  lemma MoveKeepsTheWay(c: Config, m: Machine, move: Move)
    requires Allowed(m, move) && AllOnTheirWay(c, m)
    ensures AllOnTheirWay(c, Do(c, m, move))
  {
    var n := Do(c, m, move);
    LogGrows(c, m, move);
    forall id: nat | In(n, id)
      ensures OnItsWay(c, n.calls[id])
    {
      if In(m, id) { MoveIsOnItsWay(c, m, move, id); }
      hide Do;
    }
    hide Do;
    hide OnItsWay;
  }

  lemma {:induction false} RunKeepsTheWay(c: Config, start: int, moves: seq<Move>)
    requires IsRun(c, Begun(start), moves)
    ensures AllOnTheirWay(c, After(c, Begun(start), moves))
  {
    hide Do;
    hide Allowed;
    hide OnItsWay;
    if moves != [] {
      var n := |moves| - 1;
      RunKeepsTheWay(c, start, moves[..n]);
      hide AllOnTheirWay;
      MoveKeepsTheWay(c, After(c, Begun(start), moves[..n]), moves[n]);
    }
  }

  /**
   In every interleaving, what a call answers depends on its own request alone, unless it is a cache hit: the
   shortcut is taken iff retrieval is confident enough; below that, a provider's answer is that of the first one that
   succeeds, and a degraded answer means that all of them failed, and quotes the last error.
   */
  lemma AnswersFollowTheRequest(c: Config, start: int, moves: seq<Move>, id: nat)
    requires IsRun(c, Begun(start), moves) && In(After(c, Begun(start), moves), id)
    ensures var call := After(c, Begun(start), moves).calls[id];
            call.phase.Ended? ==> AnswersAs(c, call.q, call.phase.exit, call.phase.answer)
  {
    RunKeepsTheWay(c, start, moves);
    hide After;
    hide IsRun;
    hide AnswersAs;
  }

  // ------------------------------------------------------------------ purging

  function WithoutPurges(moves: seq<Move>): seq<Move> {
    if moves == [] then []
    else
      var n := |moves| - 1;
      WithoutPurges(moves[..n]) + if moves[n].Purge? then [] else [moves[n]]
  }

  /** With purging, an entry is missing only if it has expired. */
  predicate SameUnlessExpired(purged: Option<Entry>, kept: Option<Entry>, clock: int) {
    purged == kept || (purged.None? && kept.Some? && clock > kept.value.expiresAt)
  }

  predicate SameCall(purged: Call, kept: Call, clock: int) {
    && purged.q == kept.q
    && match purged.phase
       case Fetched(seen, mark) =>
         kept.phase.Fetched? && kept.phase.mark == mark && SameUnlessExpired(seen, kept.phase.seen, clock)
       case _ => purged.phase == kept.phase
  }

  /** Two machines that differ by purges only. */
  ghost predicate Agree(m: Machine, n: Machine) {
    && m.used == n.used && m.resetAt == n.resetAt && m.lock == n.lock && n.clock <= m.clock
    && m.log == n.log && m.events == n.events && |m.calls| == |n.calls|
    && (forall id :: 0 <= id < |m.calls| ==> SameCall(m.calls[id], n.calls[id], m.clock))
    && (forall key :: SameUnlessExpired(EntryOf(m, key), EntryOf(n, key), m.clock))
  }

  lemma PurgeAgrees(c: Config, m: Machine, n: Machine, now: int)
    requires Agree(m, n)
    ensures Agree(Do(c, m, Move.Purge(now)), n)
  {
    var p := Do(c, m, Move.Purge(now));
    forall key ensures SameUnlessExpired(EntryOf(p, key), EntryOf(n, key), p.clock) {
      assert SameUnlessExpired(EntryOf(m, key), EntryOf(n, key), m.clock);
    }
  }

  lemma DecidedAgrees(c: Config, q: Request, purged: Option<Entry>, kept: Option<Entry>, clock: int, now: int)
    requires SameUnlessExpired(purged, kept, clock) && clock <= now
    ensures Decided(c, q, purged, now) == Decided(c, q, kept, now)
  {
    hide ShouldUseLLM;
    hide RagOnlyResult;
  }

  /** Changing one call to the same phase, and the clock, keeps the other calls the same. */
  lemma PutAgrees(m: Machine, n: Machine, id: nat, phase: Phase, m': Machine, n': Machine)
    requires Agree(m, n) && In(m, id) && !phase.Fetched?
    requires m'.calls == Put(m, id, phase).calls && n'.calls == Put(n, id, phase).calls
    requires m'.used == n'.used && m'.resetAt == n'.resetAt && m'.lock == n'.lock
    requires m.clock <= m'.clock && n'.clock <= m'.clock
    requires m'.log == n'.log && m'.events == n'.events
    requires forall key :: SameUnlessExpired(EntryOf(m', key), EntryOf(n', key), m'.clock)
    ensures Agree(m', n')
  {
    forall i | 0 <= i < |m'.calls| ensures SameCall(m'.calls[i], n'.calls[i], m'.clock) {
      assert SameCall(m.calls[i], n.calls[i], m.clock);
    }
  }

  lemma PutAgreesOnEntries(m: Machine, n: Machine, id: nat, phase: Phase, m': Machine, n': Machine)
    requires Agree(m, n) && In(m, id) && !phase.Fetched?
    requires m'.calls == Put(m, id, phase).calls && n'.calls == Put(n, id, phase).calls
    requires m'.used == n'.used && m'.resetAt == n'.resetAt && m'.lock == n'.lock
    requires m.clock <= m'.clock && n'.clock <= m'.clock
    requires m'.log == n'.log && m'.events == n'.events && m'.entries == m.entries && n'.entries == n.entries
    ensures Agree(m', n')
  {
    EntriesStayAgreed(m, n);
    assert forall key :: EntryOf(m', key) == EntryOf(m, key) && EntryOf(n', key) == EntryOf(n, key);
    hide Agree;
    hide SameUnlessExpired;
    PutAgrees(m, n, id, phase, m', n');
  }

  lemma MoveAgrees(c: Config, m: Machine, n: Machine, move: Move)
    requires Agree(m, n) && Allowed(m, move) && !move.Purge?
    ensures Allowed(n, move) && Agree(Do(c, m, move), Do(c, n, move))
  {
    if move.Fetch? {
      FetchAgrees(c, m, n, move.q);
    } else if move.Store? {
      StoreAgrees(c, m, n, move.id, move.now);
    } else {
      OtherMoveAgrees(c, m, n, move);
    }
  }

  lemma OtherMoveAgrees(c: Config, m: Machine, n: Machine, move: Move)
    requires Agree(m, n) && Allowed(m, move) && !move.Purge? && !move.Fetch? && !move.Store?
    ensures Allowed(n, move) && Agree(Do(c, m, move), Do(c, n, move))
  {
    var id := move.id;
    assert SameCall(m.calls[id], n.calls[id], m.clock);
    if move.Decide? {
      DecidedAgrees(c, m.calls[id].q, m.calls[id].phase.seen, n.calls[id].phase.seen, m.clock, move.now);
    }
    EntriesStayAgreed(m, n);
    hide Decided;
    hide RagOnlyResult;
    hide FirstSuccess;
    hide Agree;
    hide SameUnlessExpired;
    PutAgreesOnEntries(m, n, id, Do(c, m, move).calls[id].phase, Do(c, m, move), Do(c, n, move));
  }

  lemma EntriesStayAgreed(m: Machine, n: Machine)
    requires Agree(m, n)
    ensures m.used == n.used && m.resetAt == n.resetAt && m.lock == n.lock && n.clock <= m.clock
    ensures m.log == n.log && m.events == n.events && |m.calls| == |n.calls|
    ensures forall key, clock :: m.clock <= clock ==> SameUnlessExpired(EntryOf(m, key), EntryOf(n, key), clock)
  {
    forall key, clock | m.clock <= clock ensures SameUnlessExpired(EntryOf(m, key), EntryOf(n, key), clock) {
      assert SameUnlessExpired(EntryOf(m, key), EntryOf(n, key), m.clock);
    }
  }

  lemma FetchAgrees(c: Config, m: Machine, n: Machine, q: Request)
    requires Agree(m, n)
    ensures Agree(Do(c, m, Fetch(q)), Do(c, n, Fetch(q)))
  {
    hide KeyOfCall;
    assert SameUnlessExpired(EntryOf(m, KeyOfCall(q)), EntryOf(n, KeyOfCall(q)), m.clock);
    var p, r := Do(c, m, Fetch(q)), Do(c, n, Fetch(q));
    assert forall key :: EntryOf(p, key) == EntryOf(m, key) && EntryOf(r, key) == EntryOf(n, key);
    hide SameUnlessExpired;
  }

  lemma StoreAgrees(c: Config, m: Machine, n: Machine, id: nat, now: int)
    requires Agree(m, n) && Allowed(m, Store(id, now))
    ensures Allowed(n, Store(id, now)) && Agree(Do(c, m, Store(id, now)), Do(c, n, Store(id, now)))
  {
    assert SameCall(m.calls[id], n.calls[id], m.clock);
    var p, r := Do(c, m, Store(id, now)), Do(c, n, Store(id, now));
    EntriesStayAgreed(m, n);
    hide KeyOfCall;
    var key := KeyOfCall(m.calls[id].q);
    forall k ensures SameUnlessExpired(EntryOf(p, k), EntryOf(r, k), p.clock) {
      if k != key { assert SameUnlessExpired(EntryOf(m, k), EntryOf(n, k), now); }
    }
    hide Agree;
    PutAgrees(m, n, id, p.calls[id].phase, p, r);
  }

  /**
   Purging is invisible in every interleaving, even on an old clock reading: without the purges the other
   moves are still possible, and every call ends, stores and counts exactly as before.
   */
  lemma {:induction false} PurgingIsInvisible(c: Config, start: int, moves: seq<Move>)
    requires IsRun(c, Begun(start), moves)
    ensures IsRun(c, Begun(start), WithoutPurges(moves))
    ensures var (m, n) := (After(c, Begun(start), moves), After(c, Begun(start), WithoutPurges(moves)));
            && m.log == n.log && m.used == n.used && m.events == n.events && |m.calls| == |n.calls|
            && forall id :: 0 <= id < |m.calls| && !m.calls[id].phase.Fetched? ==> m.calls[id] == n.calls[id]
  {
    RunsAgree(c, start, moves);
    var m, n := After(c, Begun(start), moves), After(c, Begun(start), WithoutPurges(moves));
    hide SameUnlessExpired;
    forall id | 0 <= id < |m.calls| && !m.calls[id].phase.Fetched?
      ensures m.calls[id] == n.calls[id]
    {
      assert SameCall(m.calls[id], n.calls[id], m.clock);
    }
  }

  lemma {:induction false} RunsAgree(c: Config, start: int, moves: seq<Move>)
    requires IsRun(c, Begun(start), moves)
    ensures IsRun(c, Begun(start), WithoutPurges(moves))
    ensures Agree(After(c, Begun(start), moves), After(c, Begun(start), WithoutPurges(moves)))
  {
    hide Do;
    hide Allowed;
    if moves != [] {
      var n := |moves| - 1;
      RunsAgree(c, start, moves[..n]);
      hide SameCall;
      hide SameUnlessExpired;
      var fewer := WithoutPurges(moves[..n]);
      var m, k := After(c, Begun(start), moves[..n]), After(c, Begun(start), fewer);
      hide Agree;
      if moves[n].Purge? {
        PurgeAgrees(c, m, k, moves[n].now);
        assert WithoutPurges(moves) == fewer + [] == fewer;
      } else {
        MoveAgrees(c, m, k, moves[n]);
        assert WithoutPurges(moves) == fewer + [moves[n]];
        assert (fewer + [moves[n]])[..|fewer|] == fewer;
      }
    }
  }

  // ------------------------------------------------------------------ the hourly limit

  predicate Waiting(call: Call) {
    call.phase.Fetched? || call.phase.Missed? || call.phase.Admitted?
  }

  /** The calls as the step model of the limiter sees them: on their way to the check, or past it and uncounted. */
  function PhasesOf(calls: seq<Call>): map<nat, RateLimiter.Phase> {
    map id: nat | id < |calls| && Waiting(calls[id]) :: LimiterPhase(calls[id])
  }

  function LimiterPhase(call: Call): RateLimiter.Phase {
    if call.phase.Admitted? then RateLimiter.Admitted else RateLimiter.Entered
  }

  function InFlight(calls: seq<Call>): set<nat> {
    set id: nat | id < |calls| && !calls[id].phase.Ended?
  }

  function AdmittedCalls(calls: seq<Call>): set<nat> {
    set id: nat | id < |calls| && calls[id].phase.Admitted?
  }

  predicate Limits(m: Machine, r: RateLimiter.State) {
    && r.calls == m.used && r.resetAt == m.resetAt && r.clock <= m.clock && r.log == m.events
    && r.phases == PhasesOf(m.calls)
    && (m.lock.Some? ==> r.clock <= m.lock.value.now <= m.clock && m.resetAt < m.lock.value.now)
  }

  /** The limiter's steps in a move; a check that reopens the window is one step, taken at its end. */
  function StepsIn(c: Config, m: Machine, move: Move): seq<RateLimiter.Step>
    requires Allowed(m, move)
  {
    match move
    case Fetch(_) => [RateLimiter.Enter(|m.calls|)]
    case Decide(id, _) => if Do(c, m, move).calls[id].phase.Missed? then [] else [RateLimiter.Leave(id)]
    case Check(id, now) => if now > m.resetAt then [] else [RateLimiter.Check(id, now, now)]
    case Reopen(id, again) => [RateLimiter.Check(id, m.lock.value.now, again)]
    case Provide(id, now) => [RateLimiter.Count(id, now)]
    case Degrade(id) => [RateLimiter.Fail(id)]
    case _ => []
  }

  lemma PhasesSnoc(calls: seq<Call>, call: Call)
    requires call.phase.Fetched?
    ensures PhasesOf(calls + [call]) == PhasesOf(calls)[|calls| := RateLimiter.Entered]
    ensures InFlight(calls + [call]) == InFlight(calls) + {|calls|}
  {
  }

  lemma PhasesPut(calls: seq<Call>, id: nat, call: Call)
    requires id < |calls| && Waiting(calls[id])
    ensures PhasesOf(calls[id := call])
            == if Waiting(call) then PhasesOf(calls)[id := LimiterPhase(call)] else PhasesOf(calls) - {id}
    ensures id in PhasesOf(calls) && PhasesOf(calls)[id] == LimiterPhase(calls[id])
  {
  }

  lemma PhasesKept(calls: seq<Call>, id: nat, call: Call)
    requires id < |calls| && Waiting(calls[id]) == Waiting(call)
    requires Waiting(call) ==> LimiterPhase(calls[id]) == LimiterPhase(call)
    ensures PhasesOf(calls[id := call]) == PhasesOf(calls)
  {
  }

  lemma RoomToEnter(calls: seq<Call>, call: Call, n: nat)
    requires call.phase.Fetched? && |InFlight(calls + [call])| <= n
    ensures |PhasesOf(calls)| < n
  {
    PhasesSnoc(calls, call);
    assert PhasesOf(calls).Keys <= InFlight(calls);
    SubsetSize(PhasesOf(calls).Keys, InFlight(calls));
  }

  lemma MoveTakesSteps(c: Config, m: Machine, move: Move, r: RateLimiter.State, n: nat)
    requires Allowed(m, move) && Limits(m, r) && |InFlight(Do(c, m, move).calls)| <= n
    ensures var steps := StepsIn(c, m, move);
            && RateLimiter.IsRun(r, steps, c.maxCalls, n)
            && Limits(Do(c, m, move), RateLimiter.After(r, steps, c.maxCalls))
  {
    var steps := StepsIn(c, m, move);
    if steps == [] {
      StillLimits(c, m, move, r);
    } else {
      StepLimits(c, m, move, r, n);
      hide *;
      RateLimiter.OneStep(r, steps[0], c.maxCalls, n);
      assert steps == [steps[0]];
    }
  }

  lemma StillLimits(c: Config, m: Machine, move: Move, r: RateLimiter.State)
    requires Allowed(m, move) && Limits(m, r) && StepsIn(c, m, move) == []
    ensures Limits(Do(c, m, move), r)
  {
    hide ShouldUseLLM;
    hide RagOnlyResult;
    hide KeyOfCall;
    hide PhasesOf;
    if !move.Purge? { PhasesKept(m.calls, move.id, Do(c, m, move).calls[move.id]); }
  }

  lemma StepLimits(c: Config, m: Machine, move: Move, r: RateLimiter.State, n: nat)
    requires Allowed(m, move) && Limits(m, r) && StepsIn(c, m, move) != [] && |InFlight(Do(c, m, move).calls)| <= n
    ensures |StepsIn(c, m, move)| == 1
    ensures var step := StepsIn(c, m, move)[0];
            RateLimiter.Enabled(r, step, n) && Limits(Do(c, m, move), RateLimiter.Apply(r, step, c.maxCalls))
  {
    hide PhasesOf;
    hide InFlight;
    hide RagOnlyResult;
    if move.Fetch? {
      FetchEnters(c, m, move, r, n);
    } else if move.Decide? {
      DecideLeaves(c, m, move, r, n);
    } else if move.Check? || move.Reopen? {
      CheckChecks(c, m, move, r, n);
    } else {
      CallCounts(c, m, move, r, n);
    }
  }

  lemma FetchEnters(c: Config, m: Machine, move: Move, r: RateLimiter.State, n: nat)
    requires move.Fetch? && Limits(m, r) && |InFlight(Do(c, m, move).calls)| <= n
    ensures var step := RateLimiter.Enter(|m.calls|);
            RateLimiter.Enabled(r, step, n) && Limits(Do(c, m, move), RateLimiter.Apply(r, step, c.maxCalls))
  {
    hide KeyOfCall;
    hide InFlight;
    var call := Do(c, m, move).calls[|m.calls|];
    assert Do(c, m, move).calls == m.calls + [call];
    RoomToEnter(m.calls, call, n);
    PhasesSnoc(m.calls, call);
    assert |m.calls| !in PhasesOf(m.calls);
    hide PhasesOf;
  }

  lemma DecideLeaves(c: Config, m: Machine, move: Move, r: RateLimiter.State, n: nat)
    requires move.Decide? && Allowed(m, move) && Limits(m, r) && StepsIn(c, m, move) != []
    ensures var step := RateLimiter.Leave(move.id);
            RateLimiter.Enabled(r, step, n) && Limits(Do(c, m, move), RateLimiter.Apply(r, step, c.maxCalls))
  {
    hide PhasesOf;
    hide ShouldUseLLM;
    hide RagOnlyResult;
    PhasesPut(m.calls, move.id, Do(c, m, move).calls[move.id]);
  }

  lemma CheckChecks(c: Config, m: Machine, move: Move, r: RateLimiter.State, n: nat)
    requires (move.Check? || move.Reopen?) && Allowed(m, move) && Limits(m, r) && StepsIn(c, m, move) != []
    ensures var step := StepsIn(c, m, move)[0];
            RateLimiter.Enabled(r, step, n) && Limits(Do(c, m, move), RateLimiter.Apply(r, step, c.maxCalls))
  {
    hide PhasesOf;
    hide RagOnlyResult;
    PhasesPut(m.calls, move.id, Do(c, m, move).calls[move.id]);
  }

  lemma CallCounts(c: Config, m: Machine, move: Move, r: RateLimiter.State, n: nat)
    requires (move.Provide? || move.Degrade?) && Allowed(m, move) && Limits(m, r)
    ensures var step := StepsIn(c, m, move)[0];
            RateLimiter.Enabled(r, step, n) && Limits(Do(c, m, move), RateLimiter.Apply(r, step, c.maxCalls))
  {
    hide PhasesOf;
    hide RagOnlyResult;
    hide FirstSuccess;
    hide LastError;
    PhasesPut(m.calls, move.id, Do(c, m, move).calls[move.id]);
  }

  /** Never more than n calls are in flight. */
  predicate AtMost(c: Config, m: Machine, moves: seq<Move>, n: nat)
    requires IsRun(c, m, moves)
  {
    |InFlight(After(c, m, moves).calls)| <= n && (moves != [] ==> AtMost(c, m, moves[..|moves| - 1], n))
  }

  lemma {:induction false} RunTakesLimiterSteps(c: Config, start: int, moves: seq<Move>, n: nat)
    returns (steps: seq<RateLimiter.Step>)
    requires IsRun(c, Begun(start), moves) && AtMost(c, Begun(start), moves, n)
    ensures RateLimiter.IsRun(RateLimiter.Init(start), steps, c.maxCalls, n)
    ensures Limits(After(c, Begun(start), moves), RateLimiter.After(RateLimiter.Init(start), steps, c.maxCalls))
  {
    if moves == [] {
      steps := [];
      assert PhasesOf(Begun(start).calls) == map[];
    } else {
      var k := |moves| - 1;
      var m := After(c, Begun(start), moves[..k]);
      assert After(c, Begun(start), moves) == Do(c, m, moves[k]) && AtMost(c, Begun(start), moves[..k], n);
      hide Do;
      hide Allowed;
      hide InFlight;
      hide Limits;
      steps := RunTakesLimiterSteps(c, start, moves[..k], n);
      var r := RateLimiter.After(RateLimiter.Init(start), steps, c.maxCalls);
      MoveTakesSteps(c, m, moves[k], r, n);
      hide *;
      RateLimiter.RunConcat(RateLimiter.Init(start), steps, StepsIn(c, m, moves[k]), c.maxCalls, n);
      steps := steps + StepsIn(c, m, moves[k]);
    }
  }

  /**
   With at most n Analyze calls in flight, whatever they do: the calls counted in the window plus those admitted
   and uncounted stay below the limit plus n; any closed hour holds at most 2 (max + n - 1) successful provider
   calls; and one with more than max + n - 1 of them has a reset between two of them.
   */
  lemma OverlappingCallsKeepTheLimit(c: Config, start: int, moves: seq<Move>, n: nat, a: int)
    requires c.maxCalls >= 1 && n >= 1 && IsRun(c, Begun(start), moves) && AtMost(c, Begun(start), moves, n)
    ensures var m := After(c, Begun(start), moves);
            && m.used + |AdmittedCalls(m.calls)| <= c.maxCalls + n - 1
            && RateLimiter.CountedBetween(m.events, a, a + HOUR) <= 2 * (c.maxCalls + n - 1)
            && (RateLimiter.CountedBetween(m.events, a, a + HOUR) > c.maxCalls + n - 1 ==>
                  RateLimiter.ReopensBetweenCalls(m.events, a))
  {
    var steps := RunTakesLimiterSteps(c, start, moves, n);
    var m := After(c, Begun(start), moves);
    var r := RateLimiter.After(RateLimiter.Init(start), steps, c.maxCalls);
    hide After;
    hide IsRun;
    hide RateLimiter.After;
    hide RateLimiter.IsRun;
    hide RateLimiter.CountedBetween;
    hide RateLimiter.ReopensBetweenCalls;
    assert RateLimiter.Uncounted(r) == AdmittedCalls(m.calls);
    RateLimiter.OvershootIsBounded(start, steps, c.maxCalls, n);
    RateLimiter.AnyHourIsBounded(start, steps, c.maxCalls, n, a);
    RateLimiter.RollingLimitFailsOnlyAroundAReset(start, steps, c.maxCalls, n, a);
  }

  // ------------------------------------------------------------------ calls that do not overlap

  /** The moves of one operation of CostGuard's machine; id is the number its call gets. */
  function MovesOf(c: Config, s: State, op: Op, id: nat): seq<Move> {
    match op
    case Purge(now) => [Move.Purge(now)]
    case Analyze(q) =>
      [Fetch(q), Decide(id, q.at.lookup)]
      + match ExitOf(c, s, q)
        case Hit => []
        case Shortcut => [Store(id, q.at.store)]
        case Limited => CheckMoves(s, q, id)
        case Provided(_) => CheckMoves(s, q, id) + [Provide(id, q.at.done)] + [Store(id, q.at.store)]
        case Degraded => CheckMoves(s, q, id) + [Degrade(id)]
  }

  function CheckMoves(s: State, q: Request, id: nat): seq<Move> {
    if q.at.check > s.resetAt then [Check(id, q.at.check)] + [Reopen(id, q.at.reset)] else [Check(id, q.at.check)]
  }

  predicate Mirrors(s: State, m: Machine) {
    m.entries == s.entries && m.used == s.calls && m.resetAt == s.resetAt && m.lock.None?
  }

  lemma OneMove(c: Config, m: Machine, move: Move)
    requires Allowed(m, move)
    ensures IsRun(c, m, [move]) && After(c, m, [move]) == Do(c, m, move)
  {
    hide Allowed;
    hide Do;
    assert [move][..0] == [];
  }

  lemma {:induction false} RunsConcat(c: Config, m: Machine, a: seq<Move>, b: seq<Move>)
    requires IsRun(c, m, a) && IsRun(c, After(c, m, a), b)
    ensures IsRun(c, m, a + b) && After(c, m, a + b) == After(c, After(c, m, a), b)
  {
    hide Allowed;
    hide Do;
    if b == [] {
      assert a + b == a;
    } else {
      assert (a + b)[..|a + b| - 1] == a + b[..|b| - 1];
      RunsConcat(c, m, a, b[..|b| - 1]);
    }
  }

  /** m after the moves a, then one more. */
  lemma Then(c: Config, m: Machine, a: seq<Move>, k: Machine, move: Move)
    requires IsRun(c, m, a) && After(c, m, a) == k && Allowed(k, move)
    ensures IsRun(c, m, a + [move]) && After(c, m, a + [move]) == Do(c, k, move)
  {
    hide *;
    OneMove(c, k, move);
    RunsConcat(c, m, a, [move]);
  }

  lemma AskAndDecide(c: Config, s: State, q: Request, m: Machine) returns (k: Machine)
    requires Mirrors(s, m) && m.clock <= q.at.lookup
    ensures var (moves, e) := ([Fetch(q), Decide(|m.calls|, q.at.lookup)], ExitOf(c, s, q));
            && IsRun(c, m, moves) && After(c, m, moves) == k
            && Mirrors(s, k) && k.clock == q.at.lookup && k.log == m.log
            && k.calls == m.calls + [Call(q, if e.Hit? then Ended(Hit, Answer(c, s, q))
                                             else if e.Shortcut? then Storing(Shortcut, Answer(c, s, q)) else Missed)]
  {
    var id := |m.calls|;
    var k1 := Do(c, m, Fetch(q));
    k := Do(c, k1, Decide(id, q.at.lookup));
    OneMove(c, m, Fetch(q));
    assert [Fetch(q)] + [Decide(id, q.at.lookup)] == [Fetch(q), Decide(id, q.at.lookup)];
    hide ShouldUseLLM;
    hide RagOnlyResult;
    hide FirstSuccess;
    hide Key;
    hide IsRun;
    hide After;
    Then(c, m, [Fetch(q)], k1, Decide(id, q.at.lookup));
  }

  /** The fields of CostGuard's next state, by the exit taken. */
  lemma NextParts(c: Config, s: State, q: Request)
    ensures var (e, k, n) := (ExitOf(c, s, q), Checked(s, q.at), Next(c, s, q));
            && n.entries == (if IsFresh(e) then s.entries[KeyOfCall(q) := Entry(Answer(c, s, q), q.at.store + c.ttl)]
                             else s.entries)
            && n.calls == (if e.Hit? || e.Shortcut? then s.calls else if e.Provided? then k.calls + 1 else k.calls)
            && n.resetAt == (if e.Hit? || e.Shortcut? then s.resetAt else k.resetAt)
  {
    hide Answer;
    hide ExitOf;
    hide Key;
  }

  lemma CheckAfterMiss(c: Config, s: State, q: Request, k: Machine, id: nat) returns (n: Machine)
    requires Mirrors(s, k) && In(k, id) && k.calls[id] == Call(q, Missed) && k.clock <= q.at.check <= q.at.reset
    requires ExitOf(c, s, q).Limited? || ExitOf(c, s, q).Provided? || ExitOf(c, s, q).Degraded?
    ensures IsRun(c, k, CheckMoves(s, q, id)) && After(c, k, CheckMoves(s, q, id)) == n
    ensures n.entries == k.entries && n.used == Checked(s, q.at).calls && n.resetAt == Checked(s, q.at).resetAt
    ensures n.clock <= q.at.reset && n.log == k.log && n.lock.None?
    ensures var phase := if ExitOf(c, s, q).Limited? then Ended(Limited, Answer(c, s, q)) else Admitted;
            n.calls == k.calls[id := Call(q, phase)]
  {
    hide ShouldUseLLM;
    hide RagOnlyResult;
    hide FirstSuccess;
    hide Lookup;
    hide IsRun;
    hide After;
    var first := Check(id, q.at.check);
    n := Do(c, k, first);
    OneMove(c, k, first);
    if q.at.check > s.resetAt {
      var held := n;
      n := Do(c, held, Reopen(id, q.at.reset));
      Then(c, k, [first], held, Reopen(id, q.at.reset));
    }
  }

  lemma StoreAtEnd(c: Config, s: State, q: Request, k: Machine, id: nat, exit: Exit) returns (n: Machine)
    requires In(k, id) && k.calls[id] == Call(q, Storing(exit, Answer(c, s, q))) && k.clock <= q.at.store
    ensures Allowed(k, Store(id, q.at.store)) && Do(c, k, Store(id, q.at.store)) == n
    ensures n.entries == k.entries[KeyOfCall(q) := Entry(Answer(c, s, q), q.at.store + c.ttl)]
    ensures n.used == k.used && n.resetAt == k.resetAt && n.lock == k.lock && n.clock == q.at.store
    ensures n.calls == k.calls[id := Call(q, Ended(exit, Answer(c, s, q)))]
  {
    hide Answer;
    hide KeyOfCall;
    n := Do(c, k, Store(id, q.at.store));
  }

  lemma ProvideAfterCheck(c: Config, s: State, q: Request, k: Machine, id: nat) returns (n: Machine)
    requires In(k, id) && k.calls[id] == Call(q, Admitted) && k.lock.None? && k.clock <= q.at.done
    requires ExitOf(c, s, q).Provided?
    ensures Allowed(k, Provide(id, q.at.done)) && Do(c, k, Provide(id, q.at.done)) == n
    ensures n.entries == k.entries && n.used == k.used + 1 && n.resetAt == k.resetAt
    ensures n.clock == q.at.done && n.lock.None?
    ensures n.calls == k.calls[id := Call(q, Storing(ExitOf(c, s, q), Answer(c, s, q)))]
  {
    hide ShouldUseLLM;
    hide Lookup;
    n := Do(c, k, Provide(id, q.at.done));
  }

  lemma DegradeAfterCheck(c: Config, s: State, q: Request, k: Machine, id: nat) returns (n: Machine)
    requires In(k, id) && k.calls[id] == Call(q, Admitted) && ExitOf(c, s, q).Degraded?
    ensures Allowed(k, Degrade(id)) && Do(c, k, Degrade(id)) == n
    ensures n == k.(calls := k.calls[id := Call(q, Ended(Degraded, Answer(c, s, q)))])
  {
    hide ShouldUseLLM;
    hide Lookup;
    n := Do(c, k, Degrade(id));
  }

  /** What an operation leaves: CostGuard's next state and, for an analysis, its call, ended as CostGuard says. */
  predicate Simulates(c: Config, s: State, op: Op, m: Machine, n: Machine) {
    && Mirrors(Apply(c, s, op), n) && n.clock <= End(op)
    && n.calls == m.calls + if op.Analyze? then [Call(op.q, Ended(ExitOf(c, s, op.q), Answer(c, s, op.q)))] else []
  }

  lemma PurgeIsItsMove(c: Config, s: State, now: int, m: Machine)
    requires Mirrors(s, m) && m.clock <= now
    ensures var moves := [Move.Purge(now)];
            IsRun(c, m, moves) && Simulates(c, s, Op.Purge(now), m, After(c, m, moves))
  {
    OneMove(c, m, Move.Purge(now));
    hide After;
    hide IsRun;
  }

  lemma LastOf(calls: seq<Call>, a: Call, b: Call)
    ensures (calls + [a])[|calls| := b] == calls + [b] && (calls + [a])[|calls|] == a
  {
  }

  lemma ShortcutIsItsMoves(c: Config, s: State, q: Request, m: Machine)
    requires Mirrors(s, m) && m.clock <= q.at.lookup && InOrder(q.at) && ExitOf(c, s, q).Shortcut?
    ensures var moves := [Fetch(q), Decide(|m.calls|, q.at.lookup)] + [Store(|m.calls|, q.at.store)];
            IsRun(c, m, moves) && Simulates(c, s, Analyze(q), m, After(c, m, moves))
  {
    var id, a := |m.calls|, Answer(c, s, q);
    NextParts(c, s, q);
    hide ExitOf;
    hide Answer;
    hide KeyOfCall;
    hide Next;
    hide Do;
    hide Allowed;
    hide IsRun;
    hide After;
    var k := AskAndDecide(c, s, q, m);
    LastOf(m.calls, Call(q, Storing(Shortcut, a)), Call(q, Ended(Shortcut, a)));
    var n := StoreAtEnd(c, s, q, k, id, Shortcut);
    Then(c, m, [Fetch(q), Decide(id, q.at.lookup)], k, Store(id, q.at.store));
  }

  /** The moves of a call up to its limit check. */
  function UpToCheck(s: State, q: Request, id: nat): seq<Move> {
    [Fetch(q), Decide(id, q.at.lookup)] + CheckMoves(s, q, id)
  }

  lemma MissThenCheck(c: Config, s: State, q: Request, m: Machine) returns (n: Machine)
    requires Mirrors(s, m) && m.clock <= q.at.lookup && InOrder(q.at)
    requires ExitOf(c, s, q).Limited? || ExitOf(c, s, q).Provided? || ExitOf(c, s, q).Degraded?
    ensures IsRun(c, m, UpToCheck(s, q, |m.calls|)) && After(c, m, UpToCheck(s, q, |m.calls|)) == n
    ensures n.entries == s.entries && n.used == Checked(s, q.at).calls && n.resetAt == Checked(s, q.at).resetAt
    ensures n.clock <= q.at.reset && n.lock.None?
    ensures var phase := if ExitOf(c, s, q).Limited? then Ended(Limited, Answer(c, s, q)) else Admitted;
            n.calls == m.calls + [Call(q, phase)]
  {
    var id, a, e := |m.calls|, Answer(c, s, q), ExitOf(c, s, q);
    hide ExitOf;
    hide Answer;
    hide Do;
    hide Allowed;
    hide IsRun;
    hide After;
    var k := AskAndDecide(c, s, q, m);
    LastOf(m.calls, Call(q, Missed), Call(q, if e.Limited? then Ended(Limited, a) else Admitted));
    n := CheckAfterMiss(c, s, q, k, id);
    RunsConcat(c, m, [Fetch(q), Decide(id, q.at.lookup)], CheckMoves(s, q, id));
  }

  lemma ProvidedIsItsMoves(c: Config, s: State, q: Request, m: Machine)
    requires Mirrors(s, m) && m.clock <= q.at.lookup && InOrder(q.at) && ExitOf(c, s, q).Provided?
    ensures var moves := UpToCheck(s, q, |m.calls|) + [Provide(|m.calls|, q.at.done)] + [Store(|m.calls|, q.at.store)];
            IsRun(c, m, moves) && Simulates(c, s, Analyze(q), m, After(c, m, moves))
  {
    var id, a, e := |m.calls|, Answer(c, s, q), ExitOf(c, s, q);
    NextParts(c, s, q);
    LastOf(m.calls, Call(q, Admitted), Call(q, Storing(e, a)));
    LastOf(m.calls, Call(q, Storing(e, a)), Call(q, Ended(e, a)));
    hide ExitOf;
    hide Answer;
    hide KeyOfCall;
    hide Next;
    hide Do;
    hide Allowed;
    hide IsRun;
    hide After;
    hide UpToCheck;
    var n := MissThenCheck(c, s, q, m);
    var p := ProvideAfterCheck(c, s, q, n, id);
    Then(c, m, UpToCheck(s, q, id), n, Provide(id, q.at.done));
    var r := StoreAtEnd(c, s, q, p, id, e);
    Then(c, m, UpToCheck(s, q, id) + [Provide(id, q.at.done)], p, Store(id, q.at.store));
  }

  lemma DegradedIsItsMoves(c: Config, s: State, q: Request, m: Machine)
    requires Mirrors(s, m) && m.clock <= q.at.lookup && InOrder(q.at) && ExitOf(c, s, q).Degraded?
    ensures var moves := UpToCheck(s, q, |m.calls|) + [Degrade(|m.calls|)];
            IsRun(c, m, moves) && Simulates(c, s, Analyze(q), m, After(c, m, moves))
  {
    var id, a := |m.calls|, Answer(c, s, q);
    NextParts(c, s, q);
    LastOf(m.calls, Call(q, Admitted), Call(q, Ended(Degraded, a)));
    hide ExitOf;
    hide Answer;
    hide KeyOfCall;
    hide Next;
    hide Do;
    hide Allowed;
    hide IsRun;
    hide After;
    hide UpToCheck;
    var n := MissThenCheck(c, s, q, m);
    var p := DegradeAfterCheck(c, s, q, n, id);
    Then(c, m, UpToCheck(s, q, id), n, Degrade(id));
  }

  lemma LimitedIsItsMoves(c: Config, s: State, q: Request, m: Machine)
    requires Mirrors(s, m) && m.clock <= q.at.lookup && InOrder(q.at) && ExitOf(c, s, q).Limited?
    ensures var moves := UpToCheck(s, q, |m.calls|);
            IsRun(c, m, moves) && Simulates(c, s, Analyze(q), m, After(c, m, moves))
  {
    NextParts(c, s, q);
    hide ExitOf;
    hide Answer;
    hide KeyOfCall;
    hide Next;
    hide IsRun;
    hide After;
    hide UpToCheck;
    var n := MissThenCheck(c, s, q, m);
  }

  lemma MissIsItsMoves(c: Config, s: State, q: Request, m: Machine)
    requires Mirrors(s, m) && m.clock <= q.at.lookup && InOrder(q.at)
    requires ExitOf(c, s, q).Limited? || ExitOf(c, s, q).Provided? || ExitOf(c, s, q).Degraded?
    ensures var moves := MovesOf(c, s, Analyze(q), |m.calls|);
            IsRun(c, m, moves) && Simulates(c, s, Analyze(q), m, After(c, m, moves))
  {
    MovesAfterMiss(c, s, q, |m.calls|);
    hide *;
    if ExitOf(c, s, q).Limited? {
      LimitedIsItsMoves(c, s, q, m);
    } else if ExitOf(c, s, q).Provided? {
      ProvidedIsItsMoves(c, s, q, m);
    } else {
      DegradedIsItsMoves(c, s, q, m);
    }
  }

  lemma MovesAfterMiss(c: Config, s: State, q: Request, id: nat)
    ensures match ExitOf(c, s, q)
            case Limited => MovesOf(c, s, Analyze(q), id) == UpToCheck(s, q, id)
            case Provided(_) =>
              MovesOf(c, s, Analyze(q), id) == UpToCheck(s, q, id) + [Provide(id, q.at.done)] + [Store(id, q.at.store)]
            case Degraded => MovesOf(c, s, Analyze(q), id) == UpToCheck(s, q, id) + [Degrade(id)]
            case _ => true
  {
    hide ExitOf;
  }

  /** One operation of CostGuard's machine is the moves of its call, with no other call in between. */
  lemma OperationIsItsMoves(c: Config, s: State, op: Op, m: Machine)
    requires Mirrors(s, m) && m.clock <= Begin(op) && (op.Analyze? ==> InOrder(op.q.at))
    ensures var moves := MovesOf(c, s, op, |m.calls|);
            IsRun(c, m, moves) && Simulates(c, s, op, m, After(c, m, moves))
  {
    if op.Purge? {
      PurgeIsItsMove(c, s, op.now, m);
    } else {
      var e := ExitOf(c, s, op.q);
      if e.Hit? {
        NextParts(c, s, op.q);
        var k := AskAndDecide(c, s, op.q, m);
        assert MovesOf(c, s, op, |m.calls|) == [Fetch(op.q), Decide(|m.calls|, op.q.at.lookup)];
        hide ExitOf;
        hide Answer;
        hide Next;
        hide IsRun;
        hide After;
      } else if e.Shortcut? {
        ShortcutIsItsMoves(c, s, op.q, m);
        hide ExitOf;
        hide IsRun;
        hide After;
        hide Simulates;
      } else {
        hide *;
        MissIsItsMoves(c, s, op.q, m);
      }
    }
  }

  /** The calls of the first i operations, each ended as CostGuard's machine says. */
  function CallsUpTo(c: Config, start: int, ops: seq<Op>, i: nat): seq<Call>
    requires i <= |ops|
  {
    if i == 0 then []
    else
      CallsUpTo(c, start, ops, i - 1)
      + if ops[i - 1].Analyze?
        then [Call(ops[i - 1].q, Ended(ExitAt(c, start, ops, i - 1), AnswerAt(c, start, ops, i - 1)))]
        else []
  }

  /** So every run of CostGuard's machine is a run of this one in which no two calls overlap. */
  lemma {:induction false} SequentialRunsAreRuns(c: Config, start: int, ops: seq<Op>, i: nat, now: int)
    returns (moves: seq<Move>)
    requires Timely(start, ops) && i <= |ops| && start <= now && forall k :: 0 <= k < i ==> End(ops[k]) <= now
    ensures IsRun(c, Begun(start), moves)
    ensures var m := After(c, Begun(start), moves);
            Mirrors(StateAt(c, start, ops, i), m) && m.clock <= now && m.calls == CallsUpTo(c, start, ops, i)
  {
    if i == 0 {
      moves := [];
    } else {
      var op := ops[i - 1];
      assert start <= Begin(op) && End(op) <= now && (op.Analyze? ==> InOrder(op.q.at));
      assert forall k :: 0 <= k < i - 1 ==> End(ops[k]) <= Begin(op);
      moves := SequentialRunsAreRuns(c, start, ops, i - 1, Begin(op));
      var s, m := StateAt(c, start, ops, i - 1), After(c, Begun(start), moves);
      OperationIsItsMoves(c, s, op, m);
      var more := MovesOf(c, s, op, |m.calls|);
      hide MovesOf;
      hide Do;
      hide Allowed;
      hide ExitOf;
      hide Answer;
      hide Apply;
      hide IsRun;
      hide After;
      RunsConcat(c, Begun(start), moves, more);
      moves := moves + more;
    }
  }
}
