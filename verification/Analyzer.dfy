/**
 The analyzer's mutable state and methods (internal/llm/analyzer.go), proved to do exactly what
 CostGuard specifies. Clock readings and provider outcomes are parameters.
 */
module Analyzer {
  import opened Basics
  import opened CostGuard

  /** AnalysisCache */
  class AnalysisCache {
    var entries: map<string, Entry>
    const ttl: int

    constructor (ttl: int)
      ensures entries == map[] && this.ttl == if ttl <= 0 then 24 * HOUR else ttl
    {
      entries := map[];
      this.ttl := if ttl <= 0 then 24 * HOUR else ttl;
    }

    method Get(key: string, now: int) returns (r: Option<Result>)
      ensures r == if key in entries && now <= entries[key].expiresAt then Some(entries[key].result) else None
    {
      if key !in entries || now > entries[key].expiresAt {
        return None;
      }
      return Some(entries[key].result);
    }

    method Set(key: string, result: Result, now: int)
      modifies this
      ensures entries == old(entries)[key := Entry(result, now + ttl)]
    {
      entries := entries[key := Entry(result, now + ttl)];
    }

    /** The order in which the map is walked is arbitrary. */
    method Purge(now: int)
      modifies this
      ensures entries == map k | k in old(entries) && !(now > old(entries)[k].expiresAt) :: old(entries)[k]
    {
      var all, todo := entries, entries.Keys;
      while todo != {}
        invariant todo <= all.Keys
        invariant entries.Keys == set k | k in all && (k in todo || !(now > all[k].expiresAt))
        invariant forall k :: k in entries ==> entries[k] == all[k]
        decreases |todo|
      {
        var k :| k in todo;
        todo := todo - {k};
        if now > all[k].expiresAt {
          entries := entries - {k};
        }
      }
    }
  }

  /** Analyzer */
  class Analyzer {
    const cache: AnalysisCache
    const config: Config
    var callsThisHour: nat
    var hourResetAt: int
    var cacheHits: nat
    var ragShortcuts: nat
    var llmCalls: nat

    ghost predicate Valid()
      reads this, cache
    {
      cache.ttl == config.ttl && config.maxCalls >= 1
    }

    ghost function Abs(): State
      reads this, cache
    {
      State(cache.entries, callsThisHour, hourResetAt, cacheHits, ragShortcuts, llmCalls)
    }

    /** NewAnalyzer */
    constructor (ragThreshold: real, criticalThreshold: real, maxCalls: int, ttl: int, now: int)
      ensures Valid() && fresh(cache)
      ensures config == Configure(ragThreshold, criticalThreshold, maxCalls, ttl) && Abs() == Init(now)
    {
      config := Configure(ragThreshold, criticalThreshold, maxCalls, ttl);
      cache := new AnalysisCache(ttl);
      callsThisHour, hourResetAt := 0, now + HOUR;
      cacheHits, ragShortcuts, llmCalls := 0, 0, 0;
    }

    /**
     Analyze; its error result is always nil. A request that is neither cached nor confident enough, while calls
     are left, gets the answer of the first provider that succeeds; it is degraded, with the last provider's error,
     iff all of them fail.
     */
    method Analyze(q: Request) returns (answer: Result)
      requires Valid()
      modifies this, cache
      ensures Valid()
      ensures answer == Answer(config, old(Abs()), q)
      ensures Abs() == Next(config, old(Abs()), q)
      ensures AskedFirst(config, old(Abs()), q, answer)
    {
      AskedInOrder(config, Abs(), q);
      var key := Key(q.pattern, q.namespace);
      var cached := cache.Get(key, q.at.lookup);
      if cached.Some? {
        cacheHits := cacheHits + 1;
        return cached.value.(source := "cache");
      }

      if !ShouldUseLLM(config, q.ragConfidence, q.severity) {
        ragShortcuts := ragShortcuts + 1;
        answer := RagOnlyResult(q.ragContext, q.ragConfidence, q.severity);
        cache.Set(key, answer, q.at.store);
        return;
      }

      if q.at.check > hourResetAt {
        callsThisHour := 0;
        hourResetAt := q.at.reset + HOUR;
      }
      if callsThisHour >= config.maxCalls {
        answer := RagOnlyResult(q.ragContext, q.ragConfidence, q.severity);
        return answer.(rootCause := RateLimited(answer.rootCause));
      }

      answer := AskProviders(q, key);
    }

    /** The last two steps of Analyze: the providers in order, and caching what one of them answers. */
    method AskProviders(q: Request, key: string) returns (answer: Result)
      requires Valid()
      modifies this`callsThisHour, this`llmCalls, cache
      ensures Valid()
      ensures match FirstSuccess(q.outcomes, 0)
              case Some(i) =>
                && answer == q.outcomes[i].result
                && cache.entries == old(cache.entries)[key := Entry(answer, q.at.store + config.ttl)]
                && callsThisHour == old(callsThisHour) + 1 && llmCalls == old(llmCalls) + 1
              case None =>
                && answer == RagOnlyResult(q.ragContext, q.ragConfidence, q.severity)
                               .(rootCause := LlmUnavailable(LastError(q.outcomes)))
                && cache.entries == old(cache.entries)
                && callsThisHour == old(callsThisHour) && llmCalls == old(llmCalls)
    {
      var result, lastErr := TryProviders(q.outcomes);
      FirstIsFirst(q.outcomes, result);
      if result.None? {
        answer := RagOnlyResult(q.ragContext, q.ragConfidence, q.severity);
        return answer.(rootCause := LlmUnavailable(lastErr));
      }
      cache.Set(key, result.value, q.at.store);
      return result.value;
    }

    /** The provider loop of Analyze: the first success counts and ends it. */
    method TryProviders(outcomes: seq<Outcome>) returns (result: Option<Result>, lastErr: string)
      modifies this`callsThisHour, this`llmCalls
      ensures result.Some? ==>
                exists i :: 0 <= i < |outcomes| && outcomes[i] == Succeeds(result.value)
                            && forall k :: 0 <= k < i ==> outcomes[k].Fails?
      ensures result.None? <==> forall k :: 0 <= k < |outcomes| ==> outcomes[k].Fails?
      ensures result.None? ==> lastErr == if outcomes == [] then "<nil>" else outcomes[|outcomes| - 1].error
      ensures callsThisHour == old(callsThisHour) + if result.Some? then 1 else 0
      ensures llmCalls == old(llmCalls) + if result.Some? then 1 else 0
    {
      result, lastErr := None, "<nil>";
      for i := 0 to |outcomes|
        invariant result == None && forall k :: 0 <= k < i ==> outcomes[k].Fails?
        invariant lastErr == if i == 0 then "<nil>" else outcomes[i - 1].error
        invariant callsThisHour == old(callsThisHour) && llmCalls == old(llmCalls)
      {
        match outcomes[i]
        case Fails(error) =>
          lastErr := error;
        case Succeeds(res) =>
          callsThisHour := callsThisHour + 1;
          llmCalls := llmCalls + 1;
          return Some(res), lastErr;
      }
    }

    /** The body of StartCachePurger's ticker. */
    method PurgeCache(now: int)
      requires Valid()
      modifies cache
      ensures Valid() && Abs() == Purged(old(Abs()), now)
    {
      cache.Purge(now);
    }
  }
}
