/**
 What the LLM analyzer does with one request, and over whole runs (internal/llm/analyzer.go): a cache
 with a time to live, a retrieval cost gate, an hourly limit and a chain of providers. Providers are
 oracles; every clock reading of a call is an input. The class with the source's fields is in Analyzer.
 */
module CostGuard {
  import opened Basics
  import RateLimiter

  const HOUR: int := RateLimiter.HOUR

  /** Text for people: a provider's own words, or one of the analyzer's fixed messages, by its line. */
  datatype Prose =
    | Written(text: string)
    | FromKnowledgeBase               // line 305
    | NoMatchingRunbooks              // line 307
    | SeeRunbookContext               // line 317
    | ReviewKnowledgeBase             // line 319
    | RateLimited(rest: Prose)        // line 217
    | LlmUnavailable(error: string)   // line 262

  /** AnalysisResult */
  datatype Result = Result(rootCause: Prose, confidence: real, impact: Prose, severity: string,
                           actions: seq<Prose>, runbooks: seq<string>, tokensUsed: int, source: string)

  datatype Outcome = Succeeds(result: Result) | Fails(error: string)

  datatype Entry = Entry(result: Result, expiresAt: int)

  datatype Config = Config(ragThreshold: real, criticalThreshold: real, maxCalls: nat, ttl: int)

  datatype State = State(entries: map<string, Entry>, calls: nat, resetAt: int,
                         cacheHits: nat, ragShortcuts: nat, llmCalls: nat)

  /** The clock as one call reads it; done is the moment a successful provider call is counted. */
  datatype Times = Times(lookup: int, check: int, reset: int, done: int, store: int)

  datatype Request = Request(pattern: string, namespace: string, ragContext: string, ragConfidence: real,
                             severity: string, outcomes: seq<Outcome>, at: Times)

  /** The ways out of Analyze. */
  datatype Exit = Hit | Shortcut | Limited | Provided(index: nat) | Degraded

  /** newAnalysisCache and NewAnalyzer: what is not positive is replaced by a default. */
  function Configure(ragThreshold: real, criticalThreshold: real, maxCalls: int, ttl: int): (c: Config)
    ensures c.ragThreshold > 0.0 && c.criticalThreshold > 0.0 && c.maxCalls >= 1 && c.ttl > 0
  {
    Config(if ragThreshold <= 0.0 then 0.75 else ragThreshold,
           if criticalThreshold <= 0.0 then 0.9 else criticalThreshold,
           if maxCalls <= 0 then 60 else maxCalls,
           if ttl <= 0 then 24 * HOUR else ttl)
  }

  function Init(start: int): State {
    State(map[], 0, start + HOUR, 0, 0, 0)
  }

  // ------------------------------------------------------------------ one request

  function Key(pattern: string, namespace: string): string {
    pattern + "|" + namespace
  }

  function LowerAscii(c: char): char {
    if 'A' <= c <= 'Z' then 'a' + (c - 'A') else c
  }

  /** strings.EqualFold(severity, "critical"); no letter of the word folds outside ASCII. */
  predicate IsCritical(severity: string) {
    |severity| == 8 && forall i :: 0 <= i < 8 ==> LowerAscii(severity[i]) == "critical"[i]
  }

  function Threshold(c: Config, severity: string): real {
    if IsCritical(severity) then c.criticalThreshold else c.ragThreshold
  }

  predicate ShouldUseLLM(c: Config, ragConfidence: real, severity: string) {
    ragConfidence < Threshold(c, severity)
  }

  /** ragOnlyResult */
  function RagOnlyResult(ragContext: string, ragConfidence: real, severity: string): Result {
    Result(if ragContext == "" then NoMatchingRunbooks else FromKnowledgeBase, ragConfidence, SeeRunbookContext,
           if severity == "" then "medium" else severity, [ReviewKnowledgeBase], [], 0, "rag")
  }

  /** The first provider that succeeds, if any, starting with provider i. */
  function FirstSuccess(outcomes: seq<Outcome>, i: nat): (r: Option<nat>)
    requires i <= |outcomes|
    ensures r.Some? ==> i <= r.value < |outcomes| && outcomes[r.value].Succeeds?
    ensures r.Some? ==> forall k :: i <= k < r.value ==> outcomes[k].Fails?
    ensures r.None? ==> forall k :: i <= k < |outcomes| ==> outcomes[k].Fails?
    decreases |outcomes| - i
  {
    if i == |outcomes| then None
    else if outcomes[i].Succeeds? then Some(i)
    else FirstSuccess(outcomes, i + 1)
  }

  function LastError(outcomes: seq<Outcome>): string {
    if outcomes != [] && outcomes[|outcomes| - 1].Fails? then outcomes[|outcomes| - 1].error else "<nil>"
  }

  function Lookup(s: State, key: string, now: int): Option<Result> {
    if key in s.entries && !(now > s.entries[key].expiresAt) then Some(s.entries[key].result) else None
  }

  /** The check of the hourly limit, with its lazy reset. */
  function Checked(s: State, at: Times): State {
    if at.check > s.resetAt then s.(calls := 0, resetAt := at.reset + HOUR) else s
  }

  function ExitOf(c: Config, s: State, q: Request): Exit {
    if Lookup(s, Key(q.pattern, q.namespace), q.at.lookup).Some? then Hit
    else if !ShouldUseLLM(c, q.ragConfidence, q.severity) then Shortcut
    else if Checked(s, q.at).calls >= c.maxCalls then Limited
    else match FirstSuccess(q.outcomes, 0)
      case Some(i) => Provided(i)
      case None => Degraded
  }

  function Answer(c: Config, s: State, q: Request): Result {
    var rag := RagOnlyResult(q.ragContext, q.ragConfidence, q.severity);
    match ExitOf(c, s, q)
    case Hit => Lookup(s, Key(q.pattern, q.namespace), q.at.lookup).value.(source := "cache")
    case Shortcut => rag
    case Limited => rag.(rootCause := RateLimited(rag.rootCause))
    case Provided(i) => q.outcomes[i].result
    case Degraded => rag.(rootCause := LlmUnavailable(LastError(q.outcomes)))
  }

  function Store(c: Config, s: State, key: string, result: Result, now: int): State {
    s.(entries := s.entries[key := Entry(result, now + c.ttl)])
  }

  function Next(c: Config, s: State, q: Request): State {
    var key, answer := Key(q.pattern, q.namespace), Answer(c, s, q);
    match ExitOf(c, s, q)
    case Hit => s.(cacheHits := s.cacheHits + 1)
    case Shortcut => Store(c, s.(ragShortcuts := s.ragShortcuts + 1), key, answer, q.at.store)
    case Limited => Checked(s, q.at)
    case Provided(_) =>
      var k := Checked(s, q.at);
      Store(c, k.(calls := k.calls + 1, llmCalls := k.llmCalls + 1), key, answer, q.at.store)
    case Degraded => Checked(s, q.at)
  }

  /** AnalysisCache.Purge at time now */
  function Purged(s: State, now: int): State {
    s.(entries := map k | k in s.entries && !(now > s.entries[k].expiresAt) :: s.entries[k])
  }

  // ------------------------------------------------------------------ the five ways out, one by one

  /** Settings that are positive are kept; the others become 0.75, 0.9, 60 calls and 24 hours. */
  lemma Defaults(ragThreshold: real, criticalThreshold: real, maxCalls: int, ttl: int)
    ensures var c := Configure(ragThreshold, criticalThreshold, maxCalls, ttl);
            && c.ragThreshold == (if ragThreshold > 0.0 then ragThreshold else 0.75)
            && c.criticalThreshold == (if criticalThreshold > 0.0 then criticalThreshold else 0.9)
            && c.maxCalls == (if maxCalls > 0 then maxCalls else 60)
            && c.ttl == (if ttl > 0 then ttl else 86_400_000_000_000)
  {
  }

  /** The word critical, each letter in either case, and nothing else has the higher threshold. */
  predicate SpellsCritical(severity: string) {
    |severity| == 8 && forall i :: 0 <= i < 8 ==> severity[i] == "critical"[i] || severity[i] == "CRITICAL"[i]
  }

  lemma CriticalInAnyCase(severity: string)
    ensures IsCritical(severity) <==> SpellsCritical(severity)
  {
    assert "critical" == ['c', 'r', 'i', 't', 'i', 'c', 'a', 'l'];
    assert "CRITICAL" == ['C', 'R', 'I', 'T', 'I', 'C', 'A', 'L'];
  }

  /** An unexpired entry of the request's pattern and namespace. */
  predicate Cached(s: State, q: Request) {
    var key := q.pattern + "|" + q.namespace;
    key in s.entries && q.at.lookup <= s.entries[key].expiresAt
  }

  predicate ConfidentEnough(c: Config, q: Request) {
    q.ragConfidence >= if SpellsCritical(q.severity) then c.criticalThreshold else c.ragThreshold
  }

  /** The hour's calls are used up, and no new hour begins with this call. */
  predicate UsedUp(c: Config, s: State, q: Request) {
    s.calls >= c.maxCalls && q.at.check <= s.resetAt
  }

  /** What retrieval alone answers, but for the root cause. */
  predicate FromRetrieval(r: Result, q: Request) {
    && r.confidence == q.ragConfidence && r.severity == (if q.severity == "" then "medium" else q.severity)
    && r.source == "rag" && r.tokensUsed == 0 && r.runbooks == [] && r.impact == SeeRunbookContext
    && r.actions == [ReviewKnowledgeBase]
  }

  /** The root cause that retrieval alone gives. */
  function Excerpt(q: Request): Prose {
    if q.ragContext == "" then NoMatchingRunbooks else FromKnowledgeBase
  }

  /** The answer comes from provider i, and every provider before it has failed. */
  predicate FirstToSucceed(outcomes: seq<Outcome>, i: nat, result: Result) {
    i < |outcomes| && outcomes[i] == Succeeds(result) && forall k :: 0 <= k < i ==> outcomes[k].Fails?
  }

  predicate AllFail(outcomes: seq<Outcome>) {
    forall k :: 0 <= k < |outcomes| ==> outcomes[k].Fails?
  }

  function ErrorOfLast(outcomes: seq<Outcome>): string
    requires AllFail(outcomes)
  {
    if outcomes == [] then "<nil>" else outcomes[|outcomes| - 1].error
  }

  /** A result that is the first success, or a lack of any, is what FirstSuccess finds. */
  lemma FirstIsFirst(outcomes: seq<Outcome>, result: Option<Result>)
    requires result.Some? ==>
               exists i :: 0 <= i < |outcomes| && outcomes[i] == Succeeds(result.value)
                           && forall k :: 0 <= k < i ==> outcomes[k].Fails?
    requires result.None? ==> forall k :: 0 <= k < |outcomes| ==> outcomes[k].Fails?
    ensures result.Some? ==> FirstSuccess(outcomes, 0).Some?
                             && outcomes[FirstSuccess(outcomes, 0).value].result == result.value
    ensures result.None? ==> FirstSuccess(outcomes, 0).None?
                             && LastError(outcomes)
                                == if outcomes == [] then "<nil>" else outcomes[|outcomes| - 1].error
  {
  }

  /** Which way out a request takes, by what the caller passes in and the state it meets. */
  lemma WhichExit(c: Config, s: State, q: Request)
    requires c.maxCalls >= 1
    ensures var (e, past) := (ExitOf(c, s, q), !Cached(s, q) && !ConfidentEnough(c, q) && !UsedUp(c, s, q));
            && (e.Hit? <==> Cached(s, q))
            && (e.Shortcut? <==> !Cached(s, q) && ConfidentEnough(c, q))
            && (e.Limited? <==> !Cached(s, q) && !ConfidentEnough(c, q) && UsedUp(c, s, q))
            && (e.Provided? <==> past && !AllFail(q.outcomes))
            && (e.Degraded? <==> past && AllFail(q.outcomes))
  {
    CriticalInAnyCase(q.severity);
    hide IsCritical;
    hide SpellsCritical;
  }

  /** What it answers then; providers are asked in order, and the first success answers. */
  lemma WhatIsAnswered(c: Config, s: State, q: Request)
    ensures var (e, a) := (ExitOf(c, s, q), Answer(c, s, q));
            && (e.Hit? ==> Cached(s, q) && a == s.entries[q.pattern + "|" + q.namespace].result.(source := "cache"))
            && (e.Shortcut? ==> FromRetrieval(a, q) && a.rootCause == Excerpt(q))
            && (e.Limited? ==> FromRetrieval(a, q) && a.rootCause == RateLimited(Excerpt(q)))
            && (e.Provided? ==> FirstToSucceed(q.outcomes, e.index, a))
            && (e.Degraded? ==> && FromRetrieval(a, q) && AllFail(q.outcomes)
                                && a.rootCause == LlmUnavailable(ErrorOfLast(q.outcomes)))
  {
    hide ShouldUseLLM;
  }

  /** With calls left and nothing better to answer, the first provider that succeeds answers, or all have failed. */
  ghost predicate AskedFirst(c: Config, s: State, q: Request, answer: Result) {
    !Cached(s, q) && !ConfidentEnough(c, q) && !UsedUp(c, s, q) ==>
      if AllFail(q.outcomes)
      then FromRetrieval(answer, q) && answer.rootCause == LlmUnavailable(ErrorOfLast(q.outcomes))
      else exists i: nat :: FirstToSucceed(q.outcomes, i, answer)
  }

  lemma AskedInOrder(c: Config, s: State, q: Request)
    requires c.maxCalls >= 1
    ensures AskedFirst(c, s, q, Answer(c, s, q))
  {
    WhichExit(c, s, q);
    WhatIsAnswered(c, s, q);
    hide ExitOf;
    hide Answer;
    hide Cached;
    hide ConfidentEnough;
    hide UsedUp;
    hide FirstToSucceed;
    hide AllFail;
  }

  /** Only a shortcut or a provider's answer is cached, for ttl from the store; only a provider's is counted. */
  lemma WhatIsKept(c: Config, s: State, q: Request)
    ensures var (e, a, n, reopens) := (ExitOf(c, s, q), Answer(c, s, q), Next(c, s, q), q.at.check > s.resetAt);
            && n.entries == (if e.Shortcut? || e.Provided?
                             then s.entries[q.pattern + "|" + q.namespace := Entry(a, q.at.store + c.ttl)]
                             else s.entries)
            && n.cacheHits == s.cacheHits + (if e.Hit? then 1 else 0)
            && n.ragShortcuts == s.ragShortcuts + (if e.Shortcut? then 1 else 0)
            && n.llmCalls == s.llmCalls + (if e.Provided? then 1 else 0)
            && n.calls == (if !e.Hit? && !e.Shortcut? && reopens then 0 else s.calls) + (if e.Provided? then 1 else 0)
            && n.resetAt == if !e.Hit? && !e.Shortcut? && reopens then q.at.reset + 3_600_000_000_000 else s.resetAt
  {
    hide ExitOf;
    hide Answer;
  }

  // ------------------------------------------------------------------ runs

  datatype Op = Analyze(q: Request) | Purge(now: int)

  function Apply(c: Config, s: State, op: Op): State {
    match op
    case Analyze(q) => Next(c, s, q)
    case Purge(now) => Purged(s, now)
  }

  /** The state before operation i of the run. */
  function StateAt(c: Config, start: int, ops: seq<Op>, i: nat): State
    requires i <= |ops|
  {
    if i == 0 then Init(start) else Apply(c, StateAt(c, start, ops, i - 1), ops[i - 1])
  }

  predicate InOrder(t: Times) {
    t.lookup <= t.check <= t.reset <= t.done <= t.store
  }

  function Begin(op: Op): int {
    match op
    case Analyze(q) => q.at.lookup
    case Purge(now) => now
  }

  function End(op: Op): int {
    match op
    case Analyze(q) => q.at.store
    case Purge(now) => now
  }

  /** Calls do not overlap and the clock does not go back. */
  predicate Timely(start: int, ops: seq<Op>) {
    && (forall i :: 0 <= i < |ops| && ops[i].Analyze? ==> InOrder(ops[i].q.at))
    && (forall i :: 0 <= i < |ops| ==> start <= Begin(ops[i]))
    && (forall i, j :: 0 <= i < j < |ops| ==> End(ops[i]) <= Begin(ops[j]))
  }

  function KeyOf(op: Op): string
    requires op.Analyze?
  {
    Key(op.q.pattern, op.q.namespace)
  }

  function ExitAt(c: Config, start: int, ops: seq<Op>, i: nat): Exit
    requires i < |ops| && ops[i].Analyze?
  {
    ExitOf(c, StateAt(c, start, ops, i), ops[i].q)
  }

  function AnswerAt(c: Config, start: int, ops: seq<Op>, i: nat): Result
    requires i < |ops| && ops[i].Analyze?
  {
    Answer(c, StateAt(c, start, ops, i), ops[i].q)
  }

  /** Operation i analysed key afresh: by the retrieval shortcut or by a provider. */
  predicate Stores(c: Config, start: int, ops: seq<Op>, i: nat, key: string)
    requires i < |ops|
    ensures Stores(c, start, ops, i, key) ==> ops[i].Analyze?
  {
    && ops[i].Analyze? && KeyOf(ops[i]) == key
    && (ExitAt(c, start, ops, i).Shortcut? || ExitAt(c, start, ops, i).Provided?)
  }

  /** The latest operation before i that stored key, if any. */
  function LatestStore(c: Config, start: int, ops: seq<Op>, i: nat, key: string): (r: Option<nat>)
    requires i <= |ops|
    ensures r.Some? ==> r.value < i && ops[r.value].Analyze?
  {
    if i == 0 then None
    else if Stores(c, start, ops, i - 1, key) then Some(i - 1)
    else LatestStore(c, start, ops, i - 1, key)
  }

  lemma {:induction false} LatestStoreIsLatest(c: Config, start: int, ops: seq<Op>, i: nat, key: string)
    requires i <= |ops|
    ensures var j := LatestStore(c, start, ops, i, key);
            && (j.Some? ==> Stores(c, start, ops, j.value, key))
            && forall k :: (if j.Some? then j.value + 1 else 0) <= k < i ==> !Stores(c, start, ops, k, key)
  {
    hide Stores;
    if i > 0 {
      LatestStoreIsLatest(c, start, ops, i - 1, key);
    }
  }

  /** What the latest store of key leaves in the cache. */
  function StoredEntry(c: Config, start: int, ops: seq<Op>, j: nat): Entry
    requires j < |ops| && ops[j].Analyze?
  {
    Entry(AnswerAt(c, start, ops, j), ops[j].q.at.store + c.ttl)
  }

  /** The cached entry of a key is the one its latest store left; only an expired one may be missing. */
  predicate CacheFollows(c: Config, start: int, ops: seq<Op>, i: nat, key: string, now: int)
    requires i <= |ops|
  {
    var entries, j := StateAt(c, start, ops, i).entries, LatestStore(c, start, ops, i, key);
    && (key in entries ==> j.Some? && entries[key] == StoredEntry(c, start, ops, j.value))
    && (j.Some? && key !in entries ==> now > StoredEntry(c, start, ops, j.value).expiresAt)
  }

  lemma {:induction false} CacheFollowsRun(c: Config, start: int, ops: seq<Op>, i: nat, key: string, now: int)
    requires Timely(start, ops) && i <= |ops|
    requires forall k :: 0 <= k < i ==> End(ops[k]) <= now
    ensures CacheFollows(c, start, ops, i, key, now)
  {
    if i > 0 {
      hide CacheFollows;
      CacheFollowsRun(c, start, ops, i - 1, key, now);
      if ops[i - 1].Analyze? {
        CacheFollowsAnalyze(c, start, ops, i - 1, key, now);
      } else {
        CacheFollowsPurge(c, start, ops, i - 1, key, now);
      }
    }
  }

  lemma CacheFollowsPurge(c: Config, start: int, ops: seq<Op>, i: nat, key: string, now: int)
    requires i < |ops| && ops[i].Purge? && ops[i].now <= now
    requires CacheFollows(c, start, ops, i, key, now)
    ensures CacheFollows(c, start, ops, i + 1, key, now)
  {
    var s := StateAt(c, start, ops, i);
    assert StateAt(c, start, ops, i + 1) == Purged(s, ops[i].now);
    assert LatestStore(c, start, ops, i + 1, key) == LatestStore(c, start, ops, i, key);
    hide StateAt;
    hide LatestStore;
    hide StoredEntry;
    hide Stores;
  }

  lemma CacheFollowsAnalyze(c: Config, start: int, ops: seq<Op>, i: nat, key: string, now: int)
    requires i < |ops| && ops[i].Analyze?
    requires CacheFollows(c, start, ops, i, key, now)
    ensures CacheFollows(c, start, ops, i + 1, key, now)
  {
    var s, q := StateAt(c, start, ops, i), ops[i].q;
    assert StateAt(c, start, ops, i + 1) == Next(c, s, q);
    assert LatestStore(c, start, ops, i + 1, key)
        == if Stores(c, start, ops, i, key) then Some(i) else LatestStore(c, start, ops, i, key);
    hide StateAt;
    hide LatestStore;
    hide Next;
    hide Key;
    hide ExitOf;
    hide Answer;
    NextEntries(c, s, q, key);
  }

  lemma NextEntries(c: Config, s: State, q: Request, key: string)
    ensures var e := ExitOf(c, s, q);
            if key == Key(q.pattern, q.namespace) && (e.Shortcut? || e.Provided?) then
              key in Next(c, s, q).entries && Next(c, s, q).entries[key] == Entry(Answer(c, s, q), q.at.store + c.ttl)
            else
              && (key in Next(c, s, q).entries <==> key in s.entries)
              && (key in s.entries ==> Next(c, s, q).entries[key] == s.entries[key])
  {
    hide Answer;
    hide ExitOf;
    hide Key;
  }

  /**
   A request is answered from the cache iff its key's latest fresh analysis, by the retrieval shortcut
   or by a provider, is at most ttl old; no rate-limited or degraded answer is ever reused, and purging,
   whenever it happens, changes nothing. The answer is the stored one except for its source.
   */
  lemma HitRepeatsLatestAnalysis(c: Config, start: int, ops: seq<Op>, i: nat)
    requires Timely(start, ops) && i < |ops| && ops[i].Analyze?
    ensures var j := LatestStore(c, start, ops, i, KeyOf(ops[i]));
            && (j.Some? ==> Stores(c, start, ops, j.value, KeyOf(ops[i])))
            && forall k :: (if j.Some? then j.value + 1 else 0) <= k < i ==> !Stores(c, start, ops, k, KeyOf(ops[i]))
    ensures var j := LatestStore(c, start, ops, i, KeyOf(ops[i]));
            ExitAt(c, start, ops, i).Hit? <==> j.Some? && ops[i].q.at.lookup - ops[j.value].q.at.store <= c.ttl
    ensures ExitAt(c, start, ops, i).Hit? ==>
              var j := LatestStore(c, start, ops, i, KeyOf(ops[i]));
              AnswerAt(c, start, ops, i) == AnswerAt(c, start, ops, j.value).(source := "cache")
  {
    hide Stores;
    hide LatestStore;
    LatestStoreIsLatest(c, start, ops, i, KeyOf(ops[i]));
    CacheFollowsRun(c, start, ops, i, KeyOf(ops[i]), ops[i].q.at.lookup);
  }

  /** Purge never changes the outcome of a later lookup. */
  lemma PurgeIsInvisible(s: State, key: string, purge: int, now: int)
    requires purge <= now
    ensures Lookup(Purged(s, purge), key, now) == Lookup(s, key, now)
  {
  }

  // ------------------------------------------------------------------ the cache key

  /** Equal keys mean equal requests, or one pattern extends the other across a '|' of a namespace. */
  lemma KeyCollisions(p: string, n: string, p': string, n': string)
    ensures Key(p, n) == Key(p', n') <==>
              || (p == p' && n == n')
              || (exists m :: p' == p + "|" + m && n == m + "|" + n')
              || (exists m :: p == p' + "|" + m && n' == m + "|" + n)
  {
    if Key(p, n) == Key(p', n') {
      if |p| < |p'| {
        KeySplit(p, n, p', n');
      } else if |p'| < |p| {
        KeySplit(p', n', p, n);
      } else {
        assert Key(p, n)[..|p|] == p && Key(p', n')[..|p|] == p';
        assert Key(p, n)[|p| + 1..] == n && Key(p', n')[|p| + 1..] == n';
      }
    }
    if m :| p' == p + "|" + m && n == m + "|" + n' {
      assert Key(p, n) == Key(p', n');
    }
    if m :| p == p' + "|" + m && n' == m + "|" + n {
      assert Key(p, n) == Key(p', n');
    }
  }

  lemma KeySplit(p: string, n: string, p': string, n': string)
    requires Key(p, n) == Key(p', n') && |p| < |p'|
    ensures exists m :: p' == p + "|" + m && n == m + "|" + n'
  {
    var k, d := Key(p, n), |p'| - |p| - 1;
    assert k == Key(p', n');
    assert k[..|p|] == p && k[|p|] == '|' && k[|p| + 1..] == n;
    assert k[..|p'|] == p' && k[|p'|] == '|' && k[|p'| + 1..] == n';
    var m := n[..d];
    assert p' == p + "|" + m;
    assert n[d] == '|' && n[d + 1..] == n';
    assert n == m + "|" + n';
  }

  /** A namespace without '|' is determined by its keys among such namespaces, and no other namespace is. */
  lemma KeyDeterminesRequest(n: string)
    ensures '|' !in n <==> forall p, p', n' :: '|' !in n' && Key(p, n) == Key(p', n') ==> p == p' && n == n'
  {
    if '|' !in n {
      forall p, p', n' | '|' !in n' && Key(p, n) == Key(p', n')
        ensures p == p' && n == n'
      {
        KeyCollisions(p, n, p', n');
      }
    } else {
      var a, b := SplitAtLastBar(n);
      assert '|' !in b && Key("", n) == Key("|" + a, b) && "" != "|" + a;
    }
  }

  lemma {:induction false} SplitAtLastBar(n: string) returns (a: string, b: string)
    requires '|' in n
    ensures n == a + "|" + b && '|' !in b
  {
    var k := |n| - 1;
    if n[k] == '|' {
      a, b := n[..k], "";
    } else {
      assert n == n[..k] + [n[k]];
      a, b := SplitAtLastBar(n[..k]);
      b := b + [n[k]];
    }
  }

  // ------------------------------------------------------------------ the hourly limit in sequential runs

  /** The steps one operation takes in the step model of the limiter. */
  function LimiterSteps(c: Config, s: State, op: Op): seq<RateLimiter.Step> {
    match op
    case Purge(_) => []
    case Analyze(q) =>
      var e := ExitOf(c, s, q);
      if e.Hit? || e.Shortcut? then [RateLimiter.Enter(0), RateLimiter.Leave(0)]
      else [RateLimiter.Enter(0), RateLimiter.Check(0, q.at.check, q.at.reset)] + LastSteps(e, q.at.done)
  }

  function LastSteps(e: Exit, done: int): seq<RateLimiter.Step> {
    if e.Provided? then [RateLimiter.Count(0, done)] else if e.Degraded? then [RateLimiter.Fail(0)] else []
  }

  /** The limiter fields of s, seen as a state of the step model between two calls. */
  predicate Matches(s: State, r: RateLimiter.State) {
    r.calls == s.calls && r.resetAt == s.resetAt && r.phases == map[]
  }

  lemma TwoSteps(r: RateLimiter.State, x: RateLimiter.Step, y: RateLimiter.Step, max: nat)
    requires RateLimiter.Enabled(r, x, 1) && RateLimiter.Enabled(RateLimiter.Apply(r, x, max), y, 1)
    ensures RateLimiter.IsRun(r, [x, y], max, 1)
    ensures RateLimiter.After(r, [x, y], max) == RateLimiter.Apply(RateLimiter.Apply(r, x, max), y, max)
  {
    hide *;
    var r1 := RateLimiter.Apply(r, x, max);
    RateLimiter.OneStep(r, x, max, 1);
    RateLimiter.OneStep(r1, y, max, 1);
    RateLimiter.RunConcat(r, [x], [y], max, 1);
    assert [x] + [y] == [x, y];
  }

  function CheckLog(s: State, at: Times): seq<RateLimiter.Event> {
    if at.check > s.resetAt then [RateLimiter.Reset(at.reset)] else []
  }

  function LastLog(e: Exit, done: int): seq<RateLimiter.Event> {
    if e.Provided? then [RateLimiter.Counted(done)] else []
  }

  /** What one operation adds to the limiter's log. */
  function LogOf(c: Config, s: State, op: Op): seq<RateLimiter.Event> {
    match op
    case Purge(_) => []
    case Analyze(q) =>
      var e := ExitOf(c, s, q);
      if e.Hit? || e.Shortcut? then [] else CheckLog(s, q.at) + LastLog(e, q.at.done)
  }

  lemma OperationTakesSteps(c: Config, s: State, op: Op, r: RateLimiter.State)
    requires Matches(s, r) && r.clock <= Begin(op) && (op.Analyze? ==> InOrder(op.q.at))
    ensures var steps := LimiterSteps(c, s, op);
            && RateLimiter.IsRun(r, steps, c.maxCalls, 1)
            && Matches(Apply(c, s, op), RateLimiter.After(r, steps, c.maxCalls))
            && RateLimiter.After(r, steps, c.maxCalls).clock <= End(op)
            && RateLimiter.After(r, steps, c.maxCalls).log == r.log + LogOf(c, s, op)
  {
    if op.Analyze? {
      var e := ExitOf(c, s, op.q);
      if e.Hit? || e.Shortcut? {
        hide ExitOf;
        hide Answer;
        UnlimitedSteps(r, c.maxCalls);
      } else {
        NextLimiter(c, s, op.q);
        LimitedSteps(Checked(s, op.q.at), c, s, op.q, r, e);
        assert LimiterSteps(c, s, op)
            == [RateLimiter.Enter(0), RateLimiter.Check(0, op.q.at.check, op.q.at.reset)] + LastSteps(e, op.q.at.done);
        assert LogOf(c, s, op) == CheckLog(s, op.q.at) + LastLog(e, op.q.at.done);
        hide *;
      }
    }
  }

  lemma UnlimitedSteps(r: RateLimiter.State, max: nat)
    requires r.phases == map[]
    ensures var steps := [RateLimiter.Enter(0), RateLimiter.Leave(0)];
            RateLimiter.IsRun(r, steps, max, 1) && RateLimiter.After(r, steps, max) == r
  {
    TwoSteps(r, RateLimiter.Enter(0), RateLimiter.Leave(0), max);
    assert r.phases[0 := RateLimiter.Entered] - {0} == r.phases;
  }

  /** The limiter fields after a request that reached the check. */
  lemma NextLimiter(c: Config, s: State, q: Request)
    ensures var (e, k) := (ExitOf(c, s, q), Checked(s, q.at));
            !e.Hit? && !e.Shortcut? ==>
              && (e.Limited? <==> k.calls >= c.maxCalls)
              && Next(c, s, q).calls == k.calls + (if e.Provided? then 1 else 0)
              && Next(c, s, q).resetAt == k.resetAt
  {
    hide Answer;
    hide Lookup;
    hide ShouldUseLLM;
    hide FirstSuccess;
  }

  lemma LimitedSteps(k: State, c: Config, s: State, q: Request, r: RateLimiter.State, e: Exit)
    requires Matches(s, r) && r.clock <= q.at.check && InOrder(q.at) && k == Checked(s, q.at)
    requires (e.Limited? <==> k.calls >= c.maxCalls) && !e.Hit? && !e.Shortcut?
    ensures var steps := [RateLimiter.Enter(0), RateLimiter.Check(0, q.at.check, q.at.reset)] + LastSteps(e, q.at.done);
            var r' := RateLimiter.After(r, steps, c.maxCalls);
            && RateLimiter.IsRun(r, steps, c.maxCalls, 1)
            && r'.calls == k.calls + (if e.Provided? then 1 else 0) && r'.resetAt == k.resetAt && r'.phases == map[]
            && r'.clock <= q.at.store
            && r'.log == r.log + (CheckLog(s, q.at) + LastLog(e, q.at.done))
  {
    var steps := [RateLimiter.Enter(0), RateLimiter.Check(0, q.at.check, q.at.reset)];
    var r1 := CheckedStep(c, s, q, r);
    var last := LastSteps(e, q.at.done);
    if !e.Limited? {
      RateLimiter.OneStep(r1, last[0], c.maxCalls, 1);
      assert r1.phases - {0} == map[];
    }
    assert RateLimiter.IsRun(r1, last, c.maxCalls, 1);
    RateLimiter.RunConcat(r, steps, last, c.maxCalls, 1);
  }

  lemma CheckedStep(c: Config, s: State, q: Request, r: RateLimiter.State) returns (r1: RateLimiter.State)
    requires Matches(s, r) && r.clock <= q.at.check && InOrder(q.at)
    ensures var steps := [RateLimiter.Enter(0), RateLimiter.Check(0, q.at.check, q.at.reset)];
            RateLimiter.IsRun(r, steps, c.maxCalls, 1) && RateLimiter.After(r, steps, c.maxCalls) == r1
    ensures var k := Checked(s, q.at);
            && r1.calls == k.calls && r1.resetAt == k.resetAt && r1.clock == q.at.reset
            && r1.phases == (if k.calls >= c.maxCalls then map[] else map[0 := RateLimiter.Admitted])
            && r1.log == r.log + CheckLog(s, q.at)
  {
    var enter, check := RateLimiter.Enter(0), RateLimiter.Check(0, q.at.check, q.at.reset);
    TwoSteps(r, enter, check, c.maxCalls);
    r1 := RateLimiter.Apply(RateLimiter.Apply(r, enter, c.maxCalls), check, c.maxCalls);
  }

  function StepsUpTo(c: Config, start: int, ops: seq<Op>, i: nat): seq<RateLimiter.Step>
    requires i <= |ops|
  {
    if i == 0 then []
    else StepsUpTo(c, start, ops, i - 1) + LimiterSteps(c, StateAt(c, start, ops, i - 1), ops[i - 1])
  }

  /** Operation k is a request that a provider answered between times a and b. */
  predicate Succeeded(c: Config, start: int, ops: seq<Op>, k: nat, a: int, b: int)
    requires k < |ops|
  {
    ops[k].Analyze? && ExitAt(c, start, ops, k).Provided? && a <= ops[k].q.at.done <= b
  }

  /** The requests among the first i that a provider answered between times a and b. */
  function Successes(c: Config, start: int, ops: seq<Op>, i: nat, a: int, b: int): set<nat>
    requires i <= |ops|
  {
    set k: nat | k < i && Succeeded(c, start, ops, k, a, b)
  }

  lemma CountedInOne(c: Config, s: State, op: Op, a: int, b: int)
    ensures RateLimiter.CountedBetween(LogOf(c, s, op), a, b)
         == if op.Analyze? && ExitOf(c, s, op.q).Provided? && a <= op.q.at.done <= b then 1 else 0
  {
    hide ExitOf;
    if op.Analyze? {
      RateLimiter.CountedBetweenConcat(CheckLog(s, op.q.at), LastLog(ExitOf(c, s, op.q), op.q.at.done), a, b);
      assert [RateLimiter.Reset(op.q.at.reset)][..0] == [] && [RateLimiter.Counted(op.q.at.done)][..0] == [];
    }
  }

  lemma {:induction false} SuccessesGrow(c: Config, start: int, ops: seq<Op>, i: nat, a: int, b: int)
    requires i < |ops|
    ensures |Successes(c, start, ops, i + 1, a, b)|
         == |Successes(c, start, ops, i, a, b)| + if Succeeded(c, start, ops, i, a, b) then 1 else 0
  {
    hide Succeeded;
    var more := Successes(c, start, ops, i + 1, a, b);
    var less := Successes(c, start, ops, i, a, b);
    if i in more {
      assert more == less + {i};
    } else {
      assert more == less;
    }
  }

  /** What RunTakesSteps shows of the first i operations. */
  predicate Simulated(c: Config, start: int, ops: seq<Op>, i: nat, now: int, a: int, b: int)
    requires i <= |ops|
  {
    && RateLimiter.IsRun(RateLimiter.Init(start), StepsUpTo(c, start, ops, i), c.maxCalls, 1)
    && var r := RateLimiter.After(RateLimiter.Init(start), StepsUpTo(c, start, ops, i), c.maxCalls);
       && Matches(StateAt(c, start, ops, i), r) && r.clock <= now
       && RateLimiter.CountedBetween(r.log, a, b) == |Successes(c, start, ops, i, a, b)|
  }

  lemma OneMoreSimulated(c: Config, start: int, ops: seq<Op>, i: nat, a: int, b: int)
    requires i < |ops| && (ops[i].Analyze? ==> InOrder(ops[i].q.at))
    requires Simulated(c, start, ops, i, Begin(ops[i]), a, b)
    ensures Simulated(c, start, ops, i + 1, End(ops[i]), a, b)
  {
    var s, op, before := StateAt(c, start, ops, i), ops[i], StepsUpTo(c, start, ops, i);
    assert StateAt(c, start, ops, i + 1) == Apply(c, s, op);
    assert StepsUpTo(c, start, ops, i + 1) == before + LimiterSteps(c, s, op);
    assert Succeeded(c, start, ops, i, a, b) <==> op.Analyze? && ExitOf(c, s, op.q).Provided? && a <= op.q.at.done <= b;
    hide *;
    var r := RateLimiter.After(RateLimiter.Init(start), before, c.maxCalls);
    OperationTakesSteps(c, s, op, r);
    RateLimiter.RunConcat(RateLimiter.Init(start), before, LimiterSteps(c, s, op), c.maxCalls, 1);
    RateLimiter.CountedBetweenConcat(r.log, LogOf(c, s, op), a, b);
    CountedInOne(c, s, op, a, b);
    SuccessesGrow(c, start, ops, i, a, b);
  }

  lemma SimulatedAtStart(c: Config, start: int, ops: seq<Op>, now: int, a: int, b: int)
    requires start <= now
    ensures Simulated(c, start, ops, 0, now, a, b)
  {
    assert Successes(c, start, ops, 0, a, b) == {};
    assert RateLimiter.Init(start).log[..0] == [];
  }

  lemma LaterSimulated(c: Config, start: int, ops: seq<Op>, i: nat, now: int, later: int, a: int, b: int)
    requires i <= |ops| && Simulated(c, start, ops, i, now, a, b) && now <= later
    ensures Simulated(c, start, ops, i, later, a, b)
  {
    hide RateLimiter.After;
    hide RateLimiter.IsRun;
  }

  lemma {:induction false} RunTakesSteps(c: Config, start: int, ops: seq<Op>, i: nat, now: int, a: int, b: int)
    requires Timely(start, ops) && i <= |ops| && start <= now
    requires forall k :: 0 <= k < i ==> End(ops[k]) <= now
    ensures Simulated(c, start, ops, i, now, a, b)
  {
    hide Simulated;
    if i == 0 {
      SimulatedAtStart(c, start, ops, now, a, b);
    } else {
      var begin, end := Begin(ops[i - 1]), End(ops[i - 1]);
      assert start <= begin && (ops[i - 1].Analyze? ==> InOrder(ops[i - 1].q.at)) && end <= now;
      assert forall k :: 0 <= k < i - 1 ==> End(ops[k]) <= begin;
      RunTakesSteps(c, start, ops, i - 1, begin, a, b);
      OneMoreSimulated(c, start, ops, i - 1, a, b);
      LaterSimulated(c, start, ops, i, end, now, a, b);
    }
  }

  /**
   When requests do not overlap, the counter never exceeds the limit and providers answer at most
   twice the limit within any closed hour; failed provider attempts are not counted.
   */
  lemma SequentialLimit(c: Config, start: int, ops: seq<Op>, i: nat, a: int)
    requires c.maxCalls >= 1 && Timely(start, ops) && i <= |ops|
    ensures StateAt(c, start, ops, i).calls <= c.maxCalls
    ensures |Successes(c, start, ops, i, a, a + HOUR)| <= 2 * c.maxCalls
  {
    var now := if i == 0 then start else End(ops[i - 1]);
    assert forall k :: 0 <= k < i - 1 ==> End(ops[k]) <= Begin(ops[i - 1]) <= End(ops[i - 1]);
    RunTakesSteps(c, start, ops, i, now, a, a + HOUR);
    RateLimiter.OvershootIsBounded(start, StepsUpTo(c, start, ops, i), c.maxCalls, 1);
    RateLimiter.AnyHourIsBounded(start, StepsUpTo(c, start, ops, i), c.maxCalls, 1, a);
  }
}
