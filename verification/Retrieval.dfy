/**
 Retrieval over several vector collections (Retrieve in internal/rag/engine.go) and the cost gate that
 reads its confidence (internal/llm/analyzer.go). A collection's Search is an oracle; scores are reals.
 */
module Retrieval {
  import opened Basics
  import CostGuard

  /** Something with a score: a stored point with its raw cosine, or a retrieval result. */
  datatype Scored<+D> = Scored(score: real, item: D)

  datatype Source = Runbooks | Incidents | Metadata

  const COLLECTIONS: seq<Source> := [Runbooks, Incidents, Metadata]

  /** RetrievalResult without its score */
  datatype Found<+D> = Found(document: D, source: Source)

  datatype Outcome<+D> = EmbedError | Retrieved(results: seq<Scored<Found<D>>>, confidence: real)

  /** Search(collection, limit); None is its error */
  type Search<!D> = (Source, nat) -> Option<seq<Scored<D>>>

  /** normaliseScore: [-1, 1] onto [0, 1], clamped */
  function Normalise(raw: real): real {
    var n := (raw + 1.0) / 2.0;
    if n < 0.0 then 0.0 else if n > 1.0 then 1.0 else n
  }

  // ------------------------------------------------------------------ ranking

  predicate Descending<D>(s: seq<Scored<D>>) {
    forall i, j :: 0 <= i < j < |s| ==> s[i].score >= s[j].score
  }

  function Min(a: nat, b: nat): nat {
    if a < b then a else b
  }

  /** found is a best k of all, in descending order; ties may fall either way. */
  ghost predicate IsTop<D(!new)>(found: seq<Scored<D>>, all: seq<Scored<D>>, k: nat) {
    exists order: seq<Scored<D>> ::
      multiset(order) == multiset(all) && Descending(order) && |order| == |all| && found == order[..Min(k, |all|)]
  }

  /** How many scores are at least x. */
  function CountGe<D>(s: seq<Scored<D>>, x: real): (n: nat)
    ensures n <= |s|
  {
    if s == [] then 0 else CountGe(s[..|s| - 1], x) + if s[|s| - 1].score >= x then 1 else 0
  }

  lemma {:induction false} CountGeConcat<D>(a: seq<Scored<D>>, b: seq<Scored<D>>, x: real)
    ensures CountGe(a + b, x) == CountGe(a, x) + CountGe(b, x)
  {
    if b == [] {
      assert a + b == a;
    } else {
      assert (a + b)[..|a + b| - 1] == a + b[..|b| - 1];
      CountGeConcat(a, b[..|b| - 1], x);
    }
  }

  lemma CountGeWithout<D>(s: seq<Scored<D>>, k: nat, x: real)
    requires k < |s|
    ensures CountGe(s, x) == CountGe(Without(s, k), x) + if s[k].score >= x then 1 else 0
  {
    assert s == s[..k] + ([s[k]] + s[k + 1..]);
    CountGeConcat(s[..k], [s[k]] + s[k + 1..], x);
    CountGeConcat([s[k]], s[k + 1..], x);
    CountGeConcat(s[..k], s[k + 1..], x);
    assert [s[k]][..0] == [];
  }

  /** The last element of a list has a partner in every permutation of it. */
  lemma Partner<T>(a: seq<T>, b: seq<T>) returns (k: nat)
    requires multiset(a) == multiset(b) && a != []
    ensures k < |b| && b[k] == a[|a| - 1]
    ensures multiset(Without(a, |a| - 1)) == multiset(Without(b, k))
  {
    var x := a[|a| - 1];
    assert x in multiset(b);
    k :| 0 <= k < |b| && b[k] == x;
    MultisetWithout(a, |a| - 1);
    MultisetWithout(b, k);
    assert multiset(Without(a, |a| - 1)) == multiset(a) - multiset{x};
    assert multiset(Without(b, k)) == multiset(b) - multiset{x};
  }

  lemma EmptyPermutation<T>(a: seq<T>, b: seq<T>)
    requires multiset(a) == multiset(b) && a == []
    ensures b == []
  {
    assert |multiset(b)| == |b|;
  }

  /** Permuting a list keeps the counts. */
  lemma {:induction false} CountGePermuted<D>(a: seq<Scored<D>>, b: seq<Scored<D>>, x: real)
    requires multiset(a) == multiset(b)
    ensures CountGe(a, x) == CountGe(b, x)
    decreases |a|
  {
    if a == [] {
      EmptyPermutation(a, b);
    } else {
      hide CountGe;
      var k := Partner(a, b);
      CountGePermuted(Without(a, |a| - 1), Without(b, k), x);
      CountGeWithout(a, |a| - 1, x);
      CountGeWithout(b, k, x);
    }
  }

  lemma {:induction false} CountGeNone<D>(s: seq<Scored<D>>, x: real)
    requires forall i :: 0 <= i < |s| ==> s[i].score < x
    ensures CountGe(s, x) == 0
  {
    if s != [] { CountGeNone(s[..|s| - 1], x); }
  }

  lemma {:induction false} CountGeAll<D>(s: seq<Scored<D>>, x: real)
    requires forall i :: 0 <= i < |s| ==> s[i].score >= x
    ensures CountGe(s, x) == |s|
  {
    if s != [] { CountGeAll(s[..|s| - 1], x); }
  }

  /** In a descending list the scores that are at least x come first. */
  lemma CountGeOfPrefix<D>(s: seq<Scored<D>>, k: nat, x: real)
    requires Descending(s) && k <= |s|
    ensures CountGe(s[..k], x) == Min(k, CountGe(s, x))
  {
    assert s == s[..k] + s[k..];
    CountGeConcat(s[..k], s[k..], x);
    if k < |s| && s[k].score >= x {
      CountGeAll(s[..k], x);
    } else {
      CountGeNone(s[k..], x);
    }
  }

  /** A best k holds, for every bound, as many scores above it as the whole list does, up to k. */
  lemma TopCounts<D(!new)>(found: seq<Scored<D>>, all: seq<Scored<D>>, k: nat, x: real)
    requires IsTop(found, all, k)
    ensures CountGe(found, x) == Min(k, CountGe(all, x))
    ensures |found| == Min(k, |all|) && Descending(found)
    ensures multiset(found) <= multiset(all)
  {
    var order :| multiset(order) == multiset(all) && Descending(order) && |order| == |all|
                 && found == order[..Min(k, |all|)];
    CountGePermuted(order, all, x);
    CountGeOfPrefix(order, Min(k, |all|), x);
    assert order == order[..Min(k, |all|)] + order[Min(k, |all|)..];
  }

  /** Every multiset can be written out. */
  lemma {:induction false} WrittenOut<T>(m: multiset<T>) returns (s: seq<T>)
    ensures multiset(s) == m
    decreases |m|
  {
    if x :| x in m {
      s := WrittenOut(m - multiset{x});
      s := s + [x];
    } else {
      s := [];
    }
  }

  /** ... and in descending order. */
  lemma {:induction false} Sorted<D(!new)>(s: seq<Scored<D>>) returns (t: seq<Scored<D>>)
    ensures multiset(t) == multiset(s) && Descending(t)
  {
    if s == [] {
      t := [];
    } else {
      var n := |s| - 1;
      t := Sorted(s[..n]);
      assert s == s[..n] + [s[n]];
      InsertAdds(t, s[n]);
      InsertKeepsOrder(t, s[n]);
      t := Insert(t, s[n]);
    }
  }

  /** A list is a best k of all if it is part of all, of the right length, and counts like a best k. */
  lemma TopFromCounts<D(!new)>(found: seq<Scored<D>>, all: seq<Scored<D>>, k: nat)
    requires Descending(found) && |found| == Min(k, |all|) && multiset(found) <= multiset(all)
    requires forall x :: CountGe(found, x) == Min(k, CountGe(all, x))
    ensures IsTop(found, all, k)
  {
    var rest := WrittenOut(multiset(all) - multiset(found));
    rest := Sorted(rest);
    assert multiset(found + rest) == multiset(all);
    SameSize(found + rest, all);
    forall i, j | 0 <= i < |found| && 0 <= j < |rest|
      ensures found[i].score >= rest[j].score
    {
      RestIsLower(found, rest, all, k, i, j);
    }
    JoinDescending(found, rest);
    assert found == (found + rest)[..Min(k, |all|)];
  }

  lemma SameSize<T>(a: seq<T>, b: seq<T>)
    requires multiset(a) == multiset(b)
    ensures |a| == |b|
  {
    assert |multiset(a)| == |a| && |multiset(b)| == |b|;
  }

  lemma JoinDescending<D>(a: seq<Scored<D>>, b: seq<Scored<D>>)
    requires Descending(a) && Descending(b)
    requires forall i, j :: 0 <= i < |a| && 0 <= j < |b| ==> a[i].score >= b[j].score
    ensures Descending(a + b)
  {
  }

  lemma RestIsLower<D(!new)>(found: seq<Scored<D>>, rest: seq<Scored<D>>, all: seq<Scored<D>>, k: nat, i: nat, j: nat)
    requires multiset(found + rest) == multiset(all) && i < |found| && j < |rest| && |found| == Min(k, |all|)
    requires CountGe(found, rest[j].score) == Min(k, CountGe(all, rest[j].score))
    ensures found[i].score >= rest[j].score
  {
    var x := rest[j].score;
    CountGePermuted(found + rest, all, x);
    CountGeConcat(found, rest, x);
    SomeAtLeast(rest, j);
    CountGeBound(found, i, x);
    hide CountGe;
    SameSize(found + rest, all);
  }

  lemma {:induction false} SomeAtLeast<D>(s: seq<Scored<D>>, j: nat)
    requires j < |s|
    ensures CountGe(s, s[j].score) >= 1
  {
    CountGeWithout(s, j, s[j].score);
  }

  /** If every element counts, then each does. */
  lemma CountGeBound<D>(s: seq<Scored<D>>, i: nat, x: real)
    requires i < |s|
    ensures CountGe(s, x) == |s| ==> s[i].score >= x
  {
    CountGeWithout(s, i, x);
  }

  function Scores<D>(s: seq<Scored<D>>): (r: seq<real>)
    ensures |r| == |s| && forall i :: 0 <= i < |s| ==> r[i] == s[i].score
  {
    if s == [] then [] else Scores(s[..|s| - 1]) + [s[|s| - 1].score]
  }

  /** Two descending lists with the same counts have the same scores. */
  lemma {:induction false} CountsDetermineScores<D, E>(a: seq<Scored<D>>, b: seq<Scored<E>>)
    requires Descending(a) && Descending(b) && |a| == |b|
    requires forall x :: CountGe(a, x) == CountGe(b, x)
    ensures Scores(a) == Scores(b)
  {
    forall i | 0 <= i < |a|
      ensures a[i].score == b[i].score
    {
      SameScoreAt(a, b, i);
      SameScoreAt(b, a, i);
    }
  }

  lemma AtLeastUpTo<D>(s: seq<Scored<D>>, i: nat)
    requires Descending(s) && i < |s|
    ensures CountGe(s, s[i].score) >= i + 1
  {
    CountGeOfPrefix(s, i + 1, s[i].score);
    CountGeAll(s[..i + 1], s[i].score);
  }

  lemma AtMostBefore<D>(s: seq<Scored<D>>, i: nat, x: real)
    requires Descending(s) && i < |s| && s[i].score < x
    ensures CountGe(s, x) <= i
  {
    assert s == s[..i] + s[i..];
    CountGeConcat(s[..i], s[i..], x);
    CountGeNone(s[i..], x);
  }

  lemma SameScoreAt<D, E>(a: seq<Scored<D>>, b: seq<Scored<E>>, i: nat)
    requires Descending(a) && Descending(b) && |a| == |b| && i < |a|
    requires CountGe(a, a[i].score) == CountGe(b, a[i].score)
    ensures a[i].score <= b[i].score
  {
    hide *;
    AtLeastUpTo(a, i);
    if b[i].score < a[i].score {
      AtMostBefore(b, i, a[i].score);
    }
  }

  // ------------------------------------------------------------------ Retrieve

  /** The results one collection contributes. */
  function Tagged<D>(s: seq<Scored<D>>, source: Source): (r: seq<Scored<Found<D>>>)
    ensures |r| == |s|
    ensures forall i :: 0 <= i < |s| ==> r[i] == Scored(Normalise(s[i].score), Found(s[i].item, source))
  {
    seq(|s|, i requires 0 <= i < |s| => Scored(Normalise(s[i].score), Found(s[i].item, source)))
  }

  /** What the first n collections contribute; a failing collection contributes nothing. */
  function Collected<D>(search: Search<D>, limit: nat, n: nat): seq<Scored<Found<D>>>
    requires n <= 3
  {
    if n == 0 then []
    else
      var source := COLLECTIONS[n - 1];
      Collected(search, limit, n - 1)
      + match search(source, limit) case Some(found) => Tagged(found, source) case None => []
  }

  /** max(2k, 5) */
  function LimitFor(k: nat): nat {
    if 2 * k < 5 then 5 else 2 * k
  }

  /** sort.Slice by descending score; it is not stable, so callers rely on no more than this contract. */
  method SortByScore<D(!new)>(s: seq<Scored<D>>) returns (t: seq<Scored<D>>)
    ensures multiset(t) == multiset(s) && |t| == |s| && Descending(t)
  {
    t := [];
    for i := 0 to |s|
      invariant multiset(t) == multiset(s[..i]) && |t| == i && Descending(t)
    {
      assert s[..i + 1] == s[..i] + [s[i]];
      InsertAdds(t, s[i]);
      InsertKeepsOrder(t, s[i]);
      t := Insert(t, s[i]);
    }
    assert s[..|s|] == s;
  }

  function Insert<D>(t: seq<Scored<D>>, e: Scored<D>): (r: seq<Scored<D>>)
    ensures r != []
  {
    if t == [] || t[0].score < e.score then [e] + t else [t[0]] + Insert(t[1..], e)
  }

  lemma {:induction false} InsertAdds<D>(t: seq<Scored<D>>, e: Scored<D>)
    ensures multiset(Insert(t, e)) == multiset(t) + multiset{e} && |Insert(t, e)| == |t| + 1
  {
    if t != [] && t[0].score >= e.score {
      InsertAdds(t[1..], e);
      assert t == [t[0]] + t[1..];
    }
  }

  lemma {:induction false} InsertKeepsOrder<D>(t: seq<Scored<D>>, e: Scored<D>)
    requires Descending(t)
    ensures Descending(Insert(t, e))
    ensures Insert(t, e)[0] == if t != [] && t[0].score >= e.score then t[0] else e
  {
    if t != [] && t[0].score >= e.score {
      InsertKeepsOrder(t[1..], e);
      ConsDescending(t[0], Insert(t[1..], e));
    }
  }

  lemma ConsDescending<D>(e: Scored<D>, t: seq<Scored<D>>)
    requires Descending(t) && t != [] && e.score >= t[0].score
    ensures Descending([e] + t)
  {
  }

  method Retrieve<D(!new)>(topK: int, embedded: bool, search: Search<D>) returns (r: Outcome<D>)
    ensures !embedded ==> r == EmbedError
    ensures embedded ==>
              var k := if topK <= 0 then 5 else topK;
              && r.Retrieved?
              && IsTop(r.results, Collected(search, LimitFor(k), 3), k)
              && r.confidence == if r.results == [] then 0.0 else r.results[0].score
  {
    hide IsTop;
    hide Descending;
    hide Collected;
    var k := if topK <= 0 then 5 else topK;
    if !embedded {
      return EmbedError;
    }
    var limit := k * 2;
    if limit < 5 {
      limit := 5;
    }
    var all := Collect(search, limit);
    if all == [] {
      TopOfSorted(all, all, k);
      return Retrieved([], 0.0);
    }
    var sorted := SortByScore(all);
    TopOfSorted(all, sorted, k);
    var top := if |sorted| > k then sorted[..k] else sorted;
    return Retrieved(top, top[0].score);
  }

  lemma TopOfSorted<D(!new)>(all: seq<Scored<D>>, sorted: seq<Scored<D>>, k: nat)
    requires multiset(sorted) == multiset(all) && |sorted| == |all| && Descending(sorted)
    ensures IsTop(if |sorted| > k then sorted[..k] else sorted, all, k)
  {
    assert (if |sorted| > k then sorted[..k] else sorted) == sorted[..Min(k, |all|)];
  }

  /** The loop over the three collections. */
  method Collect<D>(search: Search<D>, limit: nat) returns (all: seq<Scored<Found<D>>>)
    ensures all == Collected(search, limit, 3)
  {
    all := [];
    for n := 0 to 3
      invariant all == Collected(search, limit, n)
    {
      var source := COLLECTIONS[n];
      match search(source, limit)
      case None =>
      case Some(found) =>
        var before := all;
        for i := 0 to |found|
          invariant all == before + Tagged(found, source)[..i]
        {
          all := all + [Scored(Normalise(found[i].score), Found(found[i].item, source))];
        }
    }
  }

  // ------------------------------------------------------------------ what is collected

  /** One result: the found document, where it was found, and its score mapped from [-1, 1] to [0, 1]. */
  ghost predicate IsResultOf<D>(r: Scored<Found<D>>, found: Scored<D>, source: Source) {
    && r.item.document == found.item && r.item.source == source
    && 0.0 <= r.score <= 1.0
    && (-1.0 <= found.score <= 1.0 ==> 2.0 * r.score == found.score + 1.0)
    && (found.score < -1.0 ==> r.score == 0.0) && (found.score > 1.0 ==> r.score == 1.0)
  }

  /** Results are those of the list, one by one. */
  ghost predicate AreResultsOf<D>(results: seq<Scored<Found<D>>>, found: Option<seq<Scored<D>>>, source: Source) {
    match found
    case None => results == []
    case Some(s) => |results| == |s| && forall i :: 0 <= i < |s| ==> IsResultOf(results[i], s[i], source)
  }

  /**
   The runbooks, the incidents and the metadata contribute in this order, each what its search gives; each is asked
   for twice as many points as the caller wants, but for five at least.
   */
  lemma ThreeSearches<D>(search: Search<D>, k: nat) returns (limit: nat, a: seq<Scored<Found<D>>>,
                                                             b: seq<Scored<Found<D>>>, c: seq<Scored<Found<D>>>)
    ensures limit == LimitFor(k) && limit >= 5 && limit >= 2 * k && (limit == 5 || limit == 2 * k)
    ensures Collected(search, limit, 3) == a + b + c
    ensures AreResultsOf(a, search(Runbooks, limit), Runbooks)
    ensures AreResultsOf(b, search(Incidents, limit), Incidents)
    ensures AreResultsOf(c, search(Metadata, limit), Metadata)
  {
    limit := LimitFor(k);
    a := OneSearch(search, limit, Runbooks);
    b := OneSearch(search, limit, Incidents);
    c := OneSearch(search, limit, Metadata);
    hide Tagged;
    assert Collected(search, limit, 1) == [] + a == a;
    assert Collected(search, limit, 2) == a + b;
    assert Collected(search, limit, 3) == a + b + c;
  }

  lemma OneSearch<D>(search: Search<D>, limit: nat, source: Source) returns (r: seq<Scored<Found<D>>>)
    ensures r == match search(source, limit) case Some(found) => Tagged(found, source) case None => []
    ensures AreResultsOf(r, search(source, limit), source)
  {
    r := match search(source, limit) case Some(found) => Tagged(found, source) case None => [];
  }

  // ------------------------------------------------------------------ the merge loses nothing

  /** Everything stored in the first n collections that answer. */
  function Stored<D>(stored: Source -> seq<Scored<D>>, search: Search<D>, limit: nat, n: nat): seq<Scored<Found<D>>>
    requires n <= 3
  {
    if n == 0 then []
    else
      var source := COLLECTIONS[n - 1];
      Stored(stored, search, limit, n - 1)
      + if search(source, limit).Some? then Tagged(stored(source), source) else []
  }

  /** Every collection that answers returns its true best limit points. */
  ghost predicate SearchesAreExact<D(!new)>(stored: Source -> seq<Scored<D>>, search: Search<D>, limit: nat) {
    forall source: Source :: search(source, limit).Some? ==> IsTop(search(source, limit).value, stored(source), limit)
  }

  lemma {:induction false} CountGeTagged<D>(s: seq<Scored<D>>, t: seq<Scored<D>>, source: Source, x: real)
    requires multiset(s) == multiset(t)
    ensures CountGe(Tagged(s, source), x) == CountGe(Tagged(t, source), x)
    decreases |s|
  {
    if s == [] {
      EmptyPermutation(s, t);
    } else {
      hide CountGe;
      hide Normalise;
      var n := |s| - 1;
      var k := Partner(s, t);
      CountGeTagged(Without(s, n), Without(t, k), source, x);
      CountGeWithout(Tagged(s, source), n, x);
      CountGeWithout(Tagged(t, source), k, x);
      assert Without(Tagged(s, source), n) == Tagged(Without(s, n), source);
      assert Without(Tagged(t, source), k) == Tagged(Without(t, k), source);
    }
  }

  /** Normalising is monotone, so a ranking by raw score stays one. */
  lemma TaggedDescending<D>(s: seq<Scored<D>>, source: Source)
    requires Descending(s)
    ensures Descending(Tagged(s, source))
  {
  }

  lemma TaggedTopCounts<D(!new)>(found: seq<Scored<D>>, all: seq<Scored<D>>, source: Source, k: nat, x: real)
    requires IsTop(found, all, k)
    ensures CountGe(Tagged(found, source), x) == Min(k, CountGe(Tagged(all, source), x))
  {
    var m := Min(k, |all|);
    var order :| multiset(order) == multiset(all) && Descending(order) && |order| == |all| && found == order[..m];
    hide *;
    CountGeTagged(order, all, source, x);
    TaggedDescending(order, source);
    TaggedPrefix(order, source, m);
    CountGeOfPrefix(Tagged(order, source), m, x);
    CutAgain(k, |all|, CountGe(Tagged(all, source), x));
  }

  lemma TaggedPrefix<D>(s: seq<Scored<D>>, source: Source, m: nat)
    requires m <= |s|
    ensures Tagged(s[..m], source) == Tagged(s, source)[..m]
  {
    hide Normalise;
  }

  lemma CutAgain(k: nat, n: nat, c: nat)
    requires c <= n
    ensures Min(Min(k, n), c) == Min(k, c) && Min(k, n) <= n
  {
  }

  /** Cutting every part at a limit no smaller than k does not change a total cut at k. */
  predicate SameUpTo(a: nat, b: nat, k: nat) {
    a <= b && Min(k, a) == Min(k, b)
  }

  lemma OneMoreCollection<D>(a: seq<Scored<D>>, b: seq<Scored<D>>, c: seq<Scored<D>>, d: seq<Scored<D>>, k: nat,
                             limit: nat, x: real)
    requires SameUpTo(CountGe(a, x), CountGe(b, x), k) && SameUpTo(|a|, |b|, k) && k <= limit
    requires CountGe(c, x) == Min(limit, CountGe(d, x)) && |c| == Min(limit, |d|)
    ensures SameUpTo(CountGe(a + c, x), CountGe(b + d, x), k) && SameUpTo(|a + c|, |b + d|, k)
  {
    hide CountGe;
    CountGeConcat(a, c, x);
    CountGeConcat(b, d, x);
  }

  lemma {:induction false} CollectedCounts<D(!new)>(stored: Source -> seq<Scored<D>>, search: Search<D>, limit: nat,
                                                    k: nat, n: nat, x: real)
    requires SearchesAreExact(stored, search, limit) && k <= limit && n <= 3
    ensures SameUpTo(CountGe(Collected(search, limit, n), x), CountGe(Stored(stored, search, limit, n), x), k)
    ensures SameUpTo(|Collected(search, limit, n)|, |Stored(stored, search, limit, n)|, k)
  {
    if n > 0 {
      CollectedCounts(stored, search, limit, k, n - 1, x);
      var source := COLLECTIONS[n - 1];
      var a, b := Collected(search, limit, n - 1), Stored(stored, search, limit, n - 1);
      match search(source, limit)
      case None =>
        assert Collected(search, limit, n) == a + [] == a && Stored(stored, search, limit, n) == b + [] == b;
      case Some(found) =>
        var c, d := Tagged(found, source), Tagged(stored(source), source);
        assert Collected(search, limit, n) == a + c && Stored(stored, search, limit, n) == b + d;
        assert IsTop(found, stored(source), limit);
        hide *;
        TaggedTopCounts(found, stored(source), source, limit, x);
        TopCounts(found, stored(source), limit, x);
        OneMoreCollection(a, b, c, d, k, limit, x);
    }
  }

  lemma {:induction false} TaggedPermuted<D>(s: seq<Scored<D>>, t: seq<Scored<D>>, source: Source)
    requires multiset(s) == multiset(t)
    ensures multiset(Tagged(s, source)) == multiset(Tagged(t, source))
    decreases |s|
  {
    hide Normalise;
    if s == [] {
      EmptyPermutation(s, t);
    } else {
      var n := |s| - 1;
      var k := Partner(s, t);
      TaggedPermuted(Without(s, n), Without(t, k), source);
      TaggedWithout(s, source, n);
      TaggedWithout(t, source, k);
      MultisetWithout(Tagged(s, source), n);
      MultisetWithout(Tagged(t, source), k);
    }
  }

  lemma TaggedWithout<D>(s: seq<Scored<D>>, source: Source, k: nat)
    requires k < |s|
    ensures Without(Tagged(s, source), k) == Tagged(Without(s, k), source)
  {
    hide Normalise;
  }

  lemma TaggedTopIsPart<D(!new)>(found: seq<Scored<D>>, all: seq<Scored<D>>, source: Source, k: nat)
    requires IsTop(found, all, k)
    ensures multiset(Tagged(found, source)) <= multiset(Tagged(all, source))
  {
    var m := Min(k, |all|);
    var order :| multiset(order) == multiset(all) && Descending(order) && |order| == |all| && found == order[..m];
    hide *;
    TaggedPermuted(order, all, source);
    CutAgain(k, |all|, 0);
    TaggedPrefix(order, source, m);
    PrefixIsPart(Tagged(order, source), m);
  }

  lemma PrefixIsPart<T>(s: seq<T>, m: nat)
    requires m <= |s|
    ensures multiset(s[..m]) <= multiset(s)
  {
    assert s == s[..m] + s[m..];
  }

  /** Everything collected is stored in an answering collection. */
  lemma {:induction false} CollectedIsPart<D(!new)>(stored: Source -> seq<Scored<D>>, search: Search<D>, limit: nat,
                                                    n: nat)
    requires SearchesAreExact(stored, search, limit) && n <= 3
    ensures multiset(Collected(search, limit, n)) <= multiset(Stored(stored, search, limit, n))
  {
    if n > 0 {
      CollectedIsPart(stored, search, limit, n - 1);
      var source := COLLECTIONS[n - 1];
      var a, b := Collected(search, limit, n - 1), Stored(stored, search, limit, n - 1);
      match search(source, limit)
      case None =>
        assert Collected(search, limit, n) == a + [] == a && Stored(stored, search, limit, n) == b + [] == b;
      case Some(found) =>
        assert Collected(search, limit, n) == a + Tagged(found, source);
        assert Stored(stored, search, limit, n) == b + Tagged(stored(source), source);
        assert IsTop(found, stored(source), limit);
        hide *;
        TaggedTopIsPart(found, stored(source), source, limit);
    }
  }

  /**
   If every answering collection returns its true best points, what Retrieve returns is a best k of everything
   stored in those collections, items and all, although each contributed at most max(2k, 5).
   */
  lemma RetrieveIsGlobalTop<D(!new)>(stored: Source -> seq<Scored<D>>, search: Search<D>, k: nat,
                                     results: seq<Scored<Found<D>>>)
    requires k >= 1 && SearchesAreExact(stored, search, LimitFor(k))
    requires IsTop(results, Collected(search, LimitFor(k), 3), k)
    ensures IsTop(results, Stored(stored, search, LimitFor(k), 3), k)
  {
    var limit := LimitFor(k);
    assert k <= limit;
    CollectedIsPart(stored, search, limit, 3);
    CollectedCounts(stored, search, limit, k, 3, 0.0);
    TopCounts(results, Collected(search, limit, 3), k, 0.0);
    hide *;
    forall x
      ensures CountGe(results, x) == Min(k, CountGe(Stored(stored, search, limit, 3), x))
    {
      TopCounts(results, Collected(search, limit, 3), k, x);
      CollectedCounts(stored, search, limit, k, 3, x);
      SameMin(CountGe(Collected(search, limit, 3), x), CountGe(Stored(stored, search, limit, 3), x), k);
    }
    SameMin(|Collected(search, limit, 3)|, |Stored(stored, search, limit, 3)|, k);
    TopFromCounts(results, Stored(stored, search, limit, 3), k);
  }

  lemma SameMin(a: nat, b: nat, k: nat)
    requires SameUpTo(a, b, k)
    ensures Min(k, a) == Min(k, b)
  {
  }

  /** In particular its scores are those of every best k of what is stored. */
  lemma BestScoresAgree<D(!new)>(results: seq<Scored<D>>, best: seq<Scored<D>>, all: seq<Scored<D>>, k: nat)
    requires IsTop(results, all, k) && IsTop(best, all, k)
    ensures Scores(results) == Scores(best)
  {
    hide *;
    TopCounts(results, all, k, 0.0);
    TopCounts(best, all, k, 0.0);
    forall x ensures CountGe(results, x) == CountGe(best, x) {
      TopCounts(results, all, k, x);
      TopCounts(best, all, k, x);
    }
    CountsDetermineScores(results, best);
  }

  // ------------------------------------------------------------------ the cost gate

  lemma {:induction false} CountGeWitness<D>(s: seq<Scored<D>>, x: real)
    ensures CountGe(s, x) > 0 <==> exists i :: 0 <= i < |s| && s[i].score >= x
  {
    if s != [] {
      var n := |s| - 1;
      CountGeWitness(s[..n], x);
      if i :| 0 <= i < |s| && s[i].score >= x {
        if i < n { assert s[..n][i].score >= x; }
      }
    }
  }

  /** Some answering collection stores a point with raw cosine at least bound. */
  ghost predicate SomePointAtLeast<D(!new)>(stored: Source -> seq<Scored<D>>, search: Search<D>, limit: nat,
                                            bound: real)
  {
    exists source: Source, i ::
      0 <= i < |stored(source)| && search(source, limit).Some? && stored(source)[i].score >= bound
  }

  /** Collection m answers and stores a point whose normalised score is at least x. */
  ghost predicate HasPoint<D(!new)>(stored: Source -> seq<Scored<D>>, search: Search<D>, limit: nat, source: Source,
                                    x: real)
  {
    search(source, limit).Some? && exists i :: 0 <= i < |stored(source)| && Normalise(stored(source)[i].score) >= x
  }

  lemma TaggedWitness<D(!new)>(s: seq<Scored<D>>, source: Source, x: real)
    ensures CountGe(Tagged(s, source), x) > 0 <==> exists i :: 0 <= i < |s| && Normalise(s[i].score) >= x
  {
    hide Normalise;
    var t := Tagged(s, source);
    CountGeWitness(t, x);
    if i :| 0 <= i < |s| && Normalise(s[i].score) >= x { assert t[i].score >= x; }
    if i :| 0 <= i < |t| && t[i].score >= x { assert Normalise(s[i].score) >= x; }
  }

  lemma {:induction false} StoredWitness<D(!new)>(stored: Source -> seq<Scored<D>>, search: Search<D>, limit: nat,
                                                  n: nat, x: real)
    requires n <= 3
    ensures CountGe(Stored(stored, search, limit, n), x) > 0 <==>
            exists m :: 0 <= m < n && HasPoint(stored, search, limit, COLLECTIONS[m], x)
  {
    if n > 0 {
      StoredWitness(stored, search, limit, n - 1, x);
      var source := COLLECTIONS[n - 1];
      var before, mine := Stored(stored, search, limit, n - 1), Tagged(stored(source), source);
      assert Stored(stored, search, limit, n) == if search(source, limit).Some? then before + mine else before + [];
      assert before + [] == before;
      TaggedWitness(stored(source), source, x);
      CountGeConcat(before, mine, x);
      assert HasPoint(stored, search, limit, source, x) <==> search(source, limit).Some? && CountGe(mine, x) > 0;
      hide CountGe;
      hide HasPoint;
      hide Stored;
      assert (exists m :: 0 <= m < n && HasPoint(stored, search, limit, COLLECTIONS[m], x))
        <==> HasPoint(stored, search, limit, source, x)
             || exists m :: 0 <= m < n - 1 && HasPoint(stored, search, limit, COLLECTIONS[m], x);
    }
  }

  /** For 0 < x <= 1, normalised scores of at least x are raw scores of at least 2x - 1; none exceeds 1. */
  lemma NormaliseAtLeast(raw: real, x: real)
    requires x > 0.0
    ensures Normalise(raw) >= x <==> x <= 1.0 && raw >= 2.0 * x - 1.0
  {
  }

  lemma SomePointIsStored<D(!new)>(stored: Source -> seq<Scored<D>>, search: Search<D>, limit: nat, x: real)
    requires x > 0.0
    ensures CountGe(Stored(stored, search, limit, 3), x) > 0
       <==> x <= 1.0 && SomePointAtLeast(stored, search, limit, 2.0 * x - 1.0)
  {
    StoredWitness(stored, search, limit, 3, x);
    hide CountGe;
    hide Stored;
    hide Normalise;
    forall raw ensures Normalise(raw) >= x <==> x <= 1.0 && raw >= 2.0 * x - 1.0 { NormaliseAtLeast(raw, x); }
    assert COLLECTIONS[0] == Runbooks && COLLECTIONS[1] == Incidents && COLLECTIONS[2] == Metadata;
    if m :| 0 <= m < 3 && HasPoint(stored, search, limit, COLLECTIONS[m], x) {
      assert SomePointAtLeast(stored, search, limit, 2.0 * x - 1.0);
    }
    if x <= 1.0 && SomePointAtLeast(stored, search, limit, 2.0 * x - 1.0) {
      var source: Source, i :| 0 <= i < |stored(source)| && search(source, limit).Some?
                               && stored(source)[i].score >= 2.0 * x - 1.0;
      assert Normalise(stored(source)[i].score) >= x;
      assert HasPoint(stored, search, limit, source, x);
      var m := if source == Runbooks then 0 else if source == Incidents then 1 else 2;
      assert COLLECTIONS[m] == source;
    }
  }

  /**
   With retrieval's confidence, the analyzer skips the LLM iff its threshold for the severity is at most
   one and some stored point of an answering collection has raw cosine at least 2 * threshold - 1.
   */
  lemma GateSkipsLLM<D(!new)>(stored: Source -> seq<Scored<D>>, search: Search<D>, k: nat, r: Outcome<D>,
                              c: CostGuard.Config, severity: string)
    requires k >= 1 && SearchesAreExact(stored, search, LimitFor(k))
    requires c.ragThreshold > 0.0 && c.criticalThreshold > 0.0
    requires r.Retrieved? && IsTop(r.results, Collected(search, LimitFor(k), 3), k)
    requires r.confidence == if r.results == [] then 0.0 else r.results[0].score
    ensures var t := CostGuard.Threshold(c, severity);
            !CostGuard.ShouldUseLLM(c, r.confidence, severity)
            <==> t <= 1.0 && SomePointAtLeast(stored, search, LimitFor(k), 2.0 * t - 1.0)
  {
    var t, limit := CostGuard.Threshold(c, severity), LimitFor(k);
    assert t > 0.0 && k <= limit;
    assert !CostGuard.ShouldUseLLM(c, r.confidence, severity) <==> r.confidence >= t;
    TopCounts(r.results, Collected(search, limit, 3), k, t);
    CollectedCounts(stored, search, limit, k, 3, t);
    SomePointIsStored(stored, search, limit, t);
    BestIsFirst(r.results, t);
    hide CountGe;
    hide Collected;
    hide Stored;
    hide IsTop;
    hide SomePointAtLeast;
    hide SearchesAreExact;
    hide CostGuard.Threshold;
    hide CostGuard.ShouldUseLLM;
  }

  lemma BestIsFirst<D>(s: seq<Scored<D>>, x: real)
    requires Descending(s) && x > 0.0
    ensures CountGe(s, x) > 0 <==> (if s == [] then 0.0 else s[0].score) >= x
  {
    CountGeWitness(s, x);
  }
}
