/**
 Which events share an incident (internal/aggregator/incident_store.go), against the promise of README.md:14
 that a log joins an existing incident within Hamming distance 3.
 */
module IncidentMerging {
  import opened Words
  import opened Fingerprint
  import opened IncidentLedger

  /** The promised distance. */
  const NEAR: nat := 3

  /** Two fingerprints, as printed, are within the promised distance. */
  predicate Near(p: string, q: string) {
    match (ParseFingerprint(p), ParseFingerprint(q))
    case (Some(a), Some(b)) => HammingDistance(a, b) <= NEAR
    case _ => false
  }

  /** Although parsing reverses bytes, printed words are near iff the words are. */
  lemma NearWords(a: Word, b: Word)
    ensures Near(Hex(a, 16), Hex(b, 16)) <==> HammingDistance(a, b) <= 3
  {
    hide Hex;
    hide ParseFingerprint;
    hide HammingDistance;
    DistanceOfPrinted(a, b);
  }

  lemma NearIsReflexiveAndSymmetric(p: string, q: string)
    ensures Near(p, q) <==> Near(q, p)
    ensures Near(p, q) ==> Near(p, p)
  {
    match (ParseFingerprint(p), ParseFingerprint(q)) {
      case (Some(a), Some(b)) =>
        HammingIsAMetric(a, b, a);
        HammingIsAMetric(a, a, a);
      case _ =>
    }
  }

  // ------------------------------------------------------------------ which record an event feeds

  /** The operation changes the count of the record of p. */
  predicate Feeds(s: State, op: Op, p: string, lower: char -> char) {
    var t := Step(s, op, lower);
    p in t && t[p].count != if p in s then s[p].count else 0
  }

  lemma EventsFeedTheirOwnRecord(s: State, op: Op, p: string, lower: char -> char)
    ensures Feeds(s, op, p, lower) <==> op.Event? && op.fp == p
  {
  }

  /** Operation e on store s and operation f on store t add to the record of one fingerprint. */
  ghost predicate FeedOne(s: State, e: Op, t: State, f: Op, lower: char -> char) {
    exists p :: Feeds(s, e, p, lower) && Feeds(t, f, p, lower)
  }

  /** In any run from any store, two events feed one record iff their fingerprints are equal. */
  lemma SharedRecordMeansEqualFingerprints(s: State, ops: seq<Op>, i: nat, j: nat, lower: char -> char)
    requires i < j < |ops| && ops[i].Event? && ops[j].Event?
    ensures FeedOne(After(s, ops[..i], lower), ops[i], After(s, ops[..j], lower), ops[j], lower)
       <==> ops[i].fp == ops[j].fp
  {
    hide FeedOne;
    FeedOneExactly(After(s, ops[..i], lower), ops[i], After(s, ops[..j], lower), ops[j], lower);
  }

  lemma FeedOneExactly(s: State, e: Op, t: State, f: Op, lower: char -> char)
    requires e.Event? && f.Event?
    ensures FeedOne(s, e, t, f, lower) <==> e.fp == f.fp
  {
    hide Feeds;
    if p :| Feeds(s, e, p, lower) && Feeds(t, f, p, lower) {
      EventsFeedTheirOwnRecord(s, e, p, lower);
      EventsFeedTheirOwnRecord(t, f, p, lower);
    }
    EventsFeedTheirOwnRecord(s, e, e.fp, lower);
    EventsFeedTheirOwnRecord(t, f, e.fp, lower);
  }

  // ------------------------------------------------------------------ when the promise is kept

  /** What the promise asks of one event: if some incident is near it, it joins such an incident. */
  ghost predicate JoinsNearby(s: State, op: Op, lower: char -> char) {
    (exists p :: p in s && Near(p, op.fp)) ==> exists p :: p in s && Near(p, op.fp) && Feeds(s, op, p, lower)
  }

  ghost predicate PromiseKept(s: State, ops: seq<Op>, lower: char -> char) {
    forall i :: 0 <= i < |ops| && ops[i].Event? ==> JoinsNearby(After(s, ops[..i], lower), ops[i], lower)
  }

  lemma JoinsNearbyExactly(s: State, op: Op, lower: char -> char)
    requires op.Event?
    ensures JoinsNearby(s, op, lower) <==> op.fp in s || forall p :: p in s ==> !Near(p, op.fp)
  {
    hide Feeds;
    hide Near;
    forall p ensures Feeds(s, op, p, lower) <==> op.fp == p { EventsFeedTheirOwnRecord(s, op, p, lower); }
    if p :| p in s && Near(p, op.fp) {
      NearIsReflexiveAndSymmetric(p, op.fp);
      NearIsReflexiveAndSymmetric(op.fp, p);
    }
  }

  /** A fingerprint was loaded or created before the end of a run. */
  predicate Known(s: State, ops: seq<Op>, fp: string) {
    fp in s || exists j :: 0 <= j < |ops| && Creates(ops[j]) && ops[j].fp == fp
  }

  lemma KnownIsStored(s: State, ops: seq<Op>, fp: string, lower: char -> char)
    ensures fp in After(s, ops, lower) <==> Known(s, ops, fp)
  {
    StoreAccounting(s, ops, fp, lower);
    if fp !in s { CreatorExists(s, ops, fp); }
    hide AccountsFor;
    hide EventsOf;
    hide Creator;
    hide After;
  }

  /** An event whose fingerprint is unknown comes when a near one is known. */
  predicate ComesTooClose(s: State, ops: seq<Op>, i: nat)
    requires i < |ops|
  {
    ops[i].Event? && !Known(s, ops[..i], ops[i].fp) && NearKnown(s, ops[..i], ops[i].fp)
  }

  predicate NearKnown(s: State, ops: seq<Op>, fp: string) {
    (exists p :: p in s && Near(p, fp)) || exists j :: 0 <= j < |ops| && Creates(ops[j]) && Near(ops[j].fp, fp)
  }

  lemma NearKnownIsStored(s: State, ops: seq<Op>, fp: string, lower: char -> char)
    ensures NearKnown(s, ops, fp) <==> exists p :: p in After(s, ops, lower) && Near(p, fp)
  {
    hide Near;
    hide After;
    forall p ensures p in After(s, ops, lower) <==> Known(s, ops, p) { KnownIsStored(s, ops, p, lower); }
    if p :| p in s && Near(p, fp) {
      assert Known(s, ops, p);
    }
    if j :| 0 <= j < |ops| && Creates(ops[j]) && Near(ops[j].fp, fp) {
      assert Known(s, ops, ops[j].fp);
    }
    if p :| p in After(s, ops, lower) && Near(p, fp) {
      assert Known(s, ops, p);
    }
  }

  /**
   The promise is kept in a run, from any store, iff no event brings a new fingerprint near one that was
   loaded or created before it.
   */
  lemma PromiseKeptExactly(s: State, ops: seq<Op>, lower: char -> char)
    ensures PromiseKept(s, ops, lower) <==> forall i :: 0 <= i < |ops| ==> !ComesTooClose(s, ops, i)
  {
    forall i | 0 <= i < |ops| && ops[i].Event?
      ensures JoinsNearby(After(s, ops[..i], lower), ops[i], lower) <==> !ComesTooClose(s, ops, i)
    {
      var before := After(s, ops[..i], lower);
      hide After;
      hide NearKnown;
      hide Known;
      hide JoinsNearby;
      hide Near;
      JoinsNearbyExactly(before, ops[i], lower);
      KnownIsStored(s, ops[..i], ops[i].fp, lower);
      NearKnownIsStored(s, ops[..i], ops[i].fp, lower);
    }
    hide JoinsNearby;
    hide NearKnown;
    hide Known;
    hide After;
  }

  /** No two different fingerprints of the run's events are near each other. */
  predicate FarApart(ops: seq<Op>) {
    forall i, j :: 0 <= i < |ops| && 0 <= j < |ops| && ops[i].Event? && ops[j].Event? && ops[i].fp != ops[j].fp ==>
      !Near(ops[i].fp, ops[j].fp)
  }

  lemma NotFarApart(ops: seq<Op>, i: nat, j: nat)
    requires i < |ops| && j < |ops| && ops[i].Event? && ops[j].Event?
    requires ops[i].fp != ops[j].fp && Near(ops[i].fp, ops[j].fp)
    ensures !FarApart(ops)
  {
    hide Near;
  }

  /** From an empty store, and without placeholders: iff no two different fingerprints of the run are near. */
  lemma PromiseNeedsFarApart(ops: seq<Op>, lower: char -> char)
    requires forall op :: op in ops ==> !op.GetOrCreate?
    ensures PromiseKept(map[], ops, lower) <==> FarApart(ops)
  {
    PromiseKeptExactly(map[], ops, lower);
    hide PromiseKept;
    hide Near;
    if !FarApart(ops) {
      var i, j :| 0 <= i < |ops| && 0 <= j < |ops| && ops[i].Event? && ops[j].Event? && ops[i].fp != ops[j].fp
                  && Near(ops[i].fp, ops[j].fp);
      NearIsReflexiveAndSymmetric(ops[i].fp, ops[j].fp);
      var f, g := FirstEvent(ops, i), FirstEvent(ops, j);
      hide FarApart;
      hide ComesTooClose;
      if f < g { FirstMeetsNear(ops, f, g); } else { FirstMeetsNear(ops, g, f); }
    }
    hide ComesTooClose;
    if i :| 0 <= i < |ops| && ComesTooClose(map[], ops, i) {
      TooCloseIsNear(ops, i);
    }
  }

  lemma TooCloseIsNear(ops: seq<Op>, i: nat)
    requires (forall op :: op in ops ==> !op.GetOrCreate?) && i < |ops| && ComesTooClose(map[], ops, i)
    ensures !FarApart(ops)
  {
    hide Near;
    var k :| 0 <= k < |ops[..i]| && Creates(ops[..i][k]) && Near(ops[..i][k].fp, ops[i].fp);
    assert ops[k] in ops && ops[..i][k] == ops[k];
    NotFarApart(ops, k, i);
  }

  /** The first event with the fingerprint of event i. */
  function FirstEvent(ops: seq<Op>, i: nat): (f: nat)
    requires i < |ops| && ops[i].Event?
    ensures f <= i && ops[f].Event? && ops[f].fp == ops[i].fp
    ensures forall k :: 0 <= k < f && ops[k].Event? ==> ops[k].fp != ops[i].fp
  {
    if k :| 0 <= k < i && ops[k].Event? && ops[k].fp == ops[i].fp then FirstEvent(ops, k) else i
  }

  lemma FirstMeetsNear(ops: seq<Op>, f: nat, g: nat)
    requires (forall op :: op in ops ==> !op.GetOrCreate?) && f < g < |ops| && ops[f].Event? && ops[g].Event?
    requires Near(ops[f].fp, ops[g].fp) && forall k :: 0 <= k < g && ops[k].Event? ==> ops[k].fp != ops[g].fp
    ensures ComesTooClose(map[], ops, g)
  {
    hide Near;
    assert ops[..g][f] == ops[f];
    assert forall k :: 0 <= k < g ==> ops[..g][k] == ops[k] && ops[k] in ops;
  }

  /** Two events with different but near fingerprints start two incidents, against the promise. */
  lemma NearEventsStayApart(e: Op, f: Op, lower: char -> char)
    requires e.Event? && f.Event? && e.fp != f.fp && Near(e.fp, f.fp)
    ensures IsNew(map[], e) && IsNew(After(map[], [e], lower), f)
    ensures After(map[], [e, f], lower).Keys == {e.fp, f.fp}
    ensures !PromiseKept(map[], [e, f], lower)
  {
    hide Near;
    NotFarApart([e, f], 0, 1);
    PromiseNeedsFarApart([e, f], lower);
    hide PromiseKept;
    hide Counted;
    assert [e][..0] == [] && [e, f][..1] == [e];
    assert After(map[], [e], lower) == Step(map[], e, lower);
    assert After(map[], [e, f], lower) == Step(Step(map[], e, lower), f, lower);
  }

  /** For instance the fingerprints 0000000000000000 and 0000000000000001, at distance 1. */
  lemma AtDistanceOne(e: Op, f: Op, lower: char -> char)
    requires e.Event? && f.Event? && e.fp == Hex(0, 16) && f.fp == Hex(1, 16)
    ensures HammingDistance(0, 1) == 1
    ensures IsNew(map[], e) && IsNew(After(map[], [e], lower), f) && |After(map[], [e, f], lower)| == 2
    ensures !PromiseKept(map[], [e, f], lower)
  {
    assert HammingDistance(0, 1) == 1;
    NearWords(0, 1);
    PrintedApart();
    hide *;
    NearEventsStayApart(e, f, lower);
    assert |{e.fp, f.fp}| == 2;
  }

  lemma PrintedApart()
    ensures Hex(0, 16) != Hex(1, 16)
  {
    assert Hex(0, 16)[15] == '0' && Hex(1, 16)[15] == '1';
  }
}
