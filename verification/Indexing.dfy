/**
 Batched indexing of documents (IndexDocuments in internal/rag/engine.go and Upsert in
 internal/rag/qdrant_client.go): one buffer of twenty points is filled, sent and reused.
 The embedder, the context and the server are oracles.
 */
module Indexing {
  import opened Basics
  import opened Documents
  import DocUuid
  import Chunking

  const BATCH_SIZE: nat := 20

  /** QdrantPoint; the payload repeats the document. */
  datatype Point<+V> = Point(id: string, vector: V, payload: Document)

  datatype Outcome = Indexed(indexed: nat, skipped: nat) | NothingIndexed | Cancelled | UpsertFailed

  function PointOf<V>(doc: Document, vector: V): Point<V> {
    Point(DocUuid.DocUuid(Bytes(doc.id)), vector, doc)
  }

  /** The points of the documents that could be embedded, in input order. */
  function Points<V>(docs: seq<Document>, embedded: seq<Option<V>>): (r: seq<Point<V>>)
    requires |docs| == |embedded|
    ensures |r| <= |docs|
  {
    if docs == [] then []
    else
      var n := |docs| - 1;
      Points(docs[..n], embedded[..n]) + if embedded[n].Some? then [PointOf(docs[n], embedded[n].value)] else []
  }

  function Flatten<T>(batches: seq<seq<T>>): seq<T> {
    if batches == [] then [] else Flatten(batches[..|batches| - 1]) + batches[|batches| - 1]
  }

  /** All batches are full. */
  predicate AllFull<T>(batches: seq<seq<T>>) {
    forall i :: 0 <= i < |batches| ==> |batches[i]| == BATCH_SIZE
  }

  /** All batches are full except that the last may be smaller; none is empty. */
  predicate WellBatched<T>(batches: seq<seq<T>>) {
    forall i :: 0 <= i < |batches| ==>
      0 < |batches[i]| <= BATCH_SIZE && (i < |batches| - 1 ==> |batches[i]| == BATCH_SIZE)
  }

  lemma {:induction false} FlattenSnoc<T>(batches: seq<seq<T>>, last: seq<T>)
    ensures Flatten(batches + [last]) == Flatten(batches) + last
  {
    assert (batches + [last])[..|batches|] == batches;
  }

  /** The server's log: the request bodies it has accepted, each a wire array of its own. */
  class Server<P(0)> {
    var requests: seq<array<P>>

    static ghost function Bodies(requests: seq<array<P>>): (r: seq<seq<P>>)
      reads requests
      ensures |r| == |requests|
      decreases |requests|
    {
      if requests == [] then []
      else Bodies(requests[..|requests| - 1]) + [requests[|requests| - 1][..]]
    }

    /** The points of every accepted request. */
    ghost function Log(): seq<seq<P>>
      reads this, requests
    {
      Bodies(requests)
    }

    constructor ()
      ensures Log() == []
    {
      requests := [];
    }

    /** Upsert: the caller's points are copied into a fresh wire array; nothing is sent for no points. */
    method Upsert(points: array<P>, n: nat, accepted: bool) returns (ok: bool)
      requires n <= points.Length && points !in requests
      modifies this
      ensures points !in requests
      ensures ok == (n == 0 || accepted)
      ensures Log() == if ok && n > 0 then old(Log()) + [points[..n]] else old(Log())
      ensures forall a :: a in requests ==> a in old(requests) || fresh(a)
    {
      if n == 0 {
        return true;
      }
      var wire := new P[n];
      for i := 0 to n
        invariant wire[..i] == points[..i]
        invariant requests == old(requests) && wire !in requests && Log() == old(Log())
      {
        wire[i] := points[i];
      }
      if accepted {
        ghost var before := requests;
        requests := requests + [wire];
        assert requests[..|requests| - 1] == before && wire[..] == points[..n];
      }
      return accepted;
    }
  }

  /** No cancellation is seen before any of the first n documents. */
  predicate NotCancelled(cancelled: nat -> bool, n: nat) {
    forall i: nat :: i < n ==> !cancelled(i)
  }

  /** The server accepts the first n requests. */
  predicate AllAccepted(accepts: nat -> bool, n: nat) {
    forall i: nat :: i < n ==> accepts(i)
  }

  /** What the loop has done with the first i documents: the batches sent and the points in the buffer. */
  ghost predicate Progress<V>(docs: seq<Document>, embedded: seq<Option<V>>, i: nat, batches: seq<seq<Point<V>>>,
                              pending: seq<Point<V>>)
    requires |docs| == |embedded| && i <= |docs|
  {
    AllFull(batches) && |pending| < BATCH_SIZE && Flatten(batches) + pending == Points(docs[..i], embedded[..i])
  }

  /** How the outcome depends on the oracles, and which batches the server has accepted by then. */
  ghost predicate Correct<V>(docs: seq<Document>, embedded: seq<Option<V>>, r: Outcome, batches: seq<seq<Point<V>>>)
    requires |docs| == |embedded|
  {
    var points := Points(docs, embedded);
    match r
    case Indexed(indexed, skipped) =>
      && WellBatched(batches) && Flatten(batches) == points && indexed == |points| && indexed + skipped == |docs|
      && (points != [] || docs == [])
    case NothingIndexed => batches == [] && points == [] && docs != []
    case Cancelled => AllFull(batches) && Flatten(batches) <= points
    case UpsertFailed => AllFull(batches) && Flatten(batches) <= points && Flatten(batches) != points
  }

  lemma {:induction false} PointsArePrefix<V>(docs: seq<Document>, embedded: seq<Option<V>>, i: nat)
    requires |docs| == |embedded| && i <= |docs|
    ensures Points(docs[..i], embedded[..i]) <= Points(docs, embedded)
    decreases |docs|
  {
    if i == |docs| {
      assert docs[..i] == docs && embedded[..i] == embedded;
    } else {
      var n := |docs| - 1;
      PointsArePrefix(docs[..n], embedded[..n], i);
      assert docs[..n][..i] == docs[..i] && embedded[..n][..i] == embedded[..i];
    }
  }

  lemma OneMoreDocument<V>(docs: seq<Document>, embedded: seq<Option<V>>, i: nat)
    requires |docs| == |embedded| && i < |docs|
    ensures Points(docs[..i + 1], embedded[..i + 1])
         == Points(docs[..i], embedded[..i]) + if embedded[i].Some? then [PointOf(docs[i], embedded[i].value)] else []
  {
    assert docs[..i + 1][..i] == docs[..i] && embedded[..i + 1][..i] == embedded[..i];
  }

  /** The buffer after one more document: its point, if it could be embedded, is appended. */
  lemma Advance<V>(docs: seq<Document>, embedded: seq<Option<V>>, i: nat, batches: seq<seq<Point<V>>>,
                   pending: seq<Point<V>>)
    requires |docs| == |embedded| && i < |docs| && Progress(docs, embedded, i, batches, pending)
    ensures var pending' := pending + if embedded[i].Some? then [PointOf(docs[i], embedded[i].value)] else [];
            && Flatten(batches) + pending' == Points(docs[..i + 1], embedded[..i + 1])
            && (|pending'| < BATCH_SIZE ==> Progress(docs, embedded, i + 1, batches, pending'))
            && (|pending'| == BATCH_SIZE ==> Progress(docs, embedded, i + 1, batches + [pending'], []))
            && |Flatten(batches + [pending'])| == |Flatten(batches)| + |pending'|
  {
    hide *;
    FlattenSnoc(batches, pending + if embedded[i].Some? then [PointOf(docs[i], embedded[i].value)] else []);
    var pending' := pending + if embedded[i].Some? then [PointOf(docs[i], embedded[i].value)] else [];
    OneMoreDocument(docs, embedded, i);
    ProgressSplit(docs, embedded, i, batches, pending);
    assert Flatten(batches) + pending' == Points(docs[..i + 1], embedded[..i + 1]);
    ProgressJoin(docs, embedded, i + 1, batches, pending');
  }

  lemma ProgressSplit<V>(docs: seq<Document>, embedded: seq<Option<V>>, i: nat, batches: seq<seq<Point<V>>>,
                         pending: seq<Point<V>>)
    requires |docs| == |embedded| && i <= |docs| && Progress(docs, embedded, i, batches, pending)
    ensures AllFull(batches) && |pending| < BATCH_SIZE && Flatten(batches) + pending == Points(docs[..i], embedded[..i])
  {
  }

  lemma ProgressJoin<V>(docs: seq<Document>, embedded: seq<Option<V>>, i: nat, batches: seq<seq<Point<V>>>,
                        pending: seq<Point<V>>)
    requires |docs| == |embedded| && i <= |docs|
    requires AllFull(batches) && Flatten(batches) + pending == Points(docs[..i], embedded[..i])
    ensures |pending| < BATCH_SIZE ==> Progress(docs, embedded, i, batches, pending)
    ensures |pending| == BATCH_SIZE ==> Progress(docs, embedded, i, batches + [pending], [])
  {
    hide Points;
    hide PointOf;
    FlattenSnoc(batches, pending);
    assert Flatten(batches) + pending + [] == Flatten(batches) + pending;
  }

  /** Whenever the run stops with points unsent, what was accepted is a prefix of the points. */
  lemma StopEarly<V>(docs: seq<Document>, embedded: seq<Option<V>>, i: nat, batches: seq<seq<Point<V>>>,
                     pending: seq<Point<V>>)
    requires |docs| == |embedded| && i <= |docs| && AllFull(batches)
    requires Flatten(batches) + pending == Points(docs[..i], embedded[..i])
    ensures Correct(docs, embedded, Cancelled, batches)
    ensures pending != [] ==> Correct(docs, embedded, UpsertFailed, batches)
  {
    hide Points;
    hide PointOf;
    hide Flatten;
    PointsArePrefix(docs, embedded, i);
  }

  /** The batches of a completed run. */
  function AllBatches<T>(batches: seq<seq<T>>, pending: seq<T>): seq<seq<T>> {
    if pending == [] then batches else batches + [pending]
  }

  lemma AllBatchesOk<T>(batches: seq<seq<T>>, pending: seq<T>)
    requires AllFull(batches) && |pending| < BATCH_SIZE
    ensures WellBatched(AllBatches(batches, pending))
    ensures Flatten(AllBatches(batches, pending)) == Flatten(batches) + pending
    ensures Flatten(batches) + pending == [] ==> AllBatches(batches, pending) == []
  {
    hide Flatten;
    FlattenSnoc(batches, pending);
    assert pending == [] ==> Flatten(batches) + pending == Flatten(batches);
    if batches != [] { FlattenNotEmpty(batches); }
  }

  lemma FinishRun<V>(docs: seq<Document>, embedded: seq<Option<V>>, batches: seq<seq<Point<V>>>, pending: seq<Point<V>>)
    requires |docs| == |embedded| && docs != [] && Progress(docs, embedded, |docs|, batches, pending)
    ensures var n := |Points(docs, embedded)|;
            && Correct(docs, embedded, if n == 0 then NothingIndexed else Indexed(n, |docs| - n),
                       AllBatches(batches, pending))
            && (pending != [] ==> Correct(docs, embedded, UpsertFailed, batches))
            && n == |Flatten(batches)| + |pending|
  {
    assert docs[..|docs|] == docs && embedded[..|docs|] == embedded;
    ProgressSplit(docs, embedded, |docs|, batches, pending);
    AllBatchesOk(batches, pending);
    hide Points;
    hide Flatten;
    hide Progress;
    hide AllFull;
    hide WellBatched;
    hide AllBatches;
  }

  lemma FlattenNotEmpty<T>(batches: seq<seq<T>>)
    requires AllFull(batches) && batches != []
    ensures Flatten(batches) != []
  {
    assert |batches[|batches| - 1]| == BATCH_SIZE;
  }

  /** Put one point into the buffer and flush it when it is full: the end of the loop body. */
  method Append<P(0)>(server: Server<P>, batch: array<P>, len: nat, point: P, accepted: bool)
    returns (ok: bool, flushed: bool, len': nat)
    requires batch.Length == BATCH_SIZE && len < BATCH_SIZE && batch !in server.requests
    modifies server, batch
    ensures batch !in server.requests && forall a :: a in server.requests ==> a in old(server.requests) || fresh(a)
    ensures var full := old(batch[..len]) + [point];
            if |full| < BATCH_SIZE then
              ok && !flushed && len' == len + 1 && batch[..len'] == full && server.Log() == old(server.Log())
            else
              && ok == accepted == flushed
              && (ok ==> len' == 0 && batch[..len'] == [] && server.Log() == old(server.Log()) + [full])
              && (!ok ==> server.Log() == old(server.Log()))
  {
    ghost var full := batch[..len] + [point];
    batch[len] := point;
    len' := len + 1;
    assert batch[..len'] == full;
    assert server.Log() == old(server.Log());
    ok, flushed := true, false;
    if len' >= BATCH_SIZE {
      ok := server.Upsert(batch, len', accepted);
      flushed, len' := ok, 0;
    }
  }

  /** Where the loop over the documents ends. */
  datatype LoopEnd = Stopped(r: Outcome) | Completed(len: nat, sent: nat, successCount: nat, skipCount: nat)

  /** A run of IndexDocuments: its outcome, and what the oracles must have said. */
  ghost predicate IsOutcome<V>(docs: seq<Document>, embedded: seq<Option<V>>, cancelled: nat -> bool,
                               accepts: nat -> bool, r: Outcome, batches: seq<seq<Point<V>>>)
    requires |docs| == |embedded|
  {
    && Correct(docs, embedded, r, batches)
    && (r.Cancelled? ==> !NotCancelled(cancelled, |docs|))
    && (r.UpsertFailed? ==> !accepts(|batches|))
    && (!r.Cancelled? && !r.UpsertFailed? ==> NotCancelled(cancelled, |docs|) && AllAccepted(accepts, |batches|))
  }

  /** The documents before document i that could be embedded. */
  function Earlier<V>(embedded: seq<Option<V>>, i: nat): set<nat> {
    set k: nat | k < i && k < |embedded| && embedded[k].Some?
  }

  /** Document i, if it could be embedded, has its turn among the points. */
  ghost predicate HasItsTurn<V>(docs: seq<Document>, embedded: seq<Option<V>>, points: seq<Point<V>>, i: nat)
    requires |docs| == |embedded| && i < |docs|
  {
    embedded[i].Some? ==>
      && |Earlier(embedded, i)| < |points|
      && points[|Earlier(embedded, i)|] == Point(DocUuid.DocUuid(Bytes(docs[i].id)), embedded[i].value, docs[i])
  }

  /**
   What the server has accepted, point by point: all requests hold twenty points, the last at least one; every
   embeddable document is sent in its turn, under its own id, with its own vector and as its own payload, and on
   success none is missing.
   */
  ghost predicate SentInTurn<V>(docs: seq<Document>, embedded: seq<Option<V>>, r: Outcome,
                                batches: seq<seq<Point<V>>>)
    requires |docs| == |embedded|
  {
    var sent := Flatten(batches);
    && (forall b :: 0 <= b < |batches| ==> 0 < |batches[b]| <= 20 && (b < |batches| - 1 ==> |batches[b]| == 20))
    && |sent| <= |Earlier(embedded, |docs|)|
    && (r.Indexed? ==> |sent| == |Earlier(embedded, |docs|)|)
    && forall i: nat :: i < |docs| && |Earlier(embedded, i)| < |sent| ==> HasItsTurn(docs, embedded, sent, i)
  }

  lemma EarlierGrows<V>(embedded: seq<Option<V>>, i: nat)
    requires i < |embedded|
    ensures |Earlier(embedded, i + 1)| == |Earlier(embedded, i)| + if embedded[i].Some? then 1 else 0
    ensures Earlier(embedded[..i], i) == Earlier(embedded, i)
  {
    assert Earlier(embedded, i + 1) == Earlier(embedded, i) + if embedded[i].Some? then {i} else {};
  }

  ghost predicate InTurn<V>(docs: seq<Document>, embedded: seq<Option<V>>, points: seq<Point<V>>)
    requires |docs| == |embedded|
  {
    |points| == |Earlier(embedded, |docs|)| && forall i: nat :: i < |docs| ==> HasItsTurn(docs, embedded, points, i)
  }

  /** Points has every embeddable document in its turn. */
  lemma {:induction false} PointsInTurn<V>(docs: seq<Document>, embedded: seq<Option<V>>)
    requires |docs| == |embedded|
    ensures InTurn(docs, embedded, Points(docs, embedded))
  {
    if docs == [] {
      assert Earlier(embedded, 0) == {};
    } else {
      var n := |docs| - 1;
      PointsInTurn(docs[..n], embedded[..n]);
      hide InTurn;
      hide PointOf;
      OneMoreTurn(docs, embedded, Points(docs[..n], embedded[..n]));
    }
  }

  lemma OneMoreTurn<V>(docs: seq<Document>, embedded: seq<Option<V>>, points: seq<Point<V>>)
    requires |docs| == |embedded| && docs != []
    requires InTurn(docs[..|docs| - 1], embedded[..|docs| - 1], points)
    ensures InTurn(docs, embedded, points + LastPoint(docs, embedded))
  {
    var n := |docs| - 1;
    var more := points + LastPoint(docs, embedded);
    hide Earlier;
    hide HasItsTurn;
    hide PointOf;
    EarlierGrows(embedded, n);
    LastTurn(docs, embedded, points);
    forall i: nat | i < n
      ensures HasItsTurn(docs, embedded, more, i)
    {
      assert HasItsTurn(docs[..n], embedded[..n], points, i);
      hide LastPoint;
      TurnStays(docs, embedded, points, more, i);
    }
  }

  /** The point of the last document, if it could be embedded. */
  function LastPoint<V>(docs: seq<Document>, embedded: seq<Option<V>>): seq<Point<V>>
    requires |docs| == |embedded| && docs != []
  {
    var n := |docs| - 1;
    if embedded[n].Some? then [PointOf(docs[n], embedded[n].value)] else []
  }

  lemma LastTurn<V>(docs: seq<Document>, embedded: seq<Option<V>>, points: seq<Point<V>>)
    requires |docs| == |embedded| && docs != [] && |points| == |Earlier(embedded, |docs| - 1)|
    ensures HasItsTurn(docs, embedded, points + LastPoint(docs, embedded), |docs| - 1)
  {
    hide Earlier;
  }

  lemma TurnStays<V>(docs: seq<Document>, embedded: seq<Option<V>>, points: seq<Point<V>>, more: seq<Point<V>>, i: nat)
    requires |docs| == |embedded| && i < |docs| - 1 && points <= more
    requires HasItsTurn(docs[..|docs| - 1], embedded[..|docs| - 1], points, i)
    ensures HasItsTurn(docs, embedded, more, i)
  {
    assert Earlier(embedded[..|docs| - 1], i) == Earlier(embedded, i);
    hide Earlier;
  }

  lemma SentTurnByTurn<V>(docs: seq<Document>, embedded: seq<Option<V>>, r: Outcome, batches: seq<seq<Point<V>>>)
    requires |docs| == |embedded| && Correct(docs, embedded, r, batches)
    ensures SentInTurn(docs, embedded, r, batches)
  {
    PointsInTurn(docs, embedded);
    SentIsPrefix(docs, embedded, r, batches);
    var sent, points := Flatten(batches), Points(docs, embedded);
    hide Points;
    hide Correct;
    hide Earlier;
    hide HasItsTurn;
    hide Flatten;
    forall i: nat | i < |docs| && |Earlier(embedded, i)| < |sent|
      ensures HasItsTurn(docs, embedded, sent, i)
    {
      assert HasItsTurn(docs, embedded, points, i);
      TurnInPrefix(docs, embedded, sent, points, i);
    }
  }

  lemma TurnInPrefix<V>(docs: seq<Document>, embedded: seq<Option<V>>, sent: seq<Point<V>>, points: seq<Point<V>>,
                        i: nat)
    requires |docs| == |embedded| && i < |docs| && |Earlier(embedded, i)| < |sent| && sent <= points
    requires HasItsTurn(docs, embedded, points, i)
    ensures HasItsTurn(docs, embedded, sent, i)
  {
    hide Earlier;
  }

  lemma SentIsPrefix<V>(docs: seq<Document>, embedded: seq<Option<V>>, r: Outcome, batches: seq<seq<Point<V>>>)
    requires |docs| == |embedded| && Correct(docs, embedded, r, batches)
    ensures forall b :: 0 <= b < |batches| ==> 0 < |batches[b]| <= 20 && (b < |batches| - 1 ==> |batches[b]| == 20)
    ensures Flatten(batches) <= Points(docs, embedded)
    ensures r.Indexed? ==> Flatten(batches) == Points(docs, embedded)
  {
    hide Points;
    if r.NothingIndexed? { assert Flatten(batches) == []; }
    hide Flatten;
  }

  /** Documents that are chunks of one text, in one group of ChunksGetDifferentPoints, are sent as different points. */
  lemma ChunksAreSentApart<V>(docs: seq<Document>, embedded: seq<Option<V>>, r: Outcome,
                              batches: seq<seq<Point<V>>>, a: nat, b: nat, id: string, i: nat, j: nat)
    requires |docs| == |embedded| && SentInTurn(docs, embedded, r, batches)
    requires a < |docs| && embedded[a].Some? && |Earlier(embedded, a)| < |Flatten(batches)|
    requires b < |docs| && embedded[b].Some? && |Earlier(embedded, b)| < |Flatten(batches)|
    requires docs[a].id == Chunking.ChunkId(id, i) && docs[b].id == Chunking.ChunkId(id, j)
    requires i != j && i / 100 == j / 100 && (i < 10 <==> j < 10)
    ensures Flatten(batches)[|Earlier(embedded, a)|].id != Flatten(batches)[|Earlier(embedded, b)|].id
  {
    ChunksGetDifferentPoints(id, i, j);
    hide Flatten;
    hide Earlier;
    hide Chunking.ChunkId;
    hide DocUuid.DocUuid;
  }

  /**
   IndexDocuments. embedded gives the embedder's answer for each document, cancelled what ctx.Err()
   says before each one, accepts whether the server takes the n-th request.
   */
  method IndexDocuments<V(0)>(server: Server<Point<V>>, docs: seq<Document>, embedded: seq<Option<V>>,
                              cancelled: nat -> bool, accepts: nat -> bool)
    returns (r: Outcome, ghost batches: seq<seq<Point<V>>>)
    requires |docs| == |embedded|
    modifies server
    ensures server.Log() == old(server.Log()) + batches
    ensures IsOutcome(docs, embedded, cancelled, accepts, r, batches)
    ensures SentInTurn(docs, embedded, r, batches)
  {
    hide *;
    if |docs| == 0 {
      EmptyRun(docs, embedded);
      NothingYet(cancelled, accepts);
      AnOutcome(docs, embedded, cancelled, accepts, Indexed(0, 0), []);
      return Indexed(0, 0), [];
    }
    var batch := new Point<V>[BATCH_SIZE];
    var end;
    end, batches := SendFullBatches(server, batch, docs, embedded, cancelled, accepts);
    match end {
      case Stopped(stop) => r := stop;
      case Completed(len, sent, successCount, skipCount) =>
        FinishRun(docs, embedded, batches, batch[..len]);
        var ok := server.Upsert(batch, len, accepts(sent));
        if !ok {
          AnOutcome(docs, embedded, cancelled, accepts, UpsertFailed, batches);
          return UpsertFailed, batches;
        }
        Flushed(accepts, batches, batch[..len]);
        batches := AllBatches(batches, batch[..len]);
        r := if successCount + len == 0 then NothingIndexed else Indexed(successCount + len, skipCount);
    }
    AnOutcome(docs, embedded, cancelled, accepts, r, batches);
  }

  lemma AnOutcome<V>(docs: seq<Document>, embedded: seq<Option<V>>, cancelled: nat -> bool, accepts: nat -> bool,
                     r: Outcome, batches: seq<seq<Point<V>>>)
    requires |docs| == |embedded| && Correct(docs, embedded, r, batches)
    requires r.Cancelled? ==> !NotCancelled(cancelled, |docs|)
    requires r.UpsertFailed? ==> !accepts(|batches|)
    requires !r.Cancelled? && !r.UpsertFailed? ==>
               NotCancelled(cancelled, |docs|) && AllAccepted(accepts, |batches|)
    ensures IsOutcome(docs, embedded, cancelled, accepts, r, batches) && SentInTurn(docs, embedded, r, batches)
  {
    SentTurnByTurn(docs, embedded, r, batches);
    hide Correct;
    hide SentInTurn;
  }

  /** The loop of IndexDocuments. */
  method SendFullBatches<V(0)>(server: Server<Point<V>>, batch: array<Point<V>>, docs: seq<Document>,
                               embedded: seq<Option<V>>, cancelled: nat -> bool, accepts: nat -> bool)
    returns (end: LoopEnd, ghost batches: seq<seq<Point<V>>>)
    requires |docs| == |embedded| && batch.Length == BATCH_SIZE && batch !in server.requests
    modifies server, batch
    ensures batch !in server.requests && server.Log() == old(server.Log()) + batches
    ensures end.Stopped? ==>
              && Correct(docs, embedded, end.r, batches)
              && (|| (end.r == Cancelled && !NotCancelled(cancelled, |docs|))
                  || (end.r == UpsertFailed && !accepts(|batches|)))
    ensures end.Completed? ==>
              && end.len < BATCH_SIZE && Progress(docs, embedded, |docs|, batches, batch[..end.len])
              && end.sent == |batches| && end.successCount == |Flatten(batches)|
              && end.successCount + end.len + end.skipCount == |docs|
              && NotCancelled(cancelled, |docs|) && AllAccepted(accepts, end.sent)
  {
    hide Points;
    hide PointOf;
    hide Progress;
    hide Correct;
    hide Flatten;
    hide AllFull;
    batches := [];
    var successCount: nat, skipCount: nat, len: nat, sent: nat := 0, 0, 0, 0;
    StartRun(docs, embedded);
    assert batch[..0] == [];
    for i := 0 to |docs|
      invariant len < BATCH_SIZE && Progress(docs, embedded, i, batches, batch[..len])
      invariant batch !in server.requests && server.Log() == old(server.Log()) + batches && sent == |batches|
      invariant successCount + len + skipCount == i && successCount == |Flatten(batches)|
      invariant NotCancelled(cancelled, i) && AllAccepted(accepts, sent)
    {
      ProgressSplit(docs, embedded, i, batches, batch[..len]);
      if cancelled(i) {
        StopEarly(docs, embedded, i, batches, batch[..len]);
        return Stopped(Cancelled), batches;
      }
      Advance(docs, embedded, i, batches, batch[..len]);
      match embedded[i]
      case None =>
        skipCount := skipCount + 1;
        assert batch[..len] + [] == batch[..len];
      case Some(vector) =>
        ghost var full := batch[..len] + [PointOf(docs[i], vector)];
        var ok, flushed, len' := Append(server, batch, len, PointOf(docs[i], vector), accepts(sent));
        if !ok {
          StopEarly(docs, embedded, i + 1, batches, full);
          return Stopped(UpsertFailed), batches;
        }
        if flushed {
          batches := batches + [full];
          sent := sent + 1;
          successCount := successCount + BATCH_SIZE;
        }
        len := len';
    }
    end := Completed(len, sent, successCount, skipCount);
  }

  /** The last flush adds the rest of the buffer as one batch, unless there is nothing left. */
  lemma Flushed<T>(accepts: nat -> bool, batches: seq<seq<T>>, rest: seq<T>)
    requires AllAccepted(accepts, |batches|) && (rest == [] || accepts(|batches|))
    ensures AllAccepted(accepts, |AllBatches(batches, rest)|)
    ensures AllBatches(batches, rest) == if rest == [] then batches else batches + [rest]
  {
  }

  lemma EmptyRun<V>(docs: seq<Document>, embedded: seq<Option<V>>)
    requires docs == [] && embedded == []
    ensures Correct(docs, embedded, Indexed(0, 0), [])
  {
    assert Points(docs, embedded) == [];
    assert Flatten<Point<V>>([]) == [];
    hide Points;
    hide Flatten;
  }

  lemma NothingYet(cancelled: nat -> bool, accepts: nat -> bool)
    ensures NotCancelled(cancelled, 0) && AllAccepted(accepts, 0)
  {
  }

  lemma StartRun<V>(docs: seq<Document>, embedded: seq<Option<V>>)
    requires |docs| == |embedded|
    ensures Progress(docs, embedded, 0, [], []) && Flatten<Point<V>>([]) == []
  {
  }

  // ------------------------------------------------------------------ when indexing succeeds

  /** The number of requests for n points. */
  function BatchesFor(n: nat): nat {
    (n + BATCH_SIZE - 1) / BATCH_SIZE
  }

  lemma {:induction false} FullBatchesLength<T>(batches: seq<seq<T>>)
    requires AllFull(batches)
    ensures |Flatten(batches)| == BATCH_SIZE * |batches|
  {
    if batches != [] { FullBatchesLength(batches[..|batches| - 1]); }
  }

  lemma BatchCount<T>(batches: seq<seq<T>>)
    requires WellBatched(batches)
    ensures |batches| == BatchesFor(|Flatten(batches)|)
  {
    if batches != [] {
      var n := |batches| - 1;
      FullBatchesLength(batches[..n]);
      assert 0 < |batches[n]| <= BATCH_SIZE;
    }
  }

  /**
   The run gets through iff it is never cancelled and every request it needs is accepted; it then returns nil
   iff some document could be embedded or there was none.
   */
  lemma SucceedsExactly<V>(docs: seq<Document>, embedded: seq<Option<V>>, cancelled: nat -> bool,
                           accepts: nat -> bool, r: Outcome, batches: seq<seq<Point<V>>>)
    requires |docs| == |embedded| && IsOutcome(docs, embedded, cancelled, accepts, r, batches)
    ensures var through := NotCancelled(cancelled, |docs|)
                           && AllAccepted(accepts, BatchesFor(|Points(docs, embedded)|));
            && (r.Indexed? || r.NothingIndexed? <==> through)
            && (r.Indexed? <==> through && (docs == [] || Points(docs, embedded) != []))
  {
    hide Points;
    hide Flatten;
    match r
    case Indexed(_, _) => BatchCount(batches);
    case NothingIndexed =>
    case Cancelled =>
    case UpsertFailed => FailedBatch(batches, Points(docs, embedded));
  }

  lemma FailedBatch<T>(batches: seq<seq<T>>, points: seq<T>)
    requires AllFull(batches) && Flatten(batches) <= points && Flatten(batches) != points
    ensures |batches| < BatchesFor(|points|)
  {
    FullBatchesLength(batches);
    hide Flatten;
    assert points == Flatten(batches) + points[|Flatten(batches)|..];
  }

  /** The comment's promise: an error is returned only if there are documents and none can be embedded. */
  predicate ErrorOnlyIfAllFail<V>(docs: seq<Document>, embedded: seq<Option<V>>, r: Outcome)
    requires |docs| == |embedded|
  {
    !r.Indexed? ==> docs != [] && Points(docs, embedded) == []
  }

  /** It is kept exactly when the run gets through or no document can be embedded anyway. */
  lemma PromiseKeptExactly<V>(docs: seq<Document>, embedded: seq<Option<V>>, cancelled: nat -> bool,
                              accepts: nat -> bool, r: Outcome, batches: seq<seq<Point<V>>>)
    requires |docs| == |embedded| && IsOutcome(docs, embedded, cancelled, accepts, r, batches)
    ensures ErrorOnlyIfAllFail(docs, embedded, r)
       <==> || (NotCancelled(cancelled, |docs|) && AllAccepted(accepts, BatchesFor(|Points(docs, embedded)|)))
            || (docs != [] && Points(docs, embedded) == [])
  {
    SucceedsExactly(docs, embedded, cancelled, accepts, r, batches);
    hide Points;
    hide Correct;
  }

  /** One document that is embedded and whose request is rejected: an error, although no document failed. */
  lemma RejectedRequestFails<V>(doc: Document, vector: V, cancelled: nat -> bool, accepts: nat -> bool, r: Outcome,
                                batches: seq<seq<Point<V>>>)
    requires IsOutcome([doc], [Some(vector)], cancelled, accepts, r, batches) && !cancelled(0) && !accepts(0)
    ensures r == UpsertFailed && !ErrorOnlyIfAllFail([doc], [Some(vector)], r)
  {
    OnePoint(doc, vector);
    hide Points;
    hide Flatten;
    hide PointOf;
    SucceedsExactly([doc], [Some(vector)], cancelled, accepts, r, batches);
    assert BatchesFor(1) == 1;
  }

  lemma OnePoint<V>(doc: Document, vector: V)
    ensures Points([doc], [Some(vector)]) == [PointOf(doc, vector)]
  {
    var docs, embedded := [doc], [Some(vector)];
    assert docs[..0] == [] && embedded[..0] == [];
    hide PointOf;
  }

  // ------------------------------------------------------------------ chunks as points

  lemma LastTwoDiffer(front: string, c: char, d: char, c': char, d': char)
    requires c < '\U{80}' && d < '\U{80}' && c' < '\U{80}' && d' < '\U{80}' && (c != c' || d != d')
    ensures DocUuid.DocUuid(Bytes(front + [c, d])) != DocUuid.DocUuid(Bytes(front + [c', d']))
  {
    BytesConcat(front, [c, d]);
    BytesConcat(front, [c', d']);
    BytesOfTwo(c, d);
    BytesOfTwo(c', d');
    hide *;
    var f, x, y, x', y' := Bytes(front), c as int, d as int, c' as int, d' as int;
    DocUuid.AdjacentBytesNeverCollide(f, x, y, x', y', []);
    assert f + [x, y] + [] == f + [x, y] && f + [x', y'] + [] == f + [x', y'];
  }

  /** The text of a chunk id before its last two characters. */
  function Front(id: string, index: nat): string {
    if index < 10 then id + "_chunk"
    else if index < 100 then id + "_chunk_"
    else id + "_chunk_" + Chunking.Decimal(index / 100)
  }

  lemma ChunkIdEnds(id: string, index: nat)
    ensures Chunking.ChunkId(id, index)
            == Front(id, index)
               + [if index < 10 then '_' else Chunking.Digit(index / 10 % 10), Chunking.Digit(index % 10)]
  {
    if index < 10 {
      assert id + "_chunk_" == id + "_chunk" + ['_'];
    } else if index < 100 {
      assert Chunking.Decimal(index) == [Chunking.Digit(index / 10), Chunking.Digit(index % 10)];
    } else {
      assert index / 10 / 10 == index / 100;
      assert Chunking.Decimal(index)
          == Chunking.Decimal(index / 100) + [Chunking.Digit(index / 10 % 10), Chunking.Digit(index % 10)];
    }
  }

  /**
   The chunks of one document get different point ids, so none overwrites another, whenever their indexes have
   equally many digits and differ in the last two only: among the first ten, the next ninety, and then every
   hundred. (Between those groups nothing rules out a collision of the hash.)
   */
  lemma ChunksGetDifferentPoints(id: string, i: nat, j: nat)
    requires i != j && i / 100 == j / 100 && (i < 10 <==> j < 10)
    ensures DocUuid.DocUuid(Bytes(Chunking.ChunkId(id, i))) != DocUuid.DocUuid(Bytes(Chunking.ChunkId(id, j)))
  {
    LastDigitsDiffer(i, j);
    assert Front(id, i) == Front(id, j) by { hide Chunking.Decimal; }
    DigitsDiffer(i / 10 % 10, j / 10 % 10);
    DigitsDiffer(i % 10, j % 10);
    hide *;
    ChunkIdEnds(id, i);
    ChunkIdEnds(id, j);
    LastTwoDiffer(Front(id, i), if i < 10 then '_' else Chunking.Digit(i / 10 % 10), Chunking.Digit(i % 10),
                  if j < 10 then '_' else Chunking.Digit(j / 10 % 10), Chunking.Digit(j % 10));
  }

  lemma LastDigitsDiffer(i: nat, j: nat)
    requires i != j && i / 100 == j / 100 && (i < 10 <==> j < 10)
    ensures i % 10 != j % 10 || (i >= 10 && i / 10 % 10 != j / 10 % 10)
  {
    assert i / 10 / 10 == i / 100 && j / 10 / 10 == j / 100;
  }

  lemma DigitsDiffer(x: nat, y: nat)
    requires x < 10 && y < 10
    ensures Chunking.Digit(x) == Chunking.Digit(y) <==> x == y
    ensures Chunking.Digit(x) < '\U{80}' && Chunking.Digit(y) < '\U{80}'
  {
  }
}
