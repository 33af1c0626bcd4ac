/**
 The mutable state of the pattern detector (internal/aggregator/pattern_detector.go): a map of
 per-fingerprint objects, each with one growable time slice per window, pruned in place. Every method
 is proved to make exactly the step that SlidingWindows specifies, so the theorems there are about
 this code. The clock reading of each call is a parameter.
 */
module PatternDetector {
  import opened SlidingWindows

  /** A Go slice: the first len elements of a backing array. */
  datatype Slice = Slice(buf: array<int>, len: nat) {
    ghost function View(): seq<int>
      requires len <= buf.Length
      reads buf
    {
      buf[..len]
    }
  }

  /** append(s, t): in place while the capacity lasts, otherwise into a fresh, larger array. */
  method AppendTo(s: Slice, t: int) returns (r: Slice)
    requires s.len <= s.buf.Length
    modifies s.buf
    ensures r.len <= r.buf.Length && r.View() == old(s.View()) + [t]
    ensures r.buf == s.buf || fresh(r.buf)
  {
    if s.len < s.buf.Length {
      s.buf[s.len] := t;
      r := Slice(s.buf, s.len + 1);
    } else {
      var bigger := new int[2 * s.len + 1];
      for i := 0 to s.len
        invariant s.buf[..] == old(s.buf[..])
        invariant bigger[..i] == s.buf[..i]
      {
        bigger[i] := s.buf[i];
      }
      bigger[s.len] := t;
      r := Slice(bigger, s.len + 1);
    }
  }

  /** The leading times before cutoff are those below the boundary. */
  lemma {:induction false} PrunedAtBoundary(events: seq<int>, cutoff: int, lo: nat)
    requires lo <= |events|
    requires forall i :: 0 <= i < lo ==> events[i] < cutoff
    requires lo < |events| ==> events[lo] >= cutoff
    ensures Pruned(events, cutoff) == events[lo..]
  {
    if lo > 0 {
      assert events[1..][lo - 1..] == events[lo..];
      PrunedAtBoundary(events[1..], cutoff, lo - 1);
    }
  }

  /** pruneWindow: binary search for the first recent event, then a shift to the front of the same array. */
  method PruneWindow(events: Slice, now: int, duration: int) returns (r: Slice)
    requires events.len <= events.buf.Length && Sorted(events.View())
    modifies events.buf
    ensures r.buf == events.buf && r.len <= r.buf.Length
    ensures r.View() == Pruned(old(events.View()), now - duration)
  {
    var cutoff := now - duration;
    var buf := events.buf;
    ghost var before := events.View();
    var lo, hi := 0, events.len;
    while lo < hi
      invariant 0 <= lo <= hi <= events.len
      invariant forall i :: 0 <= i < lo ==> before[i] < cutoff
      invariant forall i :: hi <= i < events.len ==> before[i] >= cutoff
    {
      var mid := (lo + hi) / 2;
      assert buf[mid] == before[mid];
      if buf[mid] < cutoff {
        lo := mid + 1;
      } else {
        hi := mid;
      }
    }
    PrunedAtBoundary(before, cutoff, lo);
    if lo == 0 {
      return events;
    }
    if lo == events.len {
      return Slice(buf, 0);
    }
    CopyDown(buf, lo, events.len);
    return Slice(buf, events.len - lo);
  }

  /** copy(buf, buf[lo:len]) */
  method CopyDown(buf: array<int>, lo: nat, len: nat)
    requires lo <= len <= buf.Length
    modifies buf
    ensures buf[..len - lo] == old(buf[lo..len])
  {
    ghost var before := buf[..];
    for i := 0 to len - lo
      invariant forall j :: 0 <= j < i ==> buf[j] == before[lo + j]
      invariant forall j :: i <= j < len ==> buf[j] == before[j]
    {
      buf[i] := buf[lo + i];
    }
    assert buf[..len - lo] == before[lo..len];
  }

  /** fingerprintData */
  class FingerprintData {
    var events: map<Window, Slice>
    var lastSeen: int
    ghost var Repr: set<object>

    /** The windows never share an array, and every list is in chronological order. */
    ghost predicate Valid()
      reads this, Repr
      ensures Valid() ==> this in Repr
    {
      && M1 in events && M5 in events && M15 in events
      && Repr == {this, events[M1].buf, events[M5].buf, events[M15].buf}
      && events[M1].buf != events[M5].buf && events[M1].buf != events[M15].buf && events[M5].buf != events[M15].buf
      && SliceOk(events[M1]) && SliceOk(events[M5]) && SliceOk(events[M15])
    }

    ghost predicate SliceOk(s: Slice)
      reads this, s.buf
    {
      s.len <= s.buf.Length && Chronological(s.View(), lastSeen)
    }

    ghost function Abs(): (t: Tracked)
      requires Valid()
      reads this, Repr
      ensures t.lastSeen == lastSeen
    {
      Tracked(events[M1].View(), events[M5].View(), events[M15].View(), lastSeen)
    }

    /** len(events[w]) */
    function Count(w: Window): (n: nat)
      requires Valid()
      reads this, Repr
      ensures n == |Abs().At(w)|
    {
      match w
      case M1 => events[M1].len
      case M5 => events[M5].len
      case M15 => events[M15].len
    }

    /** newFingerprintData */
    constructor ()
      ensures Valid() && Abs() == FRESH && fresh(Repr)
    {
      var b1, b5, b15 := new int[0], new int[0], new int[0];
      events := map[M1 := Slice(b1, 0), M5 := Slice(b5, 0), M15 := Slice(b15, 0)];
      lastSeen := 0;
      Repr := {this, b1, b5, b15};
    }

    /** The body of Record, the loop over the three windows written out. */
    method Push(t: int)
      requires Valid() && (Abs() == FRESH || lastSeen <= t)
      modifies Repr
      ensures Valid() && Abs() == Append(old(Abs()), t)
      ensures fresh(Repr - old(Repr))
    {
      hide Chronological;
      ChronologicalAppend(events[M1].View(), lastSeen, t);
      ChronologicalAppend(events[M5].View(), lastSeen, t);
      ChronologicalAppend(events[M15].View(), lastSeen, t);
      lastSeen := t;
      var s1 := AppendTo(events[M1], t);
      var s5 := AppendTo(events[M5], t);
      var s15 := AppendTo(events[M15], t);
      events := map[M1 := s1, M5 := s5, M15 := s15];
      Repr := {this, s1.buf, s5.buf, s15.buf};
    }

    /** events[w] = pruneWindow(events[w], now, w.duration) */
    method Prune(w: Window, now: int)
      requires Valid()
      modifies Repr
      ensures Valid() && Abs() == PruneOne(old(Abs()), w, now)
      ensures Repr == old(Repr)
    {
      ghost var before := Abs();
      assert w in events && SliceOk(events[w]) && before.At(w) == events[w].View();
      hide Chronological;
      ChronologicalPruned(before.At(w), lastSeen, now - w.Duration());
      var pruned := PruneWindow(events[w], now, w.Duration());
      events := events[w := pruned];
    }
  }

  lemma ChronologicalAppend(v: seq<int>, last: int, t: int)
    requires Chronological(v, last) && (v == [] || last <= t)
    ensures Chronological(v + [t], t)
  {
  }

  lemma ChronologicalPruned(v: seq<int>, last: int, cutoff: int)
    requires Chronological(v, last)
    ensures Sorted(v) && Chronological(Pruned(v, cutoff), last)
  {
    PrunedIsRecentSuffix(v, cutoff);
  }

  /** PatternDetector; its lock makes each method one atomic step. */
  class PatternDetector {
    var data: map<string, FingerprintData>
    ghost var Repr: set<object>

    /** Every entry is valid, and no two entries share an object or a backing array. */
    ghost predicate Valid()
      reads this, Repr
      ensures Valid() ==> this in Repr
    {
      && this in Repr
      && (forall fp :: fp in data ==> EntryOk(data[fp]))
      && (forall p, q :: p in data && q in data && p != q ==> data[p].Repr !! data[q].Repr)
    }

    ghost predicate EntryOk(fd: FingerprintData)
      reads this, Repr
    {
      fd in Repr && fd.Repr <= Repr && this !in fd.Repr && fd.Valid()
    }

    ghost function Abs(): (s: State)
      requires Valid()
      reads this, Repr
      ensures s.Keys == data.Keys
    {
      map fp | fp in data :: data[fp].Abs()
    }

    constructor ()
      ensures Valid() && Abs() == map[] && fresh(Repr)
    {
      data := map[];
      Repr := {this};
    }

    /** events[w] of fp's entry is pruned; everything else stays. */
    method PruneEntry(fp: string, w: Window, now: int)
      requires Valid() && fp in data
      modifies Repr
      ensures Valid() && data == old(data) && Repr == old(Repr)
      ensures Abs() == old(Abs())[fp := PruneOne(old(Abs())[fp], w, now)]
    {
      hide FingerprintData.Valid;
      hide FingerprintData.Abs;
      hide PruneOne;
      assert EntryOk(data[fp]);
      data[fp].Prune(w, now);
      EntryRewritten(fp);
    }

    /** getOrCreate */
    method GetOrCreate(fp: string) returns (fd: FingerprintData)
      requires Valid()
      modifies this
      ensures Valid() && fresh(Repr - old(Repr))
      ensures fp in data && fd == data[fp]
      ensures Abs() == if fp in old(Abs()) then old(Abs()) else old(Abs())[fp := FRESH]
    {
      hide FingerprintData.Valid;
      hide FingerprintData.Abs;
      if fp in data {
        return data[fp];
      }
      fd := new FingerprintData();
      hide Valid;
      hide Abs;
      data := data[fp := fd];
      Repr := Repr + {fd} + fd.Repr;
      EntryAdded(fp);
    }

    /** A fresh entry leaves the others as they were. */
    twostate lemma EntryAdded(fp: string)
      requires old(Valid()) && fp in data && fp !in old(data) && data == old(data)[fp := data[fp]]
      requires EntryOk(data[fp]) && fresh(data[fp].Repr) && Repr == old(Repr) + {data[fp]} + data[fp].Repr
      requires forall o: object :: o in old(Repr) && o != this ==> unchanged(o)
      ensures Valid() && Abs() == old(Abs())[fp := data[fp].Abs()]
    {
      hide FingerprintData.Valid;
      hide FingerprintData.Abs;
      ghost var others := old(data).Keys;
      forall q, o: object | q in others && o in old(data[q].Repr)
        ensures unchanged(o)
      {
        assert old(EntryOk(data[q]));
      }
      EntriesUntouched(others);
      FreshStaysApart(fp);
      hide *;
      Assemble(fp);
    }

    twostate lemma FreshStaysApart(fp: string)
      requires old(Valid()) && fp in data && data.Keys == old(data).Keys + {fp} && fresh(data[fp].Repr)
      requires forall q :: q in data && q != fp ==> data[q] == old(data)[q] && data[q].Repr == old(data[q].Repr)
      ensures forall p, q :: p in data && q in data && p != q ==> data[p].Repr !! data[q].Repr
    {
      hide FingerprintData.Valid;
      hide FingerprintData.Abs;
      forall q | q in data && q != fp
        ensures data[q].Repr !! data[fp].Repr
      {
        assert old(EntryOk(data[q]));
      }
      forall p, q | p in data && q in data && p != q
        ensures data[p].Repr !! data[q].Repr
      {
        if p != fp && q != fp { assert old(data[p].Repr) !! old(data[q].Repr); }
      }
    }

    /** Record; events must arrive in chronological order, as the method's comment demands. */
    method Record(fp: string, t: int)
      requires Valid()
      requires fp in Abs() ==> Abs()[fp].lastSeen <= t
      modifies Repr
      ensures Valid() && fresh(Repr - old(Repr))
      ensures Abs() == Step(old(Abs()), Op.Record(fp, t)).0
    {
      hide Valid;
      hide Abs;
      hide Append;
      ghost var s := Abs();
      var fd := GetOrCreate(fp);
      PushEntry(fp, t);
      assert Abs() == s[fp := Append(if fp in s then s[fp] else FRESH, t)];
    }

    /** The event is appended to every window of fp's entry; everything else stays. */
    method PushEntry(fp: string, t: int)
      requires Valid() && fp in data
      requires Abs()[fp] == FRESH || Abs()[fp].lastSeen <= t
      modifies Repr
      ensures Valid() && data == old(data) && fresh(Repr - old(Repr))
      ensures Abs() == old(Abs())[fp := Append(old(Abs())[fp], t)]
    {
      hide FingerprintData.Valid;
      hide FingerprintData.Abs;
      hide Append;
      assert EntryOk(data[fp]);
      hide Valid;
      hide Abs;
      data[fp].Push(t);
      Repr := Repr + data[fp].Repr;
      EntryRewritten(fp);
    }

    method GetFrequency(fp: string, now: int) returns (out: seq<PatternWindow>)
      requires Valid()
      modifies Repr
      ensures Valid() && Repr == old(Repr)
      ensures (Abs(), Frequency(out)) == Step(old(Abs()), Op.GetFrequency(fp, now))
    {
      hide Valid;
      hide Abs;
      hide Pruned;
      hide Report;
      if fp !in data {
        return [Report(M1, 0), Report(M5, 0), Report(M15, 0)];
      }
      ghost var s, t := Abs(), Abs()[fp];
      PruneEntry(fp, M1, now);
      PruneEntry(fp, M5, now);
      PruneEntry(fp, M15, now);
      assert Abs() == s[fp := PruneOne(PruneOne(PruneOne(t, M1, now), M5, now), M15, now)];
      var n1, n5, n15 := CountIn(fp, M1), CountIn(fp, M5), CountIn(fp, M15);
      out := [Report(M1, n1), Report(M5, n5), Report(M15, n15)];
    }

    /** len(fd.events[w]) */
    function CountIn(fp: string, w: Window): (n: nat)
      requires Valid() && fp in data
      reads this, Repr
      ensures n == |Abs()[fp].At(w)|
    {
      assert EntryOk(data[fp]);
      data[fp].Count(w)
    }

    method IsBursting(fp: string, threshold: int, now: int) returns (yes: bool)
      requires Valid()
      modifies Repr
      ensures Valid() && Repr == old(Repr)
      ensures (Abs(), Answer(yes)) == Step(old(Abs()), Op.IsBursting(fp, threshold, now))
    {
      hide Valid;
      hide Abs;
      hide Pruned;
      if fp !in data {
        return false;
      }
      PruneEntry(fp, M1, now);
      yes := CountIn(fp, M1) > threshold;
    }

    method IsRecurring(fp: string, now: int) returns (yes: bool)
      requires Valid()
      modifies Repr
      ensures Valid() && Repr == old(Repr)
      ensures (Abs(), Answer(yes)) == Step(old(Abs()), Op.IsRecurring(fp, now))
    {
      hide Valid;
      hide Abs;
      hide Pruned;
      if fp !in data {
        return false;
      }
      ghost var s, t := Abs(), Abs()[fp];
      PruneEntry(fp, M1, now);
      if CountIn(fp, M1) == 0 {
        return false;
      }
      PruneEntry(fp, M5, now);
      assert Abs() == s[fp := PruneOne(PruneOne(t, M1, now), M5, now)];
      if CountIn(fp, M5) == 0 {
        return false;
      }
      PruneEntry(fp, M15, now);
      assert Abs() == s[fp := PruneOne(PruneOne(PruneOne(t, M1, now), M5, now), M15, now)];
      yes := CountIn(fp, M15) != 0;
    }

    /** cleanup */
    method Cleanup(now: int)
      requires Valid()
      modifies this
      ensures Valid() && Repr == old(Repr)
      ensures Abs() == Step(old(Abs()), Op.Cleanup(now)).0
    {
      hide Valid;
      hide Abs;
      EvictStale(now - STALE);
      StaleEntriesDropped(now - STALE);
    }

    ghost function Stale(cutoff: int): set<string>
      reads this, set fp | fp in data :: data[fp]
    {
      set fp | fp in data && data[fp].lastSeen < cutoff
    }

    /** The loop of cleanup; the order in which the map is walked is arbitrary. */
    method EvictStale(cutoff: int)
      modifies `data
      ensures data == old(data) - old(Stale(cutoff))
    {
      var all := data;
      ghost var stale := Stale(cutoff);
      var todo := data.Keys;
      while todo != {}
        invariant todo <= all.Keys
        invariant data == all - (stale - todo)
        decreases |todo|
      {
        var fp :| fp in todo;
        DropOne(all, stale, todo, fp);
        todo := todo - {fp};
        if all[fp].lastSeen < cutoff {
          data := data - {fp};
        }
      }
    }

    lemma DropOne<V>(all: map<string, V>, stale: set<string>, todo: set<string>, fp: string)
      requires fp in todo && todo <= all.Keys
      ensures all - (stale - (todo - {fp})) == if fp in stale then all - (stale - todo) - {fp} else all - (stale - todo)
    {
    }

    /** Dropping the entries last seen before cutoff leaves the remaining ones as they were. */
    twostate lemma StaleEntriesDropped(cutoff: int)
      requires old(Valid()) && Repr == old(Repr)
      requires data == old(data) - old(Stale(cutoff))
      requires forall o: object :: o in old(Repr) && o != this ==> unchanged(o)
      ensures Valid()
      ensures Abs() == Evicted(old(Abs()), cutoff + STALE)
    {
      EntriesUntouched(data.Keys);
      hide FingerprintData.Valid;
      hide FingerprintData.Abs;
    }

    /** Rewriting one entry leaves the others as they were. */
    twostate lemma OthersUntouched(fp: string)
      requires old(Valid()) && data == old(data) && fp in data && old(Repr) <= Repr
      requires forall o: object :: o in old(Repr) && o !in old(data[fp].Repr) && o != this ==> unchanged(o)
      ensures forall q :: q in data && q != fp ==>
                EntryOk(data[q]) && data[q].Repr == old(data[q].Repr) && data[q].Abs() == old(data[q].Abs())
    {
      hide FingerprintData.Valid;
      hide FingerprintData.Abs;
      var others := data.Keys - {fp};
      forall q, o: object | q in others && o in old(data[q].Repr)
        ensures unchanged(o)
      {
        assert old(EntryOk(data[q])) && old(data[q].Repr) !! old(data[fp].Repr);
      }
      EntriesUntouched(others);
    }

    twostate lemma EntryRewritten(fp: string)
      requires old(Valid()) && data == old(data) && fp in data
      requires Repr == old(Repr) + data[fp].Repr
      requires data[fp].Valid() && this !in data[fp].Repr && fresh(data[fp].Repr - old(data[fp].Repr))
      requires forall o: object :: o in old(Repr) && o !in old(data[fp].Repr) && o != this ==> unchanged(o)
      ensures Valid()
      ensures Abs() == old(Abs())[fp := data[fp].Abs()]
    {
      hide *;
      OthersUntouched(fp);
      ReprsStayApart(fp);
      RewrittenEntryOk(fp);
      assert data.Keys == old(data).Keys + {fp};
      Assemble(fp);
    }

    lemma RewrittenEntryOk(fp: string)
      requires fp in data && data[fp].Valid() && this !in data[fp].Repr && data[fp].Repr <= Repr
      ensures EntryOk(data[fp])
    {
      hide FingerprintData.Abs;
    }

    twostate lemma Assemble(fp: string)
      requires old(Valid()) && this in Repr && data.Keys == old(data).Keys + {fp} && EntryOk(data[fp])
      requires forall q :: q in data && q != fp ==>
                 data[q] == old(data)[q] && EntryOk(data[q]) && data[q].Abs() == old(data[q].Abs())
      requires forall p, q :: p in data && q in data && p != q ==> data[p].Repr !! data[q].Repr
      ensures Valid() && Abs() == old(Abs())[fp := data[fp].Abs()]
    {
      hide FingerprintData.Valid;
      hide FingerprintData.Abs;
      var s := old(Abs())[fp := data[fp].Abs()];
      assert forall q :: q in data ==> EntryOk(data[q]) && s[q] == data[q].Abs();
      hide *;
      ValidFromParts();
      AbsIs(s);
    }

    lemma ValidFromParts()
      requires this in Repr && forall q :: q in data ==> EntryOk(data[q])
      requires forall p, q :: p in data && q in data && p != q ==> data[p].Repr !! data[q].Repr
      ensures Valid()
    {
      hide EntryOk;
    }

    lemma AbsIs(s: State)
      requires Valid() && s.Keys == data.Keys && forall q :: q in data ==> EntryOk(data[q]) && s[q] == data[q].Abs()
      ensures Abs() == s
    {
      hide FingerprintData.Valid;
      hide FingerprintData.Abs;
    }

    /** The rewritten entry gains fresh objects only, so it still shares none with another entry. */
    twostate lemma ReprsStayApart(fp: string)
      requires old(Valid()) && data == old(data) && fp in data
      requires fresh(data[fp].Repr - old(data[fp].Repr))
      requires forall q :: q in data && q != fp ==> data[q].Repr == old(data[q].Repr)
      ensures forall p, q :: p in data && q in data && p != q ==> data[p].Repr !! data[q].Repr
    {
      hide FingerprintData.Valid;
      hide FingerprintData.Abs;
      forall q | q in data && q != fp
        ensures data[q].Repr !! data[fp].Repr
      {
        assert old(EntryOk(data[q])) && old(data[q].Repr) !! old(data[fp].Repr);
      }
      forall p, q | p in data && q in data && p != q
        ensures data[p].Repr !! data[q].Repr
      {
        assert old(data[p].Repr) !! old(data[q].Repr);
      }
    }

    /** An entry none of whose objects changed is as valid, and says the same, as before. */
    twostate lemma EntriesUntouched(qs: set<string>)
      requires old(Valid()) && old(Repr) <= Repr
      requires forall q :: q in qs ==> q in data && q in old(data) && data[q] == old(data)[q]
      requires forall q, o: object :: q in qs && o in old(data[q].Repr) ==> unchanged(o)
      ensures forall q :: q in qs ==> EntryOk(data[q]) && data[q].Repr == old(data[q].Repr)
      ensures forall q :: q in qs ==> data[q].Abs() == old(data[q].Abs())
    {
      hide FingerprintData.Valid;
      hide FingerprintData.Abs;
      forall q | q in qs
        ensures EntryOk(data[q]) && data[q].Repr == old(data[q].Repr) && data[q].Abs() == old(data[q].Abs())
      {
        assert old(EntryOk(data[q]));
      }
    }
  }
}
