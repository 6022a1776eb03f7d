/**
 Queries of one ring nobody is writing: the binary search over records with holes and
 the walk that returns the newest of a window. A ring is seen here as its live slots in
 write order.
 */
module RingQuery {
  import opened Samples
  import opened Rings
  import opened RingRuns

  type View = seq<Slot>

  /** The live records in write order: logical index Oldest() + i at i. */
  function LiveView(r: Ring): View
    requires r.Cap() > 0
  {
    seq(r.Live(), i requires 0 <= i < r.Live() => r.Slot(r.Oldest() + i))
  }

  /** The records that decode are in time order. */
  ghost predicate Ordered(v: View) {
    forall i, j :: 0 <= i < j < |v| && v[i].Holds? && v[j].Holds? ==> v[i].rec.ts <= v[j].rec.ts
  }

  /** A ring that only append wrote, through any crashes, is in time order when at rest. */
  lemma SoundIsOrdered(s: System)
    requires Sound(s) && s.ring.phase.Idle?
    ensures Ordered(LiveView(s.ring))
  {
    var v, oldest := LiveView(s.ring), s.ring.Oldest();
    forall i, j | 0 <= i < j < |v| && v[i].Holds? && v[j].Holds?
      ensures v[i].rec.ts <= v[j].rec.ts
    {
      assert SlotTied(s.ring, s.log, oldest + i);
      assert SlotTied(s.ring, s.log, oldest + j);
    }
  }

  // ----- The binary search -----

  /** No record at or after k that decodes, or the first such has ts <= its stamp. */
  predicate Late(v: View, ts: nat, k: nat)
    requires k <= |v|
    decreases |v| - k
  {
    k == |v| || (if v[k].Holds? then v[k].rec.ts >= ts else Late(v, ts, k + 1))
  }

  /** The linear scan: the first k from which the ring is Late. */
  function SplitFrom(v: View, ts: nat, k: nat): (m: nat)
    requires k <= |v|
    ensures k <= m <= |v| && Late(v, ts, m)
    ensures forall i :: k <= i < m ==> !Late(v, ts, i)
    decreases |v| - k
  {
    if Late(v, ts, k) then k else SplitFrom(v, ts, k + 1)
  }

  function SplitPoint(v: View, ts: nat): nat {
    SplitFrom(v, ts, 0)
  }

  /** m parts the records that decode: older than ts below, the others from m on. */
  ghost predicate Parts(v: View, ts: nat, m: nat) {
    && m <= |v|
    && (forall i :: 0 <= i < m && v[i].Holds? ==> v[i].rec.ts < ts)
    && (forall i :: m <= i < |v| && v[i].Holds? ==> v[i].rec.ts >= ts)
  }

  lemma {:induction false} LateAbove(v: View, ts: nat, k: nat, i: nat)
    requires Ordered(v) && k <= i < |v| && v[i].Holds? && Late(v, ts, k)
    ensures v[i].rec.ts >= ts
    decreases |v| - k
  {
    if !v[k].Holds? {
      LateAbove(v, ts, k + 1, i);
    }
  }

  lemma {:induction false} EarlyBelow(v: View, ts: nat, k: nat, i: nat)
    requires Ordered(v) && i <= k < |v| && v[i].Holds? && !Late(v, ts, k)
    ensures v[i].rec.ts < ts
    decreases |v| - k
  {
    if !v[k].Holds? {
      EarlyBelow(v, ts, k + 1, i);
    }
  }

  lemma {:induction false} LateStep(v: View, ts: nat, k: nat)
    requires Ordered(v) && k < |v| && Late(v, ts, k)
    ensures Late(v, ts, k + 1)
  {
    if v[k].Holds? && !Late(v, ts, k + 1) {
      EarlyBelow(v, ts, k + 1, k);
    }
  }

  lemma {:induction false} LateFrom(v: View, ts: nat, k: nat)
    requires Ordered(v) && k <= |v| && Late(v, ts, k)
    ensures forall j :: k <= j <= |v| ==> Late(v, ts, j)
    decreases |v| - k
  {
    if k < |v| {
      LateStep(v, ts, k);
      LateFrom(v, ts, k + 1);
    }
  }

  /** The scan's answer parts the ring, and no smaller index does unless a hole precedes it. */
  lemma SplitParts(v: View, ts: nat)
    requires Ordered(v)
    ensures Parts(v, ts, SplitPoint(v, ts))
    ensures var m := SplitPoint(v, ts); m > 0 ==> v[m - 1].Holds?
  {
    var m := SplitPoint(v, ts);
    if m > 0 {
      assert !Late(v, ts, m - 1) && Late(v, ts, m);
    }
    forall i | m <= i < |v| && v[i].Holds?
      ensures v[i].rec.ts >= ts
    {
      LateAbove(v, ts, m, i);
    }
    forall i | 0 <= i < m && v[i].Holds?
      ensures v[i].rec.ts < ts
    {
      EarlyBelow(v, ts, m - 1, i);
    }
  }

  /** RingReader::ts_from: the stamp at k, or at the next record that decodes. */
  method TsFrom(v: View, k: nat) returns (found: bool, t: nat)
    requires k <= |v|
    ensures forall ts :: (!found || t >= ts) <==> Late(v, ts, k)
    ensures found <==> exists i :: k <= i < |v| && v[i].Holds?
    ensures found ==> exists i :: k <= i < |v| && v[i].Holds? && v[i].rec.ts == t
  {
    found, t := false, 0;
    var i := k;
    while i < |v|
      invariant k <= i <= |v|
      invariant forall j :: k <= j < i ==> v[j].Undecodable?
      invariant forall ts :: Late(v, ts, k) <==> Late(v, ts, i)
    {
      if v[i].Holds? {
        return true, v[i].rec.ts;
      }
      i := i + 1;
    }
  }

  /** RingReader::lower_bound: on a ring in time order, holes and all, the linear scan's answer. */
  method LowerBound(v: View, ts: nat) returns (lo: nat)
    ensures lo <= |v|
    ensures Ordered(v) ==> lo == SplitPoint(v, ts) && Parts(v, ts, lo)
  {
    lo := 0;
    var hi := |v|;
    ghost var m := SplitPoint(v, ts);
    if Ordered(v) {
      SplitParts(v, ts);
      LateFrom(v, ts, m);
    }
    while lo < hi
      invariant 0 <= lo <= hi <= |v|
      invariant Ordered(v) ==> lo <= m <= hi
    {
      var mid := lo + (hi - lo) / 2;
      var found, t := TsFrom(v, mid);
      if !found || t >= ts {
        assert Late(v, ts, mid);
        hi := mid;
      } else {
        assert !Late(v, ts, mid);
        lo := mid + 1;
      }
    }
  }

  /** The ring holds a record with lo < ts <= hi. */
  ghost predicate HoldsIn(v: View, lo: nat, hi: nat) {
    exists i :: 0 <= i < |v| && v[i].Holds? && lo < v[i].rec.ts <= hi
  }

  /** RingReader::any_in: one search says what a scan of the ring would. */
  method AnyIn(v: View, lo: nat, hi: nat) returns (b: bool)
    ensures b ==> exists i :: 0 <= i < |v| && v[i].Holds? && v[i].rec.ts <= hi
    ensures Ordered(v) ==> (b <==> HoldsIn(v, lo, hi))
  {
    if |v| == 0 || hi <= lo {
      return false;
    }
    var m := LowerBound(v, lo + 1);
    var found, t := TsFrom(v, m);
    b := found && t <= hi;
    if Ordered(v) && found && t > hi {
      assert Late(v, hi + 1, m);
      forall i | 0 <= i < |v| && v[i].Holds? && lo < v[i].rec.ts
        ensures v[i].rec.ts > hi
      {
        LateAbove(v, hi + 1, m, i);
      }
    }
  }

  // ----- The walk -----

  /** The window's records among v[lo..hi], oldest first, as the caller gets them. */
  function Window(v: View, q: Query, lo: nat, hi: nat): seq<Sample>
    requires lo <= hi <= |v|
    decreases hi - lo
  {
    if lo == hi then []
    else
      (if v[lo].Holds? && InWindow(q, v[lo].rec) then [q.Stamp(v[lo].rec)] else [])
      + Window(v, q, lo + 1, hi)
  }

  function Newest(recs: seq<Sample>, max: nat): seq<Sample> {
    if |recs| <= max then recs else recs[|recs| - max..]
  }

  /** Where a walk down from next gives up: past the live records, or at the 1025th older one in a run. */
  function Cut(v: View, q: Query, next: nat, older: nat): (c: nat)
    requires next <= |v|
    ensures c <= next
  {
    if next == 0 then 0
    else
      var run := OlderRun(q, v[next - 1], older);
      if run > DISORDER_LOOKBACK then next - 1 else Cut(v, q, next - 1, run)
  }

  lemma {:induction false} WindowSplit(v: View, q: Query, lo: nat, mid: nat, hi: nat)
    requires lo <= mid <= hi <= |v|
    ensures Window(v, q, lo, hi) == Window(v, q, lo, mid) + Window(v, q, mid, hi)
    decreases mid - lo
  {
    if lo < mid {
      WindowSplit(v, q, lo + 1, mid, hi);
    }
  }

  lemma {:induction false} WindowEmpty(v: View, q: Query, lo: nat, hi: nat)
    requires lo <= hi <= |v|
    requires forall i :: lo <= i < hi && v[i].Holds? ==> !InWindow(q, v[i].rec)
    ensures Window(v, q, lo, hi) == []
    decreases hi - lo
  {
    if lo < hi {
      WindowEmpty(v, q, lo + 1, hi);
    }
  }

  /** The backward loop of query_ring: on any ring, the newest of the window above the cut. */
  method WalkDown(v: View, q: Query, start: nat) returns (out: seq<Sample>)
    requires start <= |v|
    ensures out == Newest(Window(v, q, Cut(v, q, start, 0), start), q.max)
  {
    ghost var cut := Cut(v, q, start, 0);
    var next, older := start, 0;
    out := [];
    while next > 0 && |out| < q.max
      invariant cut <= next <= start && |out| <= q.max && older <= DISORDER_LOOKBACK
      invariant Cut(v, q, next, older) == cut
      invariant out == Window(v, q, next, start)
    {
      var s := v[next - 1];
      WindowSplit(v, q, next - 1, next, start);
      if s.Holds? {
        if s.rec.ts < q.since {
          older := older + 1;
          if older > DISORDER_LOOKBACK {
            next := next - 1;
            break;
          }
        } else {
          older := 0;
          if !(q.until != 0 && s.rec.ts > q.until) {
            out := [q.Stamp(s.rec)] + out;
          }
        }
      }
      next := next - 1;
    }
    WindowSplit(v, q, cut, next, start);
  }

  /** Where the walk starts: the first record past until, or the newest. */
  method StartOf(v: View, q: Query) returns (start: nat)
    ensures start <= |v| && (!Bounded(q) ==> start == |v|)
    ensures Bounded(q) && Ordered(v) ==> Parts(v, q.until + 1, start)
  {
    start := |v|;
    if Bounded(q) {
      start := LowerBound(v, q.until + 1);
    }
  }

  lemma {:induction false} CutLeavesOlder(v: View, q: Query, next: nat, older: nat)
    requires Ordered(v) && next <= |v| && older <= DISORDER_LOOKBACK
    ensures var c := Cut(v, q, next, older);
            forall i :: 0 <= i < c && v[i].Holds? ==> v[i].rec.ts < q.since
  {
    if next > 0 {
      var run := OlderRun(q, v[next - 1], older);
      if run <= DISORDER_LOOKBACK {
        CutLeavesOlder(v, q, next - 1, run);
      }
    }
  }

  /**
   query_ring. On a ring in time order: exactly the newest max records of the window,
   oldest first, whatever holes it has. With no upper bound, on a ring in any order: the
   newest of the window above the cut.
   */
  method QueryRing(v: View, q: Query) returns (out: seq<Sample>)
    ensures Ordered(v) ==> out == Newest(Window(v, q, 0, |v|), q.max)
    ensures !Bounded(q) && (q.until == 0 || q.since <= q.until) ==>
      out == Newest(Window(v, q, Cut(v, q, |v|, 0), |v|), q.max)
  {
    if q.until != 0 && q.since > q.until {
      WindowEmpty(v, q, 0, |v|);
      return [];
    }
    var start := StartOf(v, q);
    out := WalkDown(v, q, start);
    if Ordered(v) {
      WindowBetween(v, q, start);
    }
  }

  /** On a ring in time order nothing of the window lies below the cut or from the start on. */
  lemma WindowBetween(v: View, q: Query, start: nat)
    requires Ordered(v) && start <= |v|
    requires if Bounded(q) then Parts(v, q.until + 1, start) else start == |v|
    ensures Window(v, q, Cut(v, q, start, 0), start) == Window(v, q, 0, |v|)
  {
    var cut := Cut(v, q, start, 0);
    CutLeavesOlder(v, q, start, 0);
    WindowEmpty(v, q, 0, cut);
    WindowEmpty(v, q, start, |v|);
    WindowSplit(v, q, 0, cut, start);
    WindowSplit(v, q, 0, start, |v|);
  }

  // ----- Rings out of order, no upper bound -----

  /** How many records of v[lo..hi] decode. */
  function Decoded(v: View, lo: nat, hi: nat): nat
    requires lo <= hi <= |v|
    decreases hi - lo
  {
    if lo == hi then 0 else (if v[hi - 1].Holds? then 1 else 0) + Decoded(v, lo, hi - 1)
  }

  ghost predicate AllOlder(v: View, q: Query, lo: nat, hi: nat)
    requires lo <= hi <= |v|
  {
    forall i :: lo <= i < hi && v[i].Holds? ==> v[i].rec.ts < q.since
  }

  /** More than 1024 records in a row, holes aside, all older than the window. */
  ghost predicate LongRun(v: View, q: Query, lo: nat, hi: nat)
    requires lo <= hi <= |v|
  {
    AllOlder(v, q, lo, hi) && Decoded(v, lo, hi) > 1024
  }

  /** The walk stops at or above every long run. */
  lemma {:induction false} CutAtLongRun(v: View, q: Query, next: nat, older: nat, lo: nat, hi: nat)
    requires lo <= hi <= next <= |v| && older <= DISORDER_LOOKBACK
    requires AllOlder(v, q, lo, hi)
    requires Decoded(v, lo, hi) + (if hi == next then older else 0) > DISORDER_LOOKBACK
    ensures Cut(v, q, next, older) >= lo
    decreases next
  {
    var run := OlderRun(q, v[next - 1], older);
    if run <= DISORDER_LOOKBACK {
      CutAtLongRun(v, q, next - 1, run, lo, if hi == next then hi - 1 else hi);
    }
  }

  /** And only there: above a cut lies a long run, part of it already behind the walk. */
  lemma {:induction false} CutIsLongRun(v: View, q: Query, next: nat, older: nat, top: nat) returns (hi: nat)
    requires next <= top <= |v| && older <= DISORDER_LOOKBACK
    requires AllOlder(v, q, next, top) && Decoded(v, next, top) == older
    ensures var c := Cut(v, q, next, older);
            c <= hi <= |v| && (c > 0 ==> LongRun(v, q, c, hi))
    decreases next
  {
    hi := top;
    if next > 0 {
      var run := OlderRun(q, v[next - 1], older);
      DecodedBelow(v, next - 1, top);
      if run <= DISORDER_LOOKBACK {
        if v[next - 1].Holds? && v[next - 1].rec.ts >= q.since {
          hi := CutIsLongRun(v, q, next - 1, run, next - 1);
        } else {
          hi := CutIsLongRun(v, q, next - 1, run, top);
        }
      }
    }
  }

  lemma {:induction false} DecodedBelow(v: View, lo: nat, hi: nat)
    requires lo < hi <= |v|
    ensures Decoded(v, lo, hi) == (if v[lo].Holds? then 1 else 0) + Decoded(v, lo + 1, hi)
    decreases hi - lo
  {
    if lo + 1 < hi {
      DecodedBelow(v, lo, hi - 1);
    }
  }

  lemma {:induction false} WindowHas(v: View, q: Query, lo: nat, hi: nat) returns (i: nat)
    requires lo <= hi <= |v| && Window(v, q, lo, hi) != []
    ensures lo <= i < hi && v[i].Holds? && InWindow(q, v[i].rec)
    decreases hi - lo
  {
    i := lo;
    if !(v[lo].Holds? && InWindow(q, v[lo].rec)) {
      i := WindowHas(v, q, lo + 1, hi);
    }
  }

  /** A long run with a record of the window under it. */
  ghost predicate Buries(v: View, q: Query, lo: nat, hi: nat) {
    lo <= hi <= |v| && LongRun(v, q, lo, hi) && Window(v, q, 0, lo) != []
  }

  /** Nothing in a long run is of the window. */
  lemma AboveRun(v: View, q: Query, c: nat, lo: nat, hi: nat)
    requires lo <= hi <= |v| && LongRun(v, q, lo, hi) && lo <= c <= |v|
    ensures |Window(v, q, c, |v|)| <= |Window(v, q, hi, |v|)|
  {
    if c <= hi {
      WindowEmpty(v, q, c, hi);
      WindowSplit(v, q, c, hi, |v|);
    } else {
      WindowSplit(v, q, hi, c, |v|);
    }
  }

  /**
   With no upper bound the walk returns the newest max of the window, on a ring in any order,
   if and only if above every run of more than 1024 older records that has one of the window
   under it there are max of the window already.
   */
  lemma UnboundedExact(v: View, q: Query)
    ensures Newest(Window(v, q, Cut(v, q, |v|, 0), |v|), q.max) == Newest(Window(v, q, 0, |v|), q.max)
       <==> forall lo: nat, hi: nat :: Buries(v, q, lo, hi) ==> |Window(v, q, hi, |v|)| >= q.max
  {
    var c := Cut(v, q, |v|, 0);
    var top := CutIsLongRun(v, q, |v|, 0, |v|);
    WindowSplit(v, q, 0, c, |v|);
    if Window(v, q, 0, c) == [] || |Window(v, q, c, |v|)| >= q.max {
      forall lo: nat, hi: nat | Buries(v, q, lo, hi)
        ensures |Window(v, q, hi, |v|)| >= q.max
      {
        CutAtLongRun(v, q, |v|, 0, lo, hi);
        WindowSplit(v, q, 0, lo, c);
        AboveRun(v, q, c, lo, hi);
      }
    } else {
      assert Buries(v, q, c, top);
      WindowSplit(v, q, c, top, |v|);
    }
  }

  // ----- A record missed -----

  function Filled(ts: nat): Slot {
    Holds(Sample(ts, L3, false, {}, {}, false, map[]))
  }

  /** One record of the window, then 1025 older ones written after it. */
  function BuriedView(): (v: View)
    ensures |v| == 1026 && v[0] == Filled(10) && forall i :: 1 <= i < 1026 ==> v[i] == Filled(1)
  {
    [Filled(10)] + seq(1025, i => Filled(1))
  }

  lemma {:induction false} AllDecode(v: View, lo: nat, hi: nat)
    requires lo <= hi <= |v| && forall i :: lo <= i < hi ==> v[i].Holds?
    ensures Decoded(v, lo, hi) == hi - lo
    decreases hi - lo
  {
    if lo < hi {
      AllDecode(v, lo, hi - 1);
    }
  }

  /** Asked for since 5, the ring's one record of the window is not returned. */
  lemma BuriedIsMissed()
    ensures var v, q := BuriedView(), RingRuns.Query(5, 0, 1, 0);
      Window(v, q, 0, |v|) != [] && Newest(Window(v, q, Cut(v, q, |v|, 0), |v|), 1) != Newest(Window(v, q, 0, |v|), 1)
  {
    var v, q := BuriedView(), RingRuns.Query(5, 0, 1, 0);
    AllDecode(v, 1, 1026);
    WindowSplit(v, q, 0, 1, 1026);
    WindowEmpty(v, q, 1026, 1026);
    assert Window(v, q, 0, 1) != [];
    assert Buries(v, q, 1, 1026);
    UnboundedExact(v, q);
  }
}
