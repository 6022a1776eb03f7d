/** query_all: every ring's share of a window, folded records left out where covered, thinned by time. */
module QueryAll {
  import opened Common
  import opened Samples
  import opened Rings
  import opened RingRuns
  import opened RingQuery
  import Arith

  // ----- An even spread over one ring -----

  /** The k-th of take indices spread over count from first; a single one is the newest. */
  function Pick(first: nat, count: nat, take: nat, k: nat): nat
    requires 0 < take <= count && k < take
  {
    if take == 1 then first + count - 1
    else
      Arith.QuotientNat(k, count - 1, take - 1);
      first + (k * (count - 1)) / (take - 1)
  }

  lemma PickStep(first: nat, count: nat, take: nat, k: nat)
    requires 0 < take <= count && k + 1 < take
    ensures Pick(first, count, take, k) < Pick(first, count, take, k + 1)
  {
    assert (k + 1) * (count - 1) == k * (count - 1) + (count - 1);
    Arith.DivStep(k * (count - 1), (k + 1) * (count - 1), take - 1);
  }

  lemma PickLast(first: nat, count: nat, take: nat)
    requires 0 < take <= count
    ensures Pick(first, count, take, take - 1) == first + count - 1
    ensures take > 1 ==> Pick(first, count, take, 0) == first
  {
    if take > 1 {
      assert (take - 1) * (count - 1) == (count - 1) * (take - 1);
      Arith.DivExact(count - 1, take - 1);
    }
  }

  lemma PickInside(first: nat, count: nat, take: nat, k: nat)
    requires 0 < take <= count && k < take
    ensures first <= Pick(first, count, take, k) < first + count
  {
    if take > 1 {
      Arith.ShareAtMost(k, count - 1, take - 1);
    }
  }

  lemma PickWhole(first: nat, count: nat, k: nat)
    requires k < count
    ensures Pick(first, count, count, k) == first + k
  {
    if count > 1 {
      Arith.DivExact(k, count - 1);
    }
  }

  /** Both ends are picked, nothing outside them, and every index when all fit. */
  lemma PickEnds(first: nat, count: nat, take: nat, k: nat)
    requires 0 < take <= count && k < take
    ensures first <= Pick(first, count, take, k) < first + count
    ensures take > 1 ==> Pick(first, count, take, 0) == first
    ensures Pick(first, count, take, take - 1) == first + count - 1
    ensures take == count ==> Pick(first, count, take, k) == first + k
  {
    PickInside(first, count, take, k);
    PickLast(first, count, take);
    PickWhole(first, count, k);
  }

  /** The k-th pick lies k of take - 1 equal steps from the first, rounded down. */
  lemma PickIs(first: nat, count: nat, take: nat, k: nat, p: nat)
    requires 1 < take <= count && k < take
    ensures Pick(first, count, take, k) == first + p <==> p * (take - 1) <= k * (count - 1) < (p + 1) * (take - 1)
  {
    Arith.QuotientNat(k, count - 1, take - 1);
    Arith.QuotientIs(k * (count - 1), take - 1, p);
  }

  /** So neighbours are as far apart as the picks are on average, rounded down or up. */
  lemma PickSpacing(first: nat, count: nat, take: nat, k: nat)
    requires 1 < take <= count && k + 1 < take
    ensures var step, d := (count - 1) / (take - 1), Pick(first, count, take, k + 1) - Pick(first, count, take, k);
      d == step || (d == step + 1 && (count - 1) % (take - 1) != 0)
  {
    var m, n := count - 1, take - 1;
    var q, r := m / n, m % n;
    var a, b := (k * r) / n, ((k + 1) * r) / n;
    Arith.QuotientNat(k, m, n);
    Arith.ShareOfSum(k, m, n);
    Arith.ShareOfSum(k + 1, m, n);
    Arith.ShareStep(k, r, n);
    assert (k + 1) * q == k * q + q;
  }

  /** The indices to read, in order. */
  function Picks(first: nat, count: nat, take: nat): (p: seq<nat>)
    requires take <= count
    ensures |p| == take && forall k :: 0 <= k < take ==> p[k] == Pick(first, count, take, k)
  {
    seq(take, k requires 0 <= k < take => Pick(first, count, take, k))
  }

  ghost predicate Spreads(p: seq<nat>, first: nat, end: nat) {
    && (forall k :: 0 <= k < |p| ==> first <= p[k] < end)
    && (forall i, j :: 0 <= i < j < |p| ==> p[i] < p[j])
  }

  lemma {:induction false} PickRises(first: nat, count: nat, take: nat, i: nat, j: nat)
    requires 0 < take <= count && i < j < take
    ensures Pick(first, count, take, i) < Pick(first, count, take, j)
    decreases j
  {
    PickStep(first, count, take, j - 1);
    if i < j - 1 {
      PickRises(first, count, take, i, j - 1);
    }
  }

  lemma PicksSpread(first: nat, count: nat, take: nat)
    requires take <= count
    ensures Spreads(Picks(first, count, take), first, first + count)
  {
    var p := Picks(first, count, take);
    forall k | 0 <= k < take
      ensures first <= p[k] < first + count
    {
      PickInside(first, count, take, k);
    }
    forall i, j | 0 <= i < j < take
      ensures p[i] < p[j]
    {
      PickRises(first, count, take, i, j);
    }
  }

  function One(s: Slot, q: Query): seq<Sample> {
    if s.Holds? && InWindow(q, s.rec) then [q.Stamp(s.rec)] else []
  }

  /** The records at the indices p that decode and are of the window. */
  function Picked(v: View, q: Query, p: seq<nat>): seq<Sample> {
    if p == [] then []
    else (if p[0] < |v| then One(v[p[0]], q) else []) + Picked(v, q, p[1..])
  }

  function WindowEnd(v: View, q: Query): nat {
    if Bounded(q) then SplitPoint(v, q.until + 1) else |v|
  }

  function Least(a: nat, b: nat): nat {
    if a < b then a else b
  }

  /** What query_ring_spread is to return: found by linear scans. */
  function Spread(v: View, q: Query): seq<Sample> {
    var first, end := SplitPoint(v, q.since), WindowEnd(v, q);
    if first >= end then []
    else Picked(v, q, Picks(first, end - first, Least(end - first, q.max)))
  }

  /** After the first k of the picks, out holds what they gave. */
  ghost predicate PickedSo(v: View, q: Query, p: seq<nat>, k: nat, out: seq<Sample>) {
    k <= |p| && out + Picked(v, q, p[k..]) == Picked(v, q, p)
  }

  lemma PickedNext(v: View, q: Query, p: seq<nat>, k: nat, out: seq<Sample>)
    requires k < |p| && p[k] < |v| && PickedSo(v, q, p, k, out)
    ensures PickedSo(v, q, p, k + 1, out + One(v[p[k]], q))
  {
    assert p[k..][1..] == p[k + 1..];
    assert out + (One(v[p[k]], q) + Picked(v, q, p[k + 1..])) == out + One(v[p[k]], q) + Picked(v, q, p[k + 1..]);
  }

  lemma PickedEnds(v: View, q: Query, p: seq<nat>, out: seq<Sample>)
    ensures PickedSo(v, q, p, 0, [])
    ensures PickedSo(v, q, p, |p|, out) ==> out == Picked(v, q, p)
  {
    assert p[0..] == p && p[|p|..] == [];
    assert out + [] == out;
  }

  /** The spread loop; an index is never picked twice, so its guard against that never fires. */
  method ReadPicks(v: View, q: Query, p: seq<nat>) returns (out: seq<Sample>)
    requires Spreads(p, 0, |v|)
    ensures out == Picked(v, q, p)
  {
    out := [];
    var k: nat, prev: int := 0, -1;
    PickedEnds(v, q, p, []);
    while k < |p|
      invariant k <= |p| && PickedSo(v, q, p, k, out)
      invariant prev == if k == 0 then -1 else p[k - 1]
    {
      PickedNext(v, q, p, k, out);
      if p[k] != prev {
        prev := p[k];
        var s := v[p[k]];
        out := out + if s.Holds? && !(s.rec.ts < q.since) && !(q.until != 0 && s.rec.ts > q.until) then [q.Stamp(s.rec)] else [];
      }
      k := k + 1;
    }
    PickedEnds(v, q, p, out);
  }

  /** query_ring_spread. */
  method QuerySpread(v: View, q: Query) returns (out: seq<Sample>)
    ensures Ordered(v) ==> out == Spread(v, q)
  {
    if |v| == 0 {
      return [];
    }
    var first := LowerBound(v, q.since);
    var end := |v|;
    if Bounded(q) {
      end := LowerBound(v, q.until + 1);
    }
    if first >= end {
      return [];
    }
    var count := end - first;
    var take := if count < q.max then count else q.max;
    PicksSpread(first, count, take);
    out := ReadPicks(v, q, Picks(first, count, take));
  }

  lemma {:induction false} PickedAll(v: View, q: Query, first: nat, p: seq<nat>)
    requires first + |p| <= |v| && forall k :: 0 <= k < |p| ==> p[k] == first + k
    ensures Picked(v, q, p) == Window(v, q, first, first + |p|)
    decreases |p|
  {
    if p != [] {
      PickedAll(v, q, first + 1, p[1..]);
    }
  }

  /** The two searches bound the window: nothing of it lies outside. */
  lemma NothingOutside(v: View, q: Query)
    requires Ordered(v)
    ensures var first, end := SplitPoint(v, q.since), WindowEnd(v, q);
            Window(v, q, 0, |v|) == if first < end then Window(v, q, first, end) else []
  {
    var first, end := SplitPoint(v, q.since), WindowEnd(v, q);
    SplitParts(v, q.since);
    if Bounded(q) {
      SplitParts(v, q.until + 1);
    }
    if first < end {
      WindowEmpty(v, q, 0, first);
      WindowEmpty(v, q, end, |v|);
      WindowSplit(v, q, 0, first, end);
      WindowSplit(v, q, 0, end, |v|);
    } else {
      WindowEmpty(v, q, 0, |v|);
    }
  }

  lemma WholePicks(v: View, q: Query, first: nat, count: nat)
    requires first + count <= |v|
    ensures Picked(v, q, Picks(first, count, count)) == Window(v, q, first, first + count)
  {
    var p := Picks(first, count, count);
    forall k | 0 <= k < count
      ensures p[k] == first + k
    {
      PickWhole(first, count, k);
    }
    PickedAll(v, q, first, p);
  }

  lemma SpreadOfAll(v: View, q: Query, first: nat, count: nat)
    requires first == SplitPoint(v, q.since) && first + count == WindowEnd(v, q) && 0 < count <= q.max
    ensures Spread(v, q) == Picked(v, q, Picks(first, count, count))
  {
    assert Least(count, q.max) == count;
  }

  /** A window no larger than max comes back whole. */
  lemma SpreadWhole(v: View, q: Query)
    requires Ordered(v) && WindowEnd(v, q) <= SplitPoint(v, q.since) + q.max
    ensures Spread(v, q) == Window(v, q, 0, |v|)
  {
    var first, end := SplitPoint(v, q.since), WindowEnd(v, q);
    NothingOutside(v, q);
    if first < end {
      SpreadOfAll(v, q, first, end - first);
      WholePicks(v, q, first, end - first);
    }
  }

  /** s is a record of the ring, as far as its stamp goes. */
  ghost predicate StampIn(v: View, s: Sample) {
    exists i :: 0 <= i < |v| && v[i].Holds? && v[i].rec.ts == s.ts
  }

  lemma {:induction false} PickedFromRing(v: View, q: Query, p: seq<nat>)
    ensures forall s :: s in Picked(v, q, p) ==> StampIn(v, s) && InWindow(q, s)
  {
    if p != [] {
      PickedFromRing(v, q, p[1..]);
    }
  }

  lemma SpreadFromRing(v: View, q: Query)
    ensures forall s :: s in Spread(v, q) ==> StampIn(v, s) && InWindow(q, s)
  {
    var first, end := SplitPoint(v, q.since), WindowEnd(v, q);
    if first < end {
      PickedFromRing(v, q, Picks(first, end - first, Least(end - first, q.max)));
    }
  }

  // ----- Folded records that finer rings still cover -----

  function WindowLow(ts: nat, window: nat): nat {
    if ts > window then ts - window else 0
  }

  /** One of the rings still holds a record of the window up to the record's stamp. */
  ghost predicate Covered(s: Sample, window: nat, rings: seq<View>) {
    exists k :: 0 <= k < |rings| && HoldsIn(rings[k], WindowLow(s.ts, window), s.ts)
  }

  /** The records that stay: a scan of every ring for each folded one. */
  ghost function Uncovered(recs: seq<Sample>, window: nat, rings: seq<View>): seq<Sample> {
    if window == 0 || recs == [] then recs
    else
      (if recs[0].folded && Covered(recs[0], window, rings) then [] else [recs[0]])
      + Uncovered(recs[1..], window, rings)
  }

  ghost predicate AllOrdered(rings: seq<View>) {
    forall k :: 0 <= k < |rings| ==> Ordered(rings[k])
  }

  /** What was read into memory came from the rings. */
  ghost predicate SeenIn(seen: seq<Sample>, rings: seq<View>) {
    forall s :: s in seen ==> exists k :: 0 <= k < |rings| && StampIn(rings[k], s)
  }

  ghost predicate Sorted(recs: seq<Sample>) {
    forall i, j :: 0 <= i < j < |recs| ==> recs[i].ts <= recs[j].ts
  }

  function Insert(s: Sample, recs: seq<Sample>): seq<Sample> {
    if recs == [] || s.ts <= recs[0].ts then [s] + recs
    else [recs[0]] + Insert(s, recs[1..])
  }

  /** std::sort by time stamp. */
  function SortByTs(recs: seq<Sample>): seq<Sample> {
    if recs == [] then [] else Insert(recs[0], SortByTs(recs[1..]))
  }

  lemma {:induction false} InsertKeeps(s: Sample, recs: seq<Sample>)
    ensures multiset(Insert(s, recs)) == multiset([s]) + multiset(recs)
  {
    if recs != [] && s.ts > recs[0].ts {
      InsertKeeps(s, recs[1..]);
      assert recs == [recs[0]] + recs[1..];
    }
  }

  lemma {:induction false} InsertSorted(s: Sample, recs: seq<Sample>)
    requires Sorted(recs)
    ensures Sorted(Insert(s, recs))
    ensures Insert(s, recs) != [] && Insert(s, recs)[0].ts == if recs == [] then s.ts else Least(s.ts, recs[0].ts)
  {
    if recs != [] && s.ts > recs[0].ts {
      InsertSorted(s, recs[1..]);
      var rest := Insert(s, recs[1..]);
      forall j | 0 <= j < |rest|
        ensures recs[0].ts <= rest[j].ts
      {
        assert rest[0].ts <= rest[j].ts;
      }
    }
  }

  lemma {:induction false} SortSorts(recs: seq<Sample>)
    ensures Sorted(SortByTs(recs)) && multiset(SortByTs(recs)) == multiset(recs)
  {
    if recs != [] {
      SortSorts(recs[1..]);
      InsertSorted(recs[0], SortByTs(recs[1..]));
      InsertKeeps(recs[0], SortByTs(recs[1..]));
      assert recs == [recs[0]] + recs[1..];
    }
  }

  lemma SortSeen(seen: seq<Sample>, rings: seq<View>)
    requires SeenIn(seen, rings)
    ensures SeenIn(SortByTs(seen), rings)
  {
    SortSorts(seen);
    forall s | s in SortByTs(seen)
      ensures s in seen
    {
      assert s in multiset(SortByTs(seen));
    }
  }

  /** std::upper_bound by time stamp. */
  method UpperBound(recs: seq<Sample>, ts: nat) returns (lo: nat)
    requires Sorted(recs)
    ensures lo <= |recs|
    ensures forall i :: 0 <= i < lo ==> recs[i].ts <= ts
    ensures forall i :: lo <= i < |recs| ==> recs[i].ts > ts
  {
    lo := 0;
    var hi := |recs|;
    while lo < hi
      invariant 0 <= lo <= hi <= |recs|
      invariant forall i :: 0 <= i < lo ==> recs[i].ts <= ts
      invariant forall i :: hi <= i < |recs| ==> recs[i].ts > ts
    {
      var mid := lo + (hi - lo) / 2;
      if recs[mid].ts > ts {
        hi := mid;
      } else {
        lo := mid + 1;
      }
    }
  }

  /** The memory shortcut, then a search of each ring: the answer of a scan. */
  method IsCovered(s: Sample, window: nat, seen: seq<Sample>, rings: seq<View>) returns (b: bool)
    requires Sorted(seen)
    ensures AllOrdered(rings) && SeenIn(seen, rings) ==> (b <==> Covered(s, window, rings))
  {
    ghost var quiet := AllOrdered(rings) && SeenIn(seen, rings);
    var hi, lo := s.ts, if s.ts > window then s.ts - window else 0;
    var at := UpperBound(seen, lo);
    if at < |seen| && seen[at].ts <= hi {
      assert seen[at] in seen;
      if quiet {
        ghost var k :| 0 <= k < |rings| && StampIn(rings[k], seen[at]);
        assert HoldsIn(rings[k], lo, hi);
      }
      return true;
    }
    var k := 0;
    while k < |rings|
      invariant 0 <= k <= |rings|
      invariant quiet ==> forall j :: 0 <= j < k ==> !HoldsIn(rings[j], lo, hi)
    {
      var any := AnyIn(rings[k], lo, hi);
      if any {
        return true;
      }
      k := k + 1;
    }
    return false;
  }

  lemma {:induction false} UncoveredAppend(a: seq<Sample>, s: Sample, window: nat, rings: seq<View>)
    requires window > 0
    ensures Uncovered(a + [s], window, rings)
         == Uncovered(a, window, rings) + Uncovered([s], window, rings)
  {
    if a == [] {
      assert a + [s] == [s];
    } else {
      assert (a + [s])[1..] == a[1..] + [s];
      UncoveredAppend(a[1..], s, window, rings);
    }
  }

  lemma UncoveredNext(recs: seq<Sample>, i: nat, window: nat, rings: seq<View>)
    requires window > 0 && i < |recs|
    ensures Uncovered(recs[..i + 1], window, rings)
         == Uncovered(recs[..i], window, rings) + if recs[i].folded && Covered(recs[i], window, rings) then [] else [recs[i]]
  {
    assert recs[..i + 1] == recs[..i] + [recs[i]];
    UncoveredAppend(recs[..i], recs[i], window, rings);
    assert Uncovered([], window, rings) == [];
  }

  /** drop_covered: a folded record goes exactly when a finer ring still holds a record of its window. */
  method DropCovered(recs: seq<Sample>, window: nat, seen: seq<Sample>, rings: seq<View>)
    returns (kept: seq<Sample>)
    ensures AllOrdered(rings) && SeenIn(seen, rings) ==> kept == Uncovered(recs, window, rings)
  {
    if window == 0 {
      return recs;
    }
    var sorted := SortByTs(seen);
    SortSorts(seen);
    ghost var quiet := AllOrdered(rings) && SeenIn(seen, rings);
    if quiet {
      SortSeen(seen, rings);
    }
    kept := [];
    var i := 0;
    while i < |recs|
      invariant 0 <= i <= |recs|
      invariant quiet ==> kept == Uncovered(recs[..i], window, rings)
    {
      var s := recs[i];
      var gone := false;
      if s.folded {
        gone := IsCovered(s, window, sorted, rings);
      }
      UncoveredNext(recs, i, window, rings);
      if !gone {
        kept := kept + [s];
      }
      i := i + 1;
    }
    assert recs[..i] == recs;
  }

  // ----- Thinning by time -----

  /** Which of max equal slices of the records' span the i-th falls in. */
  function Slice(m: seq<Sample>, max: nat, i: nat): int
    requires i < |m| && m[0].ts <= m[|m| - 1].ts
  {
    ((m[i].ts - m[0].ts) * max) / (m[|m| - 1].ts - m[0].ts + 1)
  }

  function Slices(m: seq<Sample>, max: nat): (sl: seq<int>)
    requires m != [] ==> m[0].ts <= m[|m| - 1].ts
    ensures |sl| == |m| && forall i :: 0 <= i < |m| ==> sl[i] == Slice(m, max, i)
  {
    seq(|m|, i requires 0 <= i < |m| => Slice(m, max, i))
  }

  /** Slices never step back and stay below max. */
  ghost predicate Rising(sl: seq<int>, max: nat) {
    && (forall i :: 0 <= i < |sl| ==> 0 <= sl[i] < max)
    && (forall i, j :: 0 <= i < j < |sl| ==> sl[i] <= sl[j])
  }

  lemma SlicesRise(m: seq<Sample>, max: nat)
    requires Sorted(m) && m != [] && max > 0
    ensures Rising(Slices(m, max), max)
  {
    var span := m[|m| - 1].ts - m[0].ts + 1;
    forall i | 0 <= i < |m|
      ensures 0 <= Slice(m, max, i) < max
    {
      Arith.DivBelow(m[i].ts - m[0].ts, max, span);
      Arith.DivMonotone(0, (m[i].ts - m[0].ts) * max, span);
    }
    forall i, j | 0 <= i < j < |m|
      ensures Slice(m, max, i) <= Slice(m, max, j)
    {
      Arith.MulMonotone(m[i].ts - m[0].ts, m[j].ts - m[0].ts, max);
      Arith.DivMonotone((m[i].ts - m[0].ts) * max, (m[j].ts - m[0].ts) * max, span);
    }
  }

  /** Index i is the last of its slice among the first n. */
  predicate EndsSlice(sl: seq<int>, n: nat, i: nat)
    requires i < n <= |sl|
  {
    i == n - 1 || sl[i] != sl[i + 1]
  }

  /** picks lists, in order, exactly the ends of the slices among the first n. */
  ghost predicate PicksEnds(sl: seq<int>, n: nat, picks: seq<nat>)
    requires n <= |sl|
  {
    && |picks| <= n
    && (forall j :: 0 <= j < |picks| ==> picks[j] < n)
    && (forall i, j :: 0 <= i < j < |picks| ==> picks[i] < picks[j])
    && (forall i: nat :: i < n ==> (i in picks <==> EndsSlice(sl, n, i)))
  }

  /** The records at the picks. */
  ghost predicate AtPicks(m: seq<Sample>, picks: seq<nat>, out: seq<Sample>) {
    |out| == |picks| && forall j :: 0 <= j < |out| ==> picks[j] < |m| && out[j] == m[picks[j]]
  }

  /** The thinning loop of query_all; max is a size_t, so the sentinel is no slice. */
  method Thin(m: seq<Sample>, max: nat) returns (out: seq<Sample>, ghost picks: seq<nat>)
    requires Sorted(m) && m != [] && 0 < max < U64
    ensures 0 < |out| <= max && out[|out| - 1] == m[|m| - 1]
    ensures PicksEnds(Slices(m, max), |m|, picks) && AtPicks(m, picks, out)
  {
    ghost var sl := Slices(m, max);
    SlicesRise(m, max);
    out, picks := [], [];
    var last := U64 - 1;
    var i := 0;
    while i < |m|
      invariant 0 <= i <= |m|
      invariant if i == 0 then last == U64 - 1 else last == sl[i - 1]
      invariant PicksEnds(sl, i, picks) && AtPicks(m, picks, out)
    {
      var slice := Slice(m, max, i);
      PickOneMore(sl, i, picks);
      AtOneMore(m, sl, i, picks, out);
      picks := NextPicks(sl, i, picks);
      if slice == last {
        out := out[..|out| - 1] + [m[i]];
      } else {
        out := out + [m[i]];
        last := slice;
      }
      i := i + 1;
    }
    ThinKeepsNewest(sl, max, picks);
  }

  /** The last pick is the newest record so far: the next replaces it in its slice, or joins it. */
  ghost function NextPicks(sl: seq<int>, n: nat, picks: seq<nat>): seq<nat>
    requires n < |sl|
  {
    if n > 0 && picks != [] && sl[n] == sl[n - 1] then picks[..|picks| - 1] + [n] else picks + [n]
  }

  lemma LastPick(sl: seq<int>, n: nat, picks: seq<nat>)
    requires 0 < n <= |sl| && PicksEnds(sl, n, picks)
    ensures picks != [] && picks[|picks| - 1] == n - 1
  {
    assert EndsSlice(sl, n, n - 1);
    assert n - 1 in picks;
  }

  lemma InPicks(picks: seq<nat>, n: nat, i: nat)
    requires picks != [] && picks[|picks| - 1] == n
    ensures i in picks <==> i in picks[..|picks| - 1] || i == n
  {
    assert picks == picks[..|picks| - 1] + [n];
  }

  /** Record n in the slice of the one before it: it takes its place. */
  lemma SameSlice(sl: seq<int>, n: nat, picks: seq<nat>)
    requires 0 < n < |sl| && PicksEnds(sl, n, picks) && sl[n] == sl[n - 1]
    ensures picks != [] && PicksEnds(sl, n + 1, picks[..|picks| - 1] + [n])
  {
    LastPick(sl, n, picks);
    var next := picks[..|picks| - 1] + [n];
    forall i: nat | i < n + 1
      ensures i in next <==> EndsSlice(sl, n + 1, i)
    {
      InPicks(picks, n - 1, i);
      InPicks(next, n, i);
      if i < n {
        assert i in picks <==> EndsSlice(sl, n, i);
      }
    }
  }

  /** Record n in a slice of its own: one pick more. */
  lemma NewSlice(sl: seq<int>, n: nat, picks: seq<nat>)
    requires n < |sl| && PicksEnds(sl, n, picks) && (n > 0 ==> sl[n] != sl[n - 1])
    ensures PicksEnds(sl, n + 1, picks + [n])
  {
    forall i: nat | i < n + 1
      ensures i in picks + [n] <==> EndsSlice(sl, n + 1, i)
    {
      if i < n {
        assert i in picks <==> EndsSlice(sl, n, i);
      }
    }
  }

  lemma PickOneMore(sl: seq<int>, n: nat, picks: seq<nat>)
    requires n < |sl| && PicksEnds(sl, n, picks)
    ensures PicksEnds(sl, n + 1, NextPicks(sl, n, picks)) && (n > 0 ==> picks != [])
  {
    if n > 0 {
      LastPick(sl, n, picks);
    }
    if n > 0 && sl[n] == sl[n - 1] {
      SameSlice(sl, n, picks);
    } else {
      NewSlice(sl, n, picks);
    }
  }

  lemma AtOneMore(m: seq<Sample>, sl: seq<int>, n: nat, picks: seq<nat>, out: seq<Sample>)
    requires n < |sl| == |m| && AtPicks(m, picks, out) && (n > 0 ==> picks != [])
    ensures n > 0 && sl[n] == sl[n - 1] ==> AtPicks(m, NextPicks(sl, n, picks), out[..|out| - 1] + [m[n]])
    ensures !(n > 0 && sl[n] == sl[n - 1]) ==> AtPicks(m, NextPicks(sl, n, picks), out + [m[n]])
  {
  }

  lemma PicksRise(sl: seq<int>, max: nat, picks: seq<nat>)
    requires Rising(sl, max) && PicksEnds(sl, |sl|, picks)
    ensures forall i, j :: 0 <= i < j < |picks| ==> sl[picks[i]] < sl[picks[j]]
  {
    forall i, j | 0 <= i < j < |picks|
      ensures sl[picks[i]] < sl[picks[j]]
    {
      var a, b := picks[i], picks[j];
      assert a in picks && EndsSlice(sl, |sl|, a);
      assert sl[a] <= sl[a + 1];
      if a + 1 < b {
        assert sl[a + 1] <= sl[b];
      }
    }
  }

  /** Each slice that has records is represented, by a record no older than any of them. */
  lemma EverySlicePicked(sl: seq<int>, picks: seq<nat>, i: nat)
    requires i < |sl| && PicksEnds(sl, |sl|, picks)
    ensures exists j :: 0 <= j < |picks| && i <= picks[j] && sl[picks[j]] == sl[i]
  {
    var e := SliceEnd(sl, i);
    assert e in picks;
  }

  /** One record per slice; so at most max, and the newest of all is there. */
  lemma ThinKeepsNewest(sl: seq<int>, max: nat, picks: seq<nat>)
    requires sl != [] && Rising(sl, max) && PicksEnds(sl, |sl|, picks)
    ensures |picks| <= max && picks != [] && picks[|picks| - 1] == |sl| - 1
    ensures forall i, j :: 0 <= i < j < |picks| ==> sl[picks[i]] < sl[picks[j]]
  {
    LastPick(sl, |sl|, picks);
    PicksRise(sl, max, picks);
    PicksFit(sl, max, picks, |picks|);
  }

  lemma {:induction false} SliceEnd(sl: seq<int>, i: nat) returns (e: nat)
    requires i < |sl|
    ensures i <= e < |sl| && sl[e] == sl[i] && EndsSlice(sl, |sl|, e)
    decreases |sl| - i
  {
    e := i;
    if !EndsSlice(sl, |sl|, i) {
      e := SliceEnd(sl, i + 1);
    }
  }

  /** Slices grow along the picks and stay below max. */
  lemma {:induction false} PicksFit(sl: seq<int>, max: nat, picks: seq<nat>, n: nat)
    requires Rising(sl, max) && n <= |picks|
    requires forall j :: 0 <= j < |picks| ==> picks[j] < |sl|
    requires forall i, j :: 0 <= i < j < |picks| ==> sl[picks[i]] < sl[picks[j]]
    ensures n <= max && (n > 0 ==> sl[picks[n - 1]] >= n - 1)
  {
    if n > 0 {
      PicksFit(sl, max, picks, n - 1);
      assert 0 <= sl[picks[n - 1]] < max;
      if n > 1 {
        assert sl[picks[n - 2]] < sl[picks[n - 1]];
      }
    }
  }

  // ----- What the slices are -----

  /** Record i falls in the j-th of max equal parts of the time from the first record to the last. */
  predicate InPart(m: seq<Sample>, max: nat, j: nat, i: nat)
    requires i < |m|
  {
    var span := m[|m| - 1].ts - m[0].ts + 1;
    j * span <= (m[i].ts - m[0].ts) * max < (j + 1) * span
  }

  /** No later record falls in the same part. */
  ghost predicate NewestOfPart(m: seq<Sample>, max: nat, i: nat)
    requires i < |m|
  {
    exists j: nat :: j < max && InPart(m, max, j, i) && forall k :: i < k < |m| ==> !InPart(m, max, j, k)
  }

  /** The picks are, in order, the newest record of each part that has any, and no others. */
  ghost predicate OnePerSlice(m: seq<Sample>, max: nat, picks: seq<nat>) {
    && (forall i, j :: 0 <= i < j < |picks| ==> picks[i] < picks[j])
    && (forall k :: 0 <= k < |picks| ==> picks[k] < |m|)
    && (forall i: nat :: i < |m| ==> (i in picks <==> NewestOfPart(m, max, i)))
  }

  lemma SliceIsPart(m: seq<Sample>, max: nat, j: nat, i: nat)
    requires Sorted(m) && i < |m|
    ensures Slice(m, max, i) == j <==> InPart(m, max, j, i)
  {
    assert m[0].ts <= m[i].ts <= m[|m| - 1].ts;
    Arith.QuotientNat(m[i].ts - m[0].ts, max, 1);
    Arith.QuotientIs((m[i].ts - m[0].ts) * max, m[|m| - 1].ts - m[0].ts + 1, j);
  }

  lemma EndsIsNewest(m: seq<Sample>, max: nat, i: nat)
    requires Sorted(m) && i < |m| && max > 0
    ensures EndsSlice(Slices(m, max), |m|, i) <==> NewestOfPart(m, max, i)
  {
    var sl := Slices(m, max);
    SlicesRise(m, max);
    assert sl[i] == Slice(m, max, i);
    SliceIsPart(m, max, sl[i], i);
    if EndsSlice(sl, |m|, i) {
      forall k | i < k < |m|
        ensures !InPart(m, max, sl[i], k)
      {
        assert sl[i + 1] <= sl[k] && sl[k] == Slice(m, max, k);
        SliceIsPart(m, max, sl[i], k);
      }
    } else {
      assert sl[i + 1] == Slice(m, max, i + 1);
      SliceIsPart(m, max, sl[i], i + 1);
      forall j: nat | j < max && InPart(m, max, j, i)
        ensures InPart(m, max, j, i + 1)
      {
        SliceIsPart(m, max, j, i);
      }
    }
  }

  /** What thinning keeps: of every part of the time that has records, the newest. */
  lemma PicksAreNewest(m: seq<Sample>, max: nat, picks: seq<nat>)
    requires Sorted(m) && m != [] && max > 0 && PicksEnds(Slices(m, max), |m|, picks)
    ensures OnePerSlice(m, max, picks)
  {
    forall i: nat | i < |m|
      ensures i in picks <==> NewestOfPart(m, max, i)
    {
      EndsIsNewest(m, max, i);
    }
  }

  // ----- The whole query -----

  /** A custom level's ring with the level's current id. */
  datatype Custom = Custom(view: View, id: nat)

  datatype Tiers = Tiers(tier1: View, customs: seq<Custom>, tier2: View, tier3: View, foldL2: nat, foldL1: nat)
  {
    /** The rings finer than L2, and than L1. */
    function Finer2(): seq<View> {
      [tier1] + seq(|customs|, k requires 0 <= k < |customs| => customs[k].view)
    }

    function Finer1(): seq<View> {
      Finer2() + [tier2]
    }

    ghost predicate Quiet() {
      AllOrdered(Finer1()) && Ordered(tier3)
    }
  }

  function CustomShares(cs: seq<Custom>, q: Query): seq<Sample> {
    if cs == [] then []
    else CustomShares(cs[..|cs| - 1], q) + Spread(cs[|cs| - 1].view, q.(relevel := cs[|cs| - 1].id))
  }

  /** The share of L3 and the custom levels. */
  function Fine(t: Tiers, q: Query): seq<Sample> {
    Spread(t.tier1, q) + CustomShares(t.customs, q)
  }

  /** Everything collected in the window, each folded record only where it stands in for finer ones. */
  ghost function Collected(t: Tiers, q: Query): seq<Sample> {
    Fine(t, q) + Uncovered(Spread(t.tier2, q), t.foldL2, t.Finer2())
    + Uncovered(Spread(t.tier3, q), t.foldL1, t.Finer1())
  }

  lemma {:induction false} CustomSharesSeen(cs: seq<Custom>, q: Query)
    ensures forall s :: s in CustomShares(cs, q) ==> exists k :: 0 <= k < |cs| && StampIn(cs[k].view, s)
  {
    if cs != [] {
      CustomSharesSeen(cs[..|cs| - 1], q);
      SpreadFromRing(cs[|cs| - 1].view, q.(relevel := cs[|cs| - 1].id));
    }
  }

  lemma FineSeen(t: Tiers, q: Query)
    ensures SeenIn(Fine(t, q), t.Finer2()) && SeenIn(Fine(t, q) + Spread(t.tier2, q), t.Finer1())
  {
    SpreadFromRing(t.tier1, q);
    SpreadFromRing(t.tier2, q);
    CustomSharesSeen(t.customs, q);
    var f2, f1 := t.Finer2(), t.Finer1();
    forall s | s in Fine(t, q)
      ensures exists k :: 0 <= k < |f2| && StampIn(f2[k], s)
    {
      if s in Spread(t.tier1, q) {
        assert StampIn(f2[0], s);
      } else {
        var k :| 0 <= k < |t.customs| && StampIn(t.customs[k].view, s);
        assert StampIn(f2[k + 1], s);
      }
    }
    forall s | s in Fine(t, q) + Spread(t.tier2, q)
      ensures exists k :: 0 <= k < |f1| && StampIn(f1[k], s)
    {
      if s in Fine(t, q) {
        var k :| 0 <= k < |f2| && StampIn(f2[k], s);
        assert StampIn(f1[k], s);
      } else {
        assert StampIn(f1[|f2|], s);
      }
    }
  }

  /** The shares of the custom rings in turn, each under its level's current id. */
  method ReadCustoms(cs: seq<Custom>, q: Query) returns (out: seq<Sample>)
    ensures (forall k :: 0 <= k < |cs| ==> Ordered(cs[k].view)) ==> out == CustomShares(cs, q)
  {
    ghost var quiet := forall k :: 0 <= k < |cs| ==> Ordered(cs[k].view);
    out := [];
    var c := 0;
    while c < |cs|
      invariant 0 <= c <= |cs|
      invariant quiet ==> out == CustomShares(cs[..c], q)
    {
      var share := QuerySpread(cs[c].view, q.(relevel := cs[c].id));
      assert cs[..c + 1][..c] == cs[..c];
      out := out + share;
      c := c + 1;
    }
    assert cs[..c] == cs;
  }

  /** Every share read, and the covered folded records dropped: L1's first, while L2's are all there. */
  method Collect(t: Tiers, q: Query) returns (recs: seq<Sample>)
    ensures t.Quiet() ==> recs == Collected(t, q)
  {
    var f2 := t.Finer2();
    assert forall k :: 0 <= k < |f2| ==> f2[k] == t.Finer1()[k];
    assert t.tier2 == t.Finer1()[|f2|];
    assert t.tier1 == f2[0];
    var fine := QuerySpread(t.tier1, q);
    assert forall k :: 0 <= k < |t.customs| ==> t.customs[k].view == t.Finer1()[k + 1];
    var customs := ReadCustoms(t.customs, q);
    fine := fine + customs;
    var l2 := QuerySpread(t.tier2, q);
    var l1 := QuerySpread(t.tier3, q);
    FineSeen(t, q);
    l1 := DropCovered(l1, t.foldL1, fine + l2, t.Finer1());
    l2 := DropCovered(l2, t.foldL2, fine, f2);
    recs := fine + l2 + l1;
  }

  /** m is recs in time order; out is m, or one record for each slice of it. */
  ghost predicate IsThinned(recs: seq<Sample>, max: nat, out: seq<Sample>, m: seq<Sample>, picks: seq<nat>) {
    && Sorted(m) && multiset(m) == multiset(recs)
    && if |m| <= max then out == m else OnePerSlice(m, max, picks) && AtPicks(m, picks, out)
  }

  /** query_all; on rings at rest the collected records in time order, thinned when they exceed max. */
  method Query(t: Tiers, since: nat, until: nat, max: nat) returns (rc: int, out: seq<Sample>)
    requires max < U64
    ensures max == 0 ==> rc == -1 && out == []
    ensures max > 0 ==> rc == |out| <= max
    ensures max > 0 && t.Quiet() ==> exists m, picks ::
      IsThinned(Collected(t, RingRuns.Query(since, until, max, 0)), max, out, m, picks)
  {
    if max == 0 {
      return -1, [];
    }
    var recs := Collect(t, RingRuns.Query(since, until, max, 0));
    var m := SortByTs(recs);
    SortSorts(recs);
    ghost var picks := [];
    if |m| > max {
      out, picks := Thin(m, max);
      PicksAreNewest(m, max, picks);
    } else {
      out := m;
    }
    rc := |out|;
    assert IsThinned(recs, max, out, m, picks);
  }
}
