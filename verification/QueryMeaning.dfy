/**
 What queries return, said of the slots themselves: which records are asked for, which of them
 come back, where and under which level.
 */
module QueryMeaning {
  import opened Common
  import opened Samples
  import opened Rings
  import opened RingRuns
  import opened RingQuery
  import opened QueryAll

  // ----- One ring -----

  /** Slot i holds a record of the time asked for; until 0 asks for no end. */
  predicate Asked(v: View, q: Query, i: nat) {
    i < |v| && v[i].Holds? && v[i].rec.ts >= q.since && (v[i].rec.ts <= q.until || q.until == 0)
  }

  /** x is slot p's record as it is, but under the level relevel names, if any. */
  predicate IsRead(v: View, relevel: nat, p: nat, x: Sample) {
    && p < |v| && v[p].Holds? && x.(level := 0) == v[p].rec.(level := 0)
    && x.level == if relevel == 0 then v[p].rec.level else relevel
  }

  ghost predicate ReadFrom(v: View, relevel: nat, ps: seq<nat>, out: seq<Sample>) {
    |out| == |ps| && forall k :: 0 <= k < |ps| ==> IsRead(v, relevel, ps[k], out[k])
  }

  ghost predicate Rises(ps: seq<nat>) {
    forall i, j :: 0 <= i < j < |ps| ==> ps[i] < ps[j]
  }

  ghost predicate AllAbove(ps: seq<nat>, lo: nat) {
    forall k :: 0 <= k < |ps| ==> lo < ps[k]
  }

  lemma OneMore(v: View, q: Query, p: nat, ps: seq<nat>, out: seq<Sample>)
    requires Rises(ps) && AllAbove(ps, p) && ReadFrom(v, q.relevel, ps, out) && Asked(v, q, p)
    ensures Rises([p] + ps) && ReadFrom(v, q.relevel, [p] + ps, [q.Stamp(v[p].rec)] + out)
  {
    var x := q.Stamp(v[p].rec);
    assert IsRead(v, q.relevel, p, x);
    forall k | 0 <= k < |[p] + ps|
      ensures IsRead(v, q.relevel, ([p] + ps)[k], ([x] + out)[k])
    {
      if k > 0 {
        assert IsRead(v, q.relevel, ps[k - 1], out[k - 1]);
      }
    }
  }

  /** ps is all there is to return from lo to hi. */
  ghost predicate AllAsked(v: View, q: Query, lo: nat, hi: nat, ps: seq<nat>) {
    Rises(ps) && forall i: nat :: i in ps <==> lo <= i < hi && Asked(v, q, i)
  }

  lemma {:induction false} WindowIs(v: View, q: Query, lo: nat, hi: nat) returns (ps: seq<nat>)
    requires lo <= hi <= |v|
    ensures AllAsked(v, q, lo, hi, ps) && ReadFrom(v, q.relevel, ps, Window(v, q, lo, hi))
    decreases hi - lo
  {
    ps := [];
    if lo < hi {
      ps := WindowIs(v, q, lo + 1, hi);
      var rest := Window(v, q, lo + 1, hi);
      WindowFrom(v, q, lo, hi);
      if Asked(v, q, lo) {
        AskedAbove(v, q, lo, hi, ps);
        OneMore(v, q, lo, ps, rest);
        ps := [lo] + ps;
      } else {
        assert [] + rest == rest;
      }
    }
  }

  lemma AskedAbove(v: View, q: Query, lo: nat, hi: nat, ps: seq<nat>)
    requires AllAsked(v, q, lo + 1, hi, ps)
    ensures AllAbove(ps, lo)
  {
    forall k | 0 <= k < |ps|
      ensures lo < ps[k]
    {
      assert ps[k] in ps;
    }
  }

  lemma WindowFrom(v: View, q: Query, lo: nat, hi: nat)
    requires lo < hi <= |v|
    ensures Window(v, q, lo, hi) == (if Asked(v, q, lo) then [q.Stamp(v[lo].rec)] else []) + Window(v, q, lo + 1, hi)
  {
  }

  /** ps is the newest max of what is asked for from lo to hi. */
  ghost predicate NewestAsked(v: View, q: Query, lo: nat, hi: nat, ps: seq<nat>) {
    && Rises(ps) && |ps| <= q.max
    && (forall k :: 0 <= k < |ps| ==> lo <= ps[k] < hi && Asked(v, q, ps[k]))
    && (forall i: nat :: lo <= i < hi && Asked(v, q, i) && i !in ps ==> |ps| == q.max && forall k :: 0 <= k < |ps| ==> i < ps[k])
  }

  lemma TailIs(ps: seq<nat>, d: nat, top: seq<nat>)
    requires d <= |ps| && top == ps[d..]
    ensures |top| == |ps| - d && (forall k :: 0 <= k < |top| ==> top[k] == ps[d + k])
    ensures forall j :: d <= j < |ps| ==> ps[j] in top
  {
    forall j | d <= j < |ps|
      ensures ps[j] in top
    {
      assert top[j - d] == ps[j];
    }
  }

  lemma LeftIsBelow(ps: seq<nat>, d: nat, top: seq<nat>, i: nat)
    requires Rises(ps) && d <= |ps| && top == ps[d..] && i in ps && i !in top
    ensures forall k :: 0 <= k < |top| ==> i < top[k]
  {
    TailIs(ps, d, top);
    var j :| 0 <= j < |ps| && ps[j] == i;
    assert j < d;
  }

  lemma NewestOfAll(v: View, q: Query, lo: nat, hi: nat, ps: seq<nat>, top: seq<nat>)
    requires AllAsked(v, q, lo, hi, ps) && q.max < |ps| && top == ps[|ps| - q.max..]
    ensures NewestAsked(v, q, lo, hi, top)
  {
    var d := |ps| - q.max;
    TailIs(ps, d, top);
    forall k | 0 <= k < |top|
      ensures lo <= top[k] < hi && Asked(v, q, top[k])
    {
      assert ps[d + k] in ps;
    }
    forall i: nat | lo <= i < hi && Asked(v, q, i) && i !in top
      ensures forall k :: 0 <= k < |top| ==> i < top[k]
    {
      LeftIsBelow(ps, d, top, i);
    }
  }

  lemma ReadTail(v: View, relevel: nat, ps: seq<nat>, out: seq<Sample>, d: nat)
    requires ReadFrom(v, relevel, ps, out) && d <= |ps|
    ensures ReadFrom(v, relevel, ps[d..], out[d..])
  {
    forall k | 0 <= k < |ps| - d
      ensures IsRead(v, relevel, ps[d..][k], out[d..][k])
    {
      assert IsRead(v, relevel, ps[d + k], out[d + k]);
    }
  }

  lemma AllIsNewest(v: View, q: Query, lo: nat, hi: nat, ps: seq<nat>)
    requires AllAsked(v, q, lo, hi, ps) && |ps| <= q.max
    ensures NewestAsked(v, q, lo, hi, ps)
  {
    forall k | 0 <= k < |ps|
      ensures lo <= ps[k] < hi && Asked(v, q, ps[k])
    {
      assert ps[k] in ps;
    }
  }

  /** What query_ring returns of the slots it looks at: the newest max asked for, oldest first. */
  lemma AnswerIs(v: View, q: Query, lo: nat, hi: nat) returns (ps: seq<nat>)
    requires lo <= hi <= |v|
    ensures NewestAsked(v, q, lo, hi, ps) && ReadFrom(v, q.relevel, ps, Newest(Window(v, q, lo, hi), q.max))
  {
    ps := WindowIs(v, q, lo, hi);
    var d := |ps| - q.max;
    if d > 0 {
      NewestOfAll(v, q, lo, hi, ps, ps[d..]);
      ReadTail(v, q.relevel, ps, Window(v, q, lo, hi), d);
      ps := ps[d..];
    } else {
      AllIsNewest(v, q, lo, hi, ps);
    }
  }

  // ----- A ring's share -----

  /** p is where the k-th of take even steps over the slots from first to end falls, rounded down; one alone is the last. */
  predicate IsStep(first: nat, end: nat, take: nat, k: nat, p: nat) {
    first <= p < end &&
    if take == 1 then p == end - 1
    else (p - first) * (take - 1) <= k * (end - first - 1) < (p - first + 1) * (take - 1)
  }

  /** Of the steps, the slots asked for. */
  ghost predicate StepsAsked(v: View, q: Query, first: nat, end: nat, take: nat, ps: seq<nat>) {
    Rises(ps) && forall i: nat :: i in ps <==> Asked(v, q, i) && exists k: nat :: k < take && IsStep(first, end, take, k, i)
  }

  /** The slots a window's records lie in, the first one and past the last. */
  ghost predicate Bounds(v: View, q: Query, first: nat, end: nat) {
    && Parts(v, q.since, first) && (first > 0 ==> v[first - 1].Holds?)
    && if q.until == 0 || q.until == U64 - 1 then end == |v| else Parts(v, q.until + 1, end) && (end > 0 ==> v[end - 1].Holds?)
  }

  lemma StepIsPick(first: nat, count: nat, take: nat, k: nat, i: nat)
    requires 0 < take <= count && k < take
    ensures i == Pick(first, count, take, k) <==> IsStep(first, first + count, take, k, i)
  {
    PickInside(first, count, take, k);
    if take > 1 && i >= first {
      PickIs(first, count, take, k, i - first);
    }
  }

  /** Of the slots p, those asked for. */
  ghost predicate AskedOf(v: View, q: Query, p: seq<nat>, ps: seq<nat>) {
    Rises(ps) && forall i: nat :: i in ps <==> i in p && Asked(v, q, i)
  }

  lemma AskedOfAbove(v: View, q: Query, p: seq<nat>, ps: seq<nat>)
    requires p != [] && Rises(p) && AskedOf(v, q, p[1..], ps)
    ensures AllAbove(ps, p[0])
  {
    forall k | 0 <= k < |ps|
      ensures p[0] < ps[k]
    {
      assert ps[k] in ps && ps[k] in p[1..];
    }
  }

  lemma InTail(p: seq<nat>, i: nat)
    requires p != []
    ensures i in p <==> i == p[0] || i in p[1..]
  {
  }

  lemma AskedOfOneMore(v: View, q: Query, p: seq<nat>, ps: seq<nat>)
    requires p != [] && Rises(p) && AskedOf(v, q, p[1..], ps)
    ensures AskedOf(v, q, p, if Asked(v, q, p[0]) then [p[0]] + ps else ps)
  {
    AskedOfAbove(v, q, p, ps);
    var more := if Asked(v, q, p[0]) then [p[0]] + ps else ps;
    forall i: nat
      ensures i in more <==> i in p && Asked(v, q, i)
    {
      InTail(p, i);
    }
  }

  lemma {:induction false} PickedIs(v: View, q: Query, p: seq<nat>) returns (ps: seq<nat>)
    requires Rises(p)
    ensures AskedOf(v, q, p, ps) && ReadFrom(v, q.relevel, ps, Picked(v, q, p))
    decreases |p|
  {
    ps := [];
    if p != [] {
      ps := PickedIs(v, q, p[1..]);
      var rest := Picked(v, q, p[1..]);
      AskedOfAbove(v, q, p, ps);
      AskedOfOneMore(v, q, p, ps);
      if Asked(v, q, p[0]) {
        OneMore(v, q, p[0], ps, rest);
        ps := [p[0]] + ps;
      } else {
        assert [] + rest == rest;
      }
    }
  }

  lemma PicksAreSteps(first: nat, end: nat, take: nat, i: nat)
    requires first < end && take <= end - first
    ensures i in Picks(first, end - first, take) <==> exists k: nat :: k < take && IsStep(first, end, take, k, i)
  {
    var p := Picks(first, end - first, take);
    if i in p {
      var k: nat :| k < |p| && p[k] == i;
      StepIsPick(first, end - first, take, k, i);
    }
    if k: nat :| k < take && IsStep(first, end, take, k, i) {
      StepIsPick(first, end - first, take, k, i);
      assert p[k] == i;
    }
  }

  /** How many of the slots from first to end to take. */
  function Taking(q: Query, first: nat, end: nat): nat {
    if end <= first then 0 else if q.max <= end - first then q.max else end - first
  }

  /** What a ring in time order gives to query_all: of its window's slots at most max, evenly spread, those asked for. */
  lemma SpreadIs(v: View, q: Query) returns (first: nat, end: nat, ps: seq<nat>)
    requires Ordered(v)
    ensures Bounds(v, q, first, end) && StepsAsked(v, q, first, end, Taking(q, first, end), ps)
    ensures ReadFrom(v, q.relevel, ps, Spread(v, q))
  {
    first, end, ps := SplitPoint(v, q.since), WindowEnd(v, q), [];
    SplitParts(v, q.since);
    SplitParts(v, q.until + 1);
    if first < end {
      ps := SpreadSteps(v, q, first, end, Taking(q, first, end));
      assert Least(end - first, q.max) == Taking(q, first, end);
    }
  }

  lemma SpreadSteps(v: View, q: Query, first: nat, end: nat, take: nat) returns (ps: seq<nat>)
    requires first < end && take <= end - first
    ensures StepsAsked(v, q, first, end, take, ps)
    ensures ReadFrom(v, q.relevel, ps, Picked(v, q, Picks(first, end - first, take)))
  {
    PicksSpread(first, end - first, take);
    ps := PickedIs(v, q, Picks(first, end - first, take));
    forall i: nat
      ensures i in ps <==> Asked(v, q, i) && exists k: nat :: k < take && IsStep(first, end, take, k, i)
    {
      PicksAreSteps(first, end, take, i);
    }
  }

  // ----- The rings together -----

  /** A slot of the ring holds a record stamped within the window that ends at ts. */
  ghost predicate HasOf(v: View, ts: nat, window: nat) {
    exists i: nat :: i < |v| && v[i].Holds? && 0 < v[i].rec.ts <= ts < v[i].rec.ts + window
  }

  /** The rings that hold what level 2 is folded from (coarse 2), or level 1 (coarse 1). */
  ghost predicate FinerHas(t: Tiers, coarse: nat, ts: nat, window: nat) {
    || HasOf(t.tier1, ts, window)
    || (exists k: nat :: k < |t.customs| && HasOf(t.customs[k].view, ts, window))
    || (coarse == 1 && HasOf(t.tier2, ts, window))
  }

  lemma HasIs(v: View, ts: nat, window: nat)
    requires window > 0
    ensures HoldsIn(v, WindowLow(ts, window), ts) <==> HasOf(v, ts, window)
  {
    var lo := WindowLow(ts, window);
    if HoldsIn(v, lo, ts) {
      var i: nat :| i < |v| && v[i].Holds? && lo < v[i].rec.ts <= ts;
      assert 0 < v[i].rec.ts <= ts < v[i].rec.ts + window;
    }
    if HasOf(v, ts, window) {
      var i: nat :| i < |v| && v[i].Holds? && 0 < v[i].rec.ts <= ts < v[i].rec.ts + window;
      assert lo < v[i].rec.ts <= ts;
    }
  }

  lemma Covered2(t: Tiers, s: Sample, window: nat)
    requires window > 0
    ensures Covered(s, window, t.Finer2()) <==> FinerHas(t, 2, s.ts, window)
  {
    var f := t.Finer2();
    assert |f| == |t.customs| + 1 && f[0] == t.tier1 && forall k: nat :: k < |t.customs| ==> t.customs[k].view == f[k + 1];
    forall k | 0 <= k < |f|
      ensures HoldsIn(f[k], WindowLow(s.ts, window), s.ts) <==> HasOf(f[k], s.ts, window)
    {
      HasIs(f[k], s.ts, window);
    }
    if Covered(s, window, f) {
      var k :| 0 <= k < |f| && HoldsIn(f[k], WindowLow(s.ts, window), s.ts);
      if k > 0 {
        assert f[k] == t.customs[k - 1].view;
      }
    }
  }

  lemma Covered1(t: Tiers, s: Sample, window: nat)
    requires window > 0
    ensures Covered(s, window, t.Finer1()) <==> FinerHas(t, 1, s.ts, window)
  {
    var f2, f1 := t.Finer2(), t.Finer1();
    Covered2(t, s, window);
    HasIs(t.tier2, s.ts, window);
    assert forall k :: 0 <= k < |f2| ==> f1[k] == f2[k];
    assert f1[|f2|] == t.tier2 && |f1| == |f2| + 1;
    if Covered(s, window, f1) {
      var k :| 0 <= k < |f1| && HoldsIn(f1[k], WindowLow(s.ts, window), s.ts);
      if k < |f2| {
        assert HoldsIn(f2[k], WindowLow(s.ts, window), s.ts);
      }
    }
    if Covered(s, window, f2) {
      var k :| 0 <= k < |f2| && HoldsIn(f2[k], WindowLow(s.ts, window), s.ts);
      assert HoldsIn(f1[k], WindowLow(s.ts, window), s.ts);
    }
  }

  /** A record goes if it is folded and a finer ring still has one of its window. */
  ghost predicate Goes(t: Tiers, coarse: nat, window: nat, s: Sample) {
    window > 0 && s.folded && FinerHas(t, coarse, s.ts, window)
  }

  /** kept is the records at ps, all that do not go. */
  ghost predicate Stays(t: Tiers, coarse: nat, window: nat, recs: seq<Sample>, ps: seq<nat>, kept: seq<Sample>) {
    && Rises(ps) && |kept| == |ps|
    && (forall k :: 0 <= k < |ps| ==> ps[k] < |recs| && kept[k] == recs[ps[k]])
    && (forall i: nat :: i < |recs| ==> (i in ps <==> !Goes(t, coarse, window, recs[i])))
  }

  function FinerThan(t: Tiers, coarse: nat): seq<View> {
    if coarse == 1 then t.Finer1() else t.Finer2()
  }

  lemma CoveredIs(t: Tiers, coarse: nat, window: nat, s: Sample)
    requires window > 0 && (coarse == 1 || coarse == 2)
    ensures Covered(s, window, FinerThan(t, coarse)) <==> FinerHas(t, coarse, s.ts, window)
  {
    if coarse == 1 {
      Covered1(t, s, window);
    } else {
      Covered2(t, s, window);
    }
  }

  lemma {:induction false} UncoveredIs(t: Tiers, coarse: nat, window: nat, recs: seq<Sample>) returns (ps: seq<nat>)
    requires coarse == 1 || coarse == 2
    ensures Stays(t, coarse, window, recs, ps, Uncovered(recs, window, FinerThan(t, coarse)))
    decreases |recs|
  {
    var f := FinerThan(t, coarse);
    if window == 0 {
      ps := seq(|recs|, i => i);
      assert forall i: nat :: i < |recs| ==> ps[i] == i;
    } else if recs == [] {
      ps := [];
    } else {
      var n := |recs| - 1;
      ps := UncoveredIs(t, coarse, window, recs[..n]);
      CoveredIs(t, coarse, window, recs[n]);
      UncoveredNext(recs, n, window, f);
      assert recs[..n + 1] == recs;
      StaysOneMore(t, coarse, window, recs, ps, Uncovered(recs[..n], window, f));
      if Goes(t, coarse, window, recs[n]) {
        assert Uncovered(recs[..n], window, f) + [] == Uncovered(recs[..n], window, f);
      } else {
        ps := ps + [n];
      }
    }
  }

  lemma StaysOneMore(t: Tiers, coarse: nat, window: nat, recs: seq<Sample>, ps: seq<nat>, kept: seq<Sample>)
    requires recs != [] && Stays(t, coarse, window, recs[..|recs| - 1], ps, kept)
    ensures var n := |recs| - 1;
      if Goes(t, coarse, window, recs[n]) then Stays(t, coarse, window, recs, ps, kept)
      else Stays(t, coarse, window, recs, ps + [n], kept + [recs[n]])
  {
    var n := |recs| - 1;
    assert forall i: nat :: i < n ==> recs[..n][i] == recs[i];
    assert forall k :: 0 <= k < |ps| ==> ps[k] < n;
    assert forall i: nat :: i < n ==> (i in ps + [n] <==> i in ps);
  }

  /** The k-th custom ring's share, under its level's id, lies from a to b. */
  ghost predicate ShareAt(c: Custom, q: Query, shares: seq<Sample>, a: nat, b: nat) {
    a <= b <= |shares| && shares[a..b] == Spread(c.view, Query(q.since, q.until, q.max, c.id))
  }

  /** shares is, one after the other, what each custom ring gives. */
  ghost predicate InTurn(cs: seq<Custom>, q: Query, cuts: seq<nat>, shares: seq<Sample>) {
    && |cuts| == |cs| + 1 && cuts[0] == 0 && cuts[|cs|] == |shares|
    && forall k, m :: 0 <= k < |cs| && m == k + 1 ==> ShareAt(cs[k], q, shares, cuts[k], cuts[m])
  }

  lemma ShareKept(c: Custom, q: Query, shares: seq<Sample>, a: nat, b: nat, more: seq<Sample>)
    requires ShareAt(c, q, shares, a, b)
    ensures ShareAt(c, q, shares + more, a, b)
  {
    assert (shares + more)[a..b] == shares[a..b];
  }

  lemma InTurnOneMore(cs: seq<Custom>, q: Query, cuts: seq<nat>, shares: seq<Sample>, more: seq<Sample>)
    requires cs != [] && InTurn(cs[..|cs| - 1], q, cuts, shares)
    requires more == Spread(cs[|cs| - 1].view, Query(q.since, q.until, q.max, cs[|cs| - 1].id))
    ensures InTurn(cs, q, cuts + [|shares| + |more|], shares + more)
  {
    var n, next := |cs| - 1, cuts + [|shares| + |more|];
    forall k, m | 0 <= k < |cs| && m == k + 1
      ensures ShareAt(cs[k], q, shares + more, next[k], next[m])
    {
      if k < n {
        assert cs[..n][k] == cs[k];
        ShareKept(cs[k], q, shares, cuts[k], cuts[m], more);
      } else {
        assert (shares + more)[|shares|..|shares| + |more|] == more;
      }
    }
  }

  lemma {:induction false} CustomSharesAre(cs: seq<Custom>, q: Query) returns (cuts: seq<nat>)
    ensures InTurn(cs, q, cuts, CustomShares(cs, q))
    decreases |cs|
  {
    if cs == [] {
      cuts := [0];
    } else {
      var n := |cs| - 1;
      cuts := CustomSharesAre(cs[..n], q);
      var shares, more := CustomShares(cs[..n], q), Spread(cs[n].view, q.(relevel := cs[n].id));
      InTurnOneMore(cs, q, cuts, shares, more);
      cuts := cuts + [|shares| + |more|];
    }
  }

  /** The parts a query of every ring collects. */
  datatype Shares = Shares(fine: seq<Sample>, customs: seq<Sample>, l2: seq<Sample>, l1: seq<Sample>)

  /**
   Before they are sorted and thinned: level 3's share, each custom level's under its own id,
   and of the shares of levels 2 and 1 what no finer ring has the window of any more.
   */
  lemma CollectedIs(t: Tiers, q: Query) returns (got: Shares, cuts: seq<nat>, ps2: seq<nat>, ps1: seq<nat>)
    ensures Collected(t, q) == got.fine + got.customs + got.l2 + got.l1
    ensures got.fine == Spread(t.tier1, q) && InTurn(t.customs, q, cuts, got.customs)
    ensures Stays(t, 2, t.foldL2, Spread(t.tier2, q), ps2, got.l2) && Stays(t, 1, t.foldL1, Spread(t.tier3, q), ps1, got.l1)
  {
    ps2 := UncoveredIs(t, 2, t.foldL2, Spread(t.tier2, q));
    ps1 := UncoveredIs(t, 1, t.foldL1, Spread(t.tier3, q));
    cuts := CustomSharesAre(t.customs, q);
    got := Shares(Spread(t.tier1, q), CustomShares(t.customs, q),
      Uncovered(Spread(t.tier2, q), t.foldL2, t.Finer2()), Uncovered(Spread(t.tier3, q), t.foldL1, t.Finer1()));
  }
}
