/** Recovery of the records a crash left written but not indexed (count_unindexed). */
module RingChecks {
  import opened Rings
  import Arith

  /** The record at a logical index, when it decodes and belongs in this ring. */
  predicate Reads(r: Ring, logical: nat) {
    r.Cap() > 0 && r.Slot(logical).Holds? && LevelFits(r.tier, r.Slot(logical).rec.level)
  }

  /** The stamp of the newest indexed record that reads, looking back from the k-th newest; 0 if none. */
  function NewestTs(r: Ring, k: nat): nat
    requires k <= r.Live()
    decreases r.Live() - k
  {
    if k == r.Live() then 0
    else if Reads(r, r.widx - 1 - k) then r.Slot(r.widx - 1 - k).rec.ts
    else NewestTs(r, k + 1)
  }

  /** Slot widx + n goes on a run whose last stamp is prev. */
  predicate Continues(r: Ring, n: nat, prev: nat, now: nat) {
    Reads(r, r.widx + n) && prev < r.Slot(r.widx + n).rec.ts <= now
  }

  function RunFrom(r: Ring, n: nat, prev: nat, now: nat): (m: nat)
    requires n <= r.Cap()
    ensures n <= m <= r.Cap()
    decreases r.Cap() - n
  {
    if n < r.Cap() && Continues(r, n, prev, now)
    then RunFrom(r, n + 1, r.Slot(r.widx + n).rec.ts, now)
    else n
  }

  /** How many records follow the write index in time order, not stamped after now. */
  function Unindexed(r: Ring, now: nat): nat {
    RunFrom(r, 0, NewestTs(r, 0), now)
  }

  /** The stamp just before slot widx + n in the run. */
  function PrevTs(r: Ring, n: nat): nat {
    if n == 0 then NewestTs(r, 0)
    else if r.Cap() > 0 && r.Slot(r.widx + n - 1).Holds? then r.Slot(r.widx + n - 1).rec.ts
    else 0
  }

  /** n is the length of the longest run: each record in it goes on it, the next one does not. */
  ghost predicate IsLongestRun(r: Ring, n: nat, now: nat) {
    && n <= r.Cap()
    && (forall i: nat :: i < n ==> Continues(r, i, PrevTs(r, i), now))
    && (n < r.Cap() ==> !Continues(r, n, PrevTs(r, n), now))
  }

  lemma {:induction false} RunFromIsLongest(r: Ring, n: nat, now: nat)
    requires n <= r.Cap()
    requires forall i: nat :: i < n ==> Continues(r, i, PrevTs(r, i), now)
    ensures IsLongestRun(r, RunFrom(r, n, PrevTs(r, n), now), now)
    decreases r.Cap() - n
  {
    if n < r.Cap() && Continues(r, n, PrevTs(r, n), now) {
      assert PrevTs(r, n + 1) == r.Slot(r.widx + n).rec.ts;
      RunFromIsLongest(r, n + 1, now);
    }
  }

  lemma UnindexedIsLongest(r: Ring, n: nat, now: nat)
    ensures n == Unindexed(r, now) <==> IsLongestRun(r, n, now)
  {
    RunFromIsLongest(r, 0, now);
    if IsLongestRun(r, n, now) {
    }
  }

  /** count_unindexed: a look back for the newest stamp, then a walk forward. */
  method CountUnindexed(ring: RingFile, now: nat) returns (n: nat)
    ensures IsLongestRun(ring.State(), n, now)
  {
    ghost var r := ring.State();
    var cap, widx := ring.slots.Length, ring.widx;
    n := 0;
    UnindexedIsLongest(r, Unindexed(r, now), now);
    if cap == 0 {
      return;
    }
    var indexed := if widx < cap then widx else cap;
    var prev, k := 0, 0;
    while k < indexed
      invariant 0 <= k <= indexed && prev == 0
      invariant NewestTs(r, k) == NewestTs(r, 0)
    {
      var s := ring.slots[(widx - 1 - k) % cap];
      if s.Holds? && LevelFits(ring.tier, s.rec.level) {
        prev := s.rec.ts;
        break;
      }
      k := k + 1;
    }
    while n < cap
      invariant n <= cap
      invariant RunFrom(r, n, prev, now) == Unindexed(r, now)
    {
      var s := ring.slots[(widx + n) % cap];
      if !(s.Holds? && LevelFits(ring.tier, s.rec.level)) || s.rec.ts <= prev || s.rec.ts > now {
        break;
      }
      prev := s.rec.ts;
      n := n + 1;
    }
  }

  /** TierManager::recover: count the records past the index in. */
  method Recover(ring: RingFile, now: nat) returns (n: nat)
    modifies ring`header, ring`widx, ring`begun
    ensures IsLongestRun(old(ring.State()), n, now)
    ensures ring.State() == if n > 0 then Reindexed(old(ring.State()), n) else old(ring.State())
  {
    n := CountUnindexed(ring, now);
    if n > 0 {
      ring.AdvanceWriteIndex(n);
    }
  }

  /** What a new process finds: the disk's slots and header, nothing under way. */
  function Reopened(r: Ring): Ring {
    r.(widx := r.header, begun := r.header, phase := Idle)
  }

  function Recovered(r: Ring, now: nat): Ring {
    Reindexed(Reopened(r), Unindexed(Reopened(r), now))
  }

  /** Whatever the ring holds, a second recovery at the same instant finds nothing more. */
  lemma RecoverTwice(r: Ring, now: nat)
    ensures Unindexed(Reindexed(r, Unindexed(r, now)), now) == 0
  {
    var n := Unindexed(r, now);
    UnindexedIsLongest(r, n, now);
    if r.Cap() > 0 {
      NewestAfterRun(r, n, now);
      RunStops(r, n, now);
    }
  }

  lemma NewestAfterRun(r: Ring, n: nat, now: nat)
    requires r.Cap() > 0 && IsLongestRun(r, n, now)
    ensures NewestTs(Reindexed(r, n), 0) == PrevTs(r, n)
  {
    if n > 0 {
      assert Continues(r, n - 1, PrevTs(r, n - 1), now);
      assert Reads(Reindexed(r, n), r.widx + n - 1);
    } else {
      NewestTsFrame(r, Reindexed(r, 0), 0);
    }
  }

  lemma {:induction false} NewestTsFrame(r: Ring, q: Ring, k: nat)
    requires q.tier == r.tier && q.slots == r.slots && q.widx == r.widx && k <= r.Live()
    ensures NewestTs(q, k) == NewestTs(r, k)
    decreases r.Live() - k
  {
    if k < r.Live() {
      NewestTsFrame(r, q, k + 1);
    }
  }

  lemma RunStops(r: Ring, n: nat, now: nat)
    requires r.Cap() > 0 && IsLongestRun(r, n, now)
    ensures !Continues(r, n, PrevTs(r, n), now)
  {
    if n == r.Cap() {
      Arith.ModShift(r.widx, r.Cap());
      RunGrows(r, n, now, n - 1);
    }
  }

  /** Along a run the stamps grow. */
  lemma {:induction false} RunGrows(r: Ring, n: nat, now: nat, i: nat)
    requires IsLongestRun(r, n, now) && i < n
    ensures Reads(r, r.widx) && Reads(r, r.widx + i)
    ensures r.Slot(r.widx).rec.ts <= r.Slot(r.widx + i).rec.ts
  {
    assert Continues(r, 0, PrevTs(r, 0), now);
    if i > 0 {
      RunGrows(r, n, now, i - 1);
      assert Continues(r, i, PrevTs(r, i), now);
    }
  }
}
