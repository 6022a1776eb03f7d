/** convert_ring: an older ring rewritten at this version's record size and capacity. */
module RingConvert {
  import opened Samples
  import opened Rings
  import opened RingChecks
  import opened RingRuns
  import Arith

  /** The records of logical indices lo .. hi that decode, in write order. */
  function Decodable(r: Ring, lo: nat, hi: nat): seq<Sample>
    requires r.Cap() > 0 && lo <= hi
    decreases hi - lo
  {
    if lo == hi then []
    else (if r.Slot(lo).Holds? then [r.Slot(lo).rec] else []) + Decodable(r, lo + 1, hi)
  }

  /** One past the newest record, the unindexed ones counted in. */
  function End(r: Ring, now: nat): nat {
    r.widx + Unindexed(r, now)
  }

  /** The newest records of both rings' capacities: what conversion has to keep. */
  function KeptFrom(r: Ring, capacity: nat, now: nat): nat {
    var lo := Floor(r.Cap(), End(r, now));
    if End(r, now) - lo > capacity then End(r, now) - capacity else lo
  }

  /** A fresh ring after appending recs, none of them lapped. */
  ghost predicate Spells(r: Ring, recs: seq<Sample>) {
    && r.header == r.widx == r.begun == |recs| <= r.Cap() && r.phase.Idle?
    && forall j :: 0 <= j < r.Cap() ==> r.slots[j] == if j < |recs| then Holds(recs[j]) else Undecodable
  }

  lemma {:induction false} DecodableSplit(r: Ring, lo: nat, mid: nat, hi: nat)
    requires r.Cap() > 0 && lo <= mid <= hi
    ensures Decodable(r, lo, hi) == Decodable(r, lo, mid) + Decodable(r, mid, hi)
    ensures |Decodable(r, lo, mid)| <= mid - lo
    decreases mid - lo
  {
    if lo < mid {
      DecodableSplit(r, lo + 1, mid, hi);
    }
  }

  lemma AppendSpells(r: Ring, recs: seq<Sample>, rec: Sample)
    requires Spells(r, recs) && |recs| < r.Cap()
    ensures Spells(Appended(r, rec, Whole), recs + [rec])
  {
    Arith.ModSmall(|recs|, r.Cap());
  }

  /** The indices conversion reads fall in different slots: none is read twice. */
  lemma ReadsNoSlotTwice(r: Ring, capacity: nat, now: nat, a: nat, b: nat)
    requires r.Cap() > 0 && KeptFrom(r, capacity, now) <= a < b < End(r, now)
    ensures a % r.Cap() != b % r.Cap()
  {
    Arith.ModDistinct(a, b, r.Cap());
  }

  /** The first index to copy, and how many older survivors are skipped for want of room. */
  method CopyWindow(cap: nat, widx: nat, unidx: nat, capacity: nat) returns (lo: nat, skip: nat)
    requires cap > 0 && unidx <= cap
    ensures lo == Floor(cap, widx + unidx) + skip <= widx + unidx
    ensures skip == if widx + unidx - (lo - skip) > capacity then widx + unidx - (lo - skip) - capacity else 0
  {
    var count := if widx < cap then widx else cap;
    var first := widx - count;
    if count + unidx > cap {
      first := first + (count + unidx - cap);
      count := cap - unidx;
    }
    var total := count + unidx;
    skip := if total > capacity then total - capacity else 0;
    lo := first + skip;
  }

  /** The copy loop; room is how many records the new file has space for. */
  method CopyRecords(src: RingFile, out: RingFile, lo: nat, hi: nat, room: nat)
    returns (ok: bool, kept: nat, dropped: nat)
    requires src != out && src.slots != out.slots && src.slots.Length > 0
    requires lo <= hi <= lo + out.slots.Length && Spells(out.State(), [])
    modifies out, out.slots
    ensures kept == out.widx <= hi - lo
    ensures ok ==> kept + dropped == hi - lo && Spells(out.State(), Decodable(src.State(), lo, hi))
    ensures !ok ==> room <= kept < hi - lo
  {
    ghost var r := src.State();
    kept, dropped, ok := 0, 0, true;
    var logical := lo;
    while logical < hi
      invariant lo <= logical <= hi && ok && src.State() == r
      invariant Spells(out.State(), Decodable(r, lo, logical))
      invariant kept == out.widx && kept + dropped == logical - lo
    {
      DecodableSplit(r, lo, logical, logical + 1);
      var s := src.slots[logical % src.slots.Length];
      if s.Undecodable? {
        dropped := dropped + 1;
      } else {
        ghost var before := out.State();
        var rc := out.Append(s.rec, if kept < room then Whole else Nothing);
        if rc != 0 {
          ok := false;
          return;
        }
        AppendSpells(before, Decodable(r, lo, logical), s.rec);
        kept := kept + 1;
      }
      logical := logical + 1;
    }
  }

  /**
   On success the output holds, in order and none lapped, the decodable ones among the
   newest records that fit, the unindexed included; every survivor is kept or dropped.
   */
  method ConvertRing(src: RingFile, tier: nat, capacity: nat, now: nat, room: nat)
    returns (out: RingFile, ok: bool, kept: nat, dropped: nat)
    requires src.slots.Length > 0 && capacity > 0
    ensures fresh(out) && out.slots.Length == capacity && out.tier == tier && kept == out.widx
    ensures var r := src.State();
            ok ==> Spells(out.State(), Decodable(r, KeptFrom(r, capacity, now), End(r, now)))
                   && kept + dropped == End(r, now) - Floor(r.Cap(), End(r, now))
    ensures !ok ==> room < capacity
  {
    ghost var r := src.State();
    out := new RingFile.Open(tier, seq(capacity, _ => Undecodable), 0);
    var unidx := CountUnindexed(src, now);
    UnindexedIsLongest(r, unidx, now);
    var lo, skip := CopyWindow(src.slots.Length, src.widx, unidx, capacity);
    ok, kept, dropped := CopyRecords(src, out, lo, src.widx + unidx, room);
    assert src.State() == r;
    dropped := dropped + skip;
  }

  /** The disk read from lo up is the log from lo up, but for a torn oldest record. */
  lemma {:induction false} DiskSpellsTheLog(s: System, lo: nat)
    requires Sound(s) && Floor(s.ring.Cap(), |s.log|) <= lo <= |s.log|
    requires |s.log| < lo + s.ring.Cap()
    ensures Decodable(Reopened(s.ring), lo, |s.log|) == s.log[lo..]
    decreases |s.log| - lo
  {
    if lo < |s.log| {
      DiskSpellsTheLog(s, lo + 1);
      assert s.ring.Slot(lo) == Holds(s.log[lo]);
      assert s.log[lo..] == [s.log[lo]] + s.log[lo + 1..];
    }
  }

  /** The log from lo up, without the oldest live record where a failed write tore it. */
  ghost function FromDisk(s: System, lo: nat): seq<Sample>
    requires s.ring.Cap() > 0 && lo <= |s.log|
  {
    if lo + s.ring.Cap() == |s.log| && s.ring.Slot(lo).Undecodable? then s.log[lo + 1..] else s.log[lo..]
  }

  lemma OldestFromDisk(s: System, lo: nat)
    requires Sound(s) && |s.log| == lo + s.ring.Cap()
    ensures Decodable(Reopened(s.ring), lo, |s.log|) == FromDisk(s, lo)
  {
    assert SlotTied(s.ring, s.log, lo);
    DiskSpellsTheLog(s, lo + 1);
    assert s.log[lo..] == [s.log[lo]] + s.log[lo + 1..];
  }

  /**
   After a crash at any step of append, a start that converts first loses nothing a
   recovery would have kept: it copies the log's newest records.
   */
  lemma ConvertSeesTheLog(s: System, now: nat, capacity: nat)
    requires Sound(s) && Promised(s, Crash(now)) && !LosesIndex(s.ring)
    ensures End(Reopened(s.ring), now) == |s.log|
    ensures var lo := KeptFrom(Reopened(s.ring), capacity, now);
            lo <= |s.log| && Decodable(Reopened(s.ring), lo, |s.log|) == FromDisk(s, lo)
  {
    assert End(Reopened(s.ring), now) == |s.log| by {
      RecoveryCountsEveryWrite(s, now);
    }
    var lo := KeptFrom(Reopened(s.ring), capacity, now);
    if lo + s.ring.Cap() == |s.log| {
      OldestFromDisk(s, lo);
    } else {
      DiskSpellsTheLog(s, lo);
    }
  }
}
