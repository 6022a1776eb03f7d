/**
 Which ring a level's samples go to, as TierManager opens its rings and picks one (ring_for),
 and that each ring's own check of a level accepts those and no others.
 */
module RingLevels {
  import opened Common
  import opened Samples
  import opened Rings
  import opened RingChecks
  import opened RingRuns

  /** TierManager's rings: three of its own, one for each custom level. */
  datatype Name = Tier1 | Tier2 | Tier3 | Custom(level: nat)

  /** The tier byte each is opened with. */
  function TierByte(n: Name): nat {
    match n
    case Tier1 => 1
    case Tier2 => 2
    case Tier3 => 3
    case Custom(_) => 128
  }

  /** Levels a configuration may define. */
  predicate AreCustom(customs: set<nat>) {
    forall l :: l in customs ==> 4 <= l <= 19
  }

  /** ring_for: level 3 is sampled most often, level 1 kept longest. */
  function RingFor(level: nat, customs: set<nat>): Option<Name> {
    match level
    case 3 => Some(Tier1)
    case 2 => Some(Tier2)
    case 1 => Some(Tier3)
    case _ => if level in customs then Some(Custom(level)) else None
  }

  /** A ring of that tier may be the one the level's samples go to. */
  ghost predicate GoesTo(level: nat, tier: nat) {
    exists customs: set<nat> :: AreCustom(customs) && RingFor(level, customs).Some? && TierByte(RingFor(level, customs).value) == tier
  }

  /** A ring takes a level's records for its own exactly when store puts that level there. */
  lemma FitsIff(tier: nat, level: nat)
    ensures LevelFits(tier, level) <==> GoesTo(level, tier)
  {
    if LevelFits(tier, level) {
      var customs := if level >= 4 then {level} else {};
      assert AreCustom(customs) && RingFor(level, customs).Some?;
      assert TierByte(RingFor(level, customs).value) == tier;
    }
  }

  /** The log of one of the rings: records store puts there, stamps rising from 1 on. */
  ghost predicate LogOf(n: Name, customs: set<nat>, log: seq<Sample>) {
    && (forall i :: 0 <= i < |log| ==> 1 <= log[i].ts && RingFor(log[i].level, customs) == Some(n))
    && (forall i, j :: 0 <= i < j < |log| ==> log[i].ts < log[j].ts)
  }

  lemma LogIsStamped(n: Name, customs: set<nat>, log: seq<Sample>)
    requires AreCustom(customs) && LogOf(n, customs, log)
    ensures Stamped(TierByte(n), log)
  {
    forall i | 0 <= i < |log|
      ensures LevelFits(TierByte(n), log[i].level)
    {
      assert GoesTo(log[i].level, TierByte(n));
      FitsIff(TierByte(n), log[i].level);
    }
  }

  /** One of TierManager's rings at any step of an append of its own records. */
  ghost predicate SoundRing(n: Name, customs: set<nat>, s: System) {
    && AreCustom(customs) && s.ring.tier == TierByte(n) && Tied(s) && LogOf(n, customs, s.log)
    && (s.ring.phase.Begun? || s.ring.phase.Tearing? ==> LogOf(n, customs, s.log + [s.ring.phase.rec]))
    && s.ring.header == s.ring.widx + (if s.ring.phase.Indexed? then 1 else 0)
    && SlotsFull(s.ring, s.log) && UnwrittenBlank(s.ring, s.log)
  }

  lemma SoundRingIsSound(n: Name, customs: set<nat>, s: System)
    requires SoundRing(n, customs, s)
    ensures Sound(s)
  {
    LogIsStamped(n, customs, s.log);
    if s.ring.phase.Begun? || s.ring.phase.Tearing? {
      LogIsStamped(n, customs, s.log + [s.ring.phase.rec]);
    }
  }

  /**
   Every ring of TierManager, killed at any step of an append of a record store put there:
   recovery counts every completed slot write, unless the ring is a full one of capacity 1
   that died between slot and header.
   */
  lemma EveryRingRecovers(n: Name, customs: set<nat>, s: System, now: nat)
    requires SoundRing(n, customs, s) && Promised(s, Crash(now))
    ensures Recovered(s.ring, now).widx == |s.log| <==> !LosesIndex(s.ring)
  {
    SoundRingIsSound(n, customs, s);
    RecoveryCountsEveryWrite(s, now);
  }

  // ----- What recovery counts, slot by slot -----

  /** The slot at a logical index holds a record of one of the levels of the ring. */
  ghost predicate OwnRecord(r: Ring, logical: nat) {
    r.Cap() > 0 && r.Slot(logical).Holds? && GoesTo(r.Slot(logical).rec.level, r.tier)
  }

  /** t is the stamp of the newest of the ring's own records among the live ones; 0 where there is none. */
  ghost predicate IsNewestStamp(r: Ring, t: nat) {
    || (t == 0 && forall l: nat :: r.Oldest() <= l < r.widx ==> !OwnRecord(r, l))
    || exists k: nat :: r.Oldest() <= k < r.widx && OwnRecord(r, k) && r.Slot(k).rec.ts == t
         && forall l: nat :: k < l < r.widx ==> !OwnRecord(r, l)
  }

  function StampAt(r: Ring, logical: nat): nat {
    if r.Cap() > 0 && r.Slot(logical).Holds? then r.Slot(logical).rec.ts else 0
  }

  /** The i-th slot from the index on holds an own record stamped after the one before it, or after t, and not after now. */
  ghost predicate Follows(r: Ring, t: nat, i: nat, now: nat) {
    OwnRecord(r, r.widx + i) && (if i == 0 then t else StampAt(r, r.widx + i - 1)) < StampAt(r, r.widx + i) <= now
  }

  lemma ReadsIsOwn(r: Ring, logical: nat)
    ensures Reads(r, logical) <==> OwnRecord(r, logical)
  {
    if r.Cap() > 0 && r.Slot(logical).Holds? {
      FitsIff(r.tier, r.Slot(logical).rec.level);
    }
  }

  lemma {:induction false} NewestFrom(r: Ring, k: nat)
    requires k <= r.Live()
    requires forall l: nat :: r.widx - k <= l < r.widx ==> !OwnRecord(r, l)
    ensures IsNewestStamp(r, NewestTs(r, k))
    decreases r.Live() - k
  {
    if k < r.Live() {
      var l := r.widx - 1 - k;
      ReadsIsOwn(r, l);
      if Reads(r, l) {
        assert OwnRecord(r, l) && r.Slot(l).rec.ts == NewestTs(r, k);
      } else {
        NewestFrom(r, k + 1);
      }
    }
  }

  lemma ContinuesIsFollows(r: Ring, i: nat, now: nat)
    requires i < r.Cap()
    ensures Continues(r, i, PrevTs(r, i), now) <==> Follows(r, NewestTs(r, 0), i, now)
  {
    ReadsIsOwn(r, r.widx + i);
  }

  /** n slots from the index on go on rising, and the next does not. */
  ghost predicate RisesFor(r: Ring, t: nat, n: nat, now: nat) {
    && n <= r.Cap() && (forall i: nat :: i < n ==> Follows(r, t, i, now)) && (n < r.Cap() ==> !Follows(r, t, n, now))
  }

  /** Recovery counts the slots that go on rising past the newest stamp of the ring's own records. */
  lemma RecoveryCounts(r: Ring, now: nat) returns (t: nat)
    ensures IsNewestStamp(r, t) && RisesFor(r, t, Unindexed(r, now), now)
  {
    t := NewestTs(r, 0);
    NewestFrom(r, 0);
    var n := Unindexed(r, now);
    UnindexedIsLongest(r, n, now);
    forall i: nat | i < r.Cap()
      ensures Continues(r, i, PrevTs(r, i), now) <==> Follows(r, t, i, now)
    {
      ContinuesIsFollows(r, i, now);
    }
  }
}
