/**
 query_ring's steps on a ring nobody writes: read by read, they end in the answer its loops
 are proved to give.
 */
module RingAlone {
  import opened Common
  import opened Samples
  import opened Rings
  import opened RingRuns
  import opened RingQuery

  predicate AtRest(r: Ring) {
    r.Cap() > 0 && r.phase.Idle? && r.begun == r.widx
  }

  /** What was taken, oldest first. */
  function Backwards(taken: seq<Taken>): seq<Sample> {
    if taken == [] then [] else [taken[|taken| - 1].rec] + Backwards(taken[..|taken| - 1])
  }

  lemma OneMoreTaken(taken: seq<Taken>, x: Taken)
    ensures Backwards(taken + [x]) == [x.rec] + Backwards(taken)
  {
    assert (taken + [x])[..|taken|] == taken;
  }

  lemma {:induction false} AsManyBack(taken: seq<Taken>)
    ensures |Backwards(taken)| == |taken|
  {
    if taken != [] {
      AsManyBack(taken[..|taken| - 1]);
    }
  }

  /** The answer query_ring owes. */
  ghost predicate IsAnswer(v: View, q: Query, out: seq<Sample>) {
    && (Ordered(v) ==> out == Newest(Window(v, q, 0, |v|), q.max))
    && (!Bounded(q) && (q.until == 0 || q.since <= q.until) ==> out == Newest(Window(v, q, Cut(v, q, |v|, 0), |v|), q.max))
  }

  // ----- Where it is to start -----

  /** Where the search is to end up, if the ring is in time order. */
  datatype Split = Split(ordered: bool, at: nat)

  /** From at on, and not before, no record that decodes comes first that is not after until. */
  ghost predicate Splits(v: View, ts: nat, at: nat) {
    forall k: nat :: k <= |v| ==> (Late(v, ts, k) <==> at <= k)
  }

  lemma SplitSplits(v: View, ts: nat)
    requires Ordered(v)
    ensures Splits(v, ts, SplitPoint(v, ts)) && Parts(v, ts, SplitPoint(v, ts))
  {
    SplitParts(v, ts);
    LateFrom(v, ts, SplitPoint(v, ts));
  }

  ghost predicate Knows(v: View, q: Query, sp: Split) {
    sp.at <= |v| && (sp.ordered ==> Splits(v, q.until + 1, sp.at))
  }

  predicate RightStart(n: nat, q: Query, sp: Split, st: nat) {
    st <= n && if Bounded(q) then sp.ordered ==> st == sp.at else st == n
  }

  /** No record in a slot from mid to at. */
  predicate Hole(v: View, mid: int, at: int)
    requires 0 <= mid <= at <= |v|
    decreases at - mid
  {
    mid == at || (v[at - 1].Undecodable? && Hole(v, mid, at - 1))
  }

  lemma {:induction false} LateFromHole(v: View, ts: nat, mid: nat, at: nat)
    requires mid <= at <= |v| && Hole(v, mid, at)
    ensures Late(v, ts, mid) == Late(v, ts, at)
    decreases at - mid
  {
    if mid < at {
      LateFromHole(v, ts, mid, at - 1);
    }
  }

  // ----- The walk -----

  /** What a walk from st down is to take. */
  function Owed(v: View, q: Query, st: nat): seq<Sample>
    requires st <= |v|
  {
    Newest(Window(v, q, Cut(v, q, st, 0), st), q.max)
  }

  /** The walk, come down from st to n. */
  ghost predicate CameTo(v: View, q: Query, st: nat, n: nat, older: nat, taken: seq<Taken>) {
    && n <= st <= |v| && older <= DISORDER_LOOKBACK && |taken| <= q.max
    && Backwards(taken) == Window(v, q, n, st) && Cut(v, q, st, 0) == Cut(v, q, n, older)
  }

  /** It has come to the bottom, or has taken its fill. */
  lemma WalkEnds(v: View, q: Query, st: nat, n: nat, older: nat, taken: seq<Taken>)
    requires CameTo(v, q, st, n, older, taken) && (n == 0 || |taken| == q.max)
    ensures Backwards(taken) == Owed(v, q, st)
  {
    AsManyBack(taken);
    WindowSplit(v, q, Cut(v, q, st, 0), n, st);
  }

  /** One slot more. */
  lemma OneDown(v: View, q: Query, st: nat, n: nat, older: nat, taken: seq<Taken>, m: nat, run: nat, more: seq<Taken>, logical: nat)
    requires CameTo(v, q, st, n, older, taken) && m + 1 == n && |taken| < q.max
    requires run == OlderRun(q, v[m], older) <= DISORDER_LOOKBACK && more == Push(q, v[m], logical, taken)
    ensures CameTo(v, q, st, m, run, more)
  {
    WindowSplit(v, q, m, n, st);
    if v[m].Holds? && InWindow(q, v[m].rec) {
      OneMoreTaken(taken, Taken(logical, q.Stamp(v[m].rec)));
    }
    OneWindow(v, q, m);
  }

  lemma OneWindow(v: View, q: Query, i: nat)
    requires i < |v|
    ensures Window(v, q, i, i + 1) == if v[i].Holds? && InWindow(q, v[i].rec) then [q.Stamp(v[i].rec)] else []
  {
    assert Window(v, q, i + 1, i + 1) == [];
  }

  /** The 1025th older record in a row. */
  lemma GivesUp(v: View, q: Query, st: nat, n: nat, older: nat, taken: seq<Taken>)
    requires CameTo(v, q, st, n, older, taken) && 0 < n && OlderRun(q, v[n - 1], older) > DISORDER_LOOKBACK
    ensures Backwards(taken) == Owed(v, q, st)
  {
    AsManyBack(taken);
    OneWindow(v, q, n - 1);
    WindowSplit(v, q, n - 1, n, st);
    assert Cut(v, q, st, 0) == n - 1;
  }

  // ----- Every state -----

  /** The search between lo and hi, every slot from mid to at without a record. */
  ghost predicate SearchedTo(v: View, sp: Split, lo: int, hi: int, mid: int, at: int) {
    && 0 <= lo <= mid < hi <= |v| && mid <= at < |v| && Hole(v, mid, at)
    && (sp.ordered ==> lo <= sp.at <= hi)
  }

  ghost predicate Seeks(v: View, base: nat, q: Query, sp: Split, w: nat, sr: Search) {
    && Bounded(q) && w == sr.end == base + |v| && base <= sr.lo
    && SearchedTo(v, sp, sr.lo - base, sr.hi - base, sr.mid - base, sr.at - base)
  }

  ghost predicate WalksDown(v: View, q: Query, sp: Split, st: nat, n: nat, older: nat, taken: seq<Taken>) {
    RightStart(|v|, q, sp, st) && 0 < n && |taken| < q.max && CameTo(v, q, st, n, older, taken)
  }

  /** The walk, with the slot below next in hand. */
  ghost predicate Carries(v: View, base: nat, q: Query, sp: Split, aim: Aim, next: nat, older: nat, taken: seq<Taken>, held: Slot) {
    && base < next && base <= aim.start && WalksDown(v, q, sp, aim.start - base, next - base, older, taken)
    && held == v[next - base - 1]
  }

  ghost predicate Ended(v: View, q: Query, sp: Split, st: nat, taken: seq<Taken>) {
    RightStart(|v|, q, sp, st) && Backwards(taken) == Owed(v, q, st)
  }

  /** Nothing to look for, or nowhere. */
  predicate Nothing(v: View, q: Query) {
    v == [] || (q.until != 0 && q.since > q.until)
  }

  /** Where a query of q stands, the view's oldest record being base. */
  ghost predicate Stands(v: View, base: nat, q: Query, sp: Split, k: Walk) {
    match k
    case Resting => true
    case Opening(q', w) => q' == q && Bounded(q) && w == base + |v| > 0
    case Searching(q', w, sr) =>
      q' == q && Seeks(v, base, q, sp, w, sr)
    case Reading(q', w, aim, next, older, taken) =>
      q' == q && w == base + |v| && base <= next && base <= aim.start && WalksDown(v, q, sp, aim.start - base, next - base, older, taken)
    case Holding(q', w, aim, next, older, taken, held) =>
      q' == q && w == base + |v| && Carries(v, base, q, sp, aim, next, older, taken, held)
    case Finished(q', w, aim, taken, stop) =>
      q' == q && stop.None? && ((Nothing(v, q) && taken == []) || (base <= aim.start && Ended(v, q, sp, aim.start - base, taken)))
  }

  lemma EndStands(v: View, base: nat, w: nat, q: Query, sp: Split, aim: Aim, next: nat, older: nat, taken: seq<Taken>)
    requires base <= aim.start && base <= next && (next == base || |taken| >= q.max)
    requires RightStart(|v|, q, sp, aim.start - base) && CameTo(v, q, aim.start - base, next - base, older, taken)
    ensures Stands(v, base, q, sp, Finished(q, w, aim, taken, None))
  {
    WalkEnds(v, q, aim.start - base, next - base, older, taken);
  }

  lemma OnStands(v: View, base: nat, w: nat, q: Query, sp: Split, aim: Aim, next: nat, older: nat, taken: seq<Taken>)
    requires w == base + |v| && base <= aim.start && base < next && |taken| < q.max
    requires RightStart(|v|, q, sp, aim.start - base) && CameTo(v, q, aim.start - base, next - base, older, taken)
    ensures Stands(v, base, q, sp, Reading(q, w, aim, next, older, taken))
  {
  }

  lemma HeadStands(cap: nat, v: View, base: nat, w: nat, q: Query, sp: Split, aim: Aim, next: nat, older: nat, taken: seq<Taken>)
    requires w == base + |v| && base == Floor(cap, w) && base <= aim.start && base <= next
    requires RightStart(|v|, q, sp, aim.start - base) && CameTo(v, q, aim.start - base, next - base, older, taken)
    ensures Stands(v, base, q, sp, AtHead(cap, q, w, aim, next, older, taken))
  {
    HeadIs(cap, q, w, aim, next, older, taken);
    if next == base || |taken| >= q.max {
      EndStands(v, base, w, q, sp, aim, next, older, taken);
    } else {
      OnStands(v, base, w, q, sp, aim, next, older, taken);
    }
  }

  lemma HeadIs(cap: nat, q: Query, w: nat, aim: Aim, next: nat, older: nat, taken: seq<Taken>)
    requires next >= Floor(cap, w)
    ensures AtHead(cap, q, w, aim, next, older, taken) ==
      if next == Floor(cap, w) || |taken| >= q.max then Finished(q, w, aim, taken, None) else Reading(q, w, aim, next, older, taken)
  {
  }

  /** What one loop body makes of the slot when no append has begun on it. */
  lemma JudgeIs(r: Ring, k: Walk, older: nat)
    requires k.Holding? && k.next > 0 && r.begun <= k.next - 1 + r.Cap() && older == OlderRun(k.q, k.held, k.older)
    ensures Judge(r, k) == if older > DISORDER_LOOKBACK then Finished(k.q, k.w, k.aim, k.taken, None)
      else AtHead(r.Cap(), k.q, k.w, k.aim, k.next - 1, older, Push(k.q, k.held, k.next - 1, k.taken))
  {
  }

  lemma CheckEnds(
      v: View, base: nat, w: nat, q: Query, sp: Split, aim: Aim, next: nat, older: nat, taken: seq<Taken>, held: Slot)
    requires w == base + |v| && Carries(v, base, q, sp, aim, next, older, taken, held) && OlderRun(q, held, older) > DISORDER_LOOKBACK
    ensures Stands(v, base, q, sp, Finished(q, w, aim, taken, None))
  {
    GivesUp(v, q, aim.start - base, next - base, older, taken);
  }

  lemma CheckMoves(
      cap: nat, v: View, base: nat, w: nat, q: Query, sp: Split, aim: Aim, next: nat, older: nat, taken: seq<Taken>, held: Slot,
      logical: nat, run: nat, more: seq<Taken>)
    requires w == base + |v| && base == Floor(cap, w) && Carries(v, base, q, sp, aim, next, older, taken, held) && logical + 1 == next
    requires run == OlderRun(q, held, older) <= DISORDER_LOOKBACK && more == Push(q, held, logical, taken)
    ensures Stands(v, base, q, sp, AtHead(cap, q, w, aim, logical, run, more))
  {
    OneDown(v, q, aim.start - base, next - base, older, taken, logical - base, run, more, logical);
    HeadStands(cap, v, base, w, q, sp, aim, logical, run, more);
  }

  lemma CheckStands(r: Ring, v: View, base: nat, q: Query, sp: Split, k: Walk)
    requires base == Floor(r.Cap(), base + |v|) && r.begun <= base + r.Cap() && k.Holding? && Stands(v, base, q, sp, k)
    ensures k.next > 0 && Stands(v, base, q, sp, Judge(r, k))
  {
    var run := OlderRun(q, k.held, k.older);
    JudgeIs(r, k, run);
    if run > DISORDER_LOOKBACK {
      CheckEnds(v, base, k.w, q, sp, k.aim, k.next, k.older, k.taken, k.held);
    } else {
      CheckMoves(
        r.Cap(), v, base, k.w, q, sp, k.aim, k.next, k.older, k.taken, k.held, k.next - 1, run, Push(q, k.held, k.next - 1, k.taken));
    }
  }

  // ----- The search -----

  lemma SearchStands(cap: nat, v: View, base: nat, w: nat, q: Query, sp: Split, lo: nat, hi: nat, misled: bool)
    requires w == base + |v| && base == Floor(cap, w) && Bounded(q) && base <= lo <= hi <= w
    requires sp.ordered ==> lo - base <= sp.at <= hi - base
    ensures Stands(v, base, q, sp, SearchHead(cap, q, w, w, lo, hi, misled))
  {
    if lo == hi {
      var st := lo - base;
      assert Window(v, q, st, st) == [];
      HeadStands(cap, v, base, w, q, sp, Aim(lo, misled), lo, 0, []);
    }
  }

  /** Which way a read turns the search: up for a record not after until, down for one after it or none. */
  lemma TurnIsRight(v: View, q: Query, sp: Split, lo: int, hi: int, mid: int, at: int)
    requires Knows(v, q, sp) && SearchedTo(v, sp, lo, hi, mid, at)
    ensures sp.ordered && v[at].Holds? && v[at].rec.ts <= q.until ==> mid + 1 <= sp.at <= hi
    ensures sp.ordered && (if v[at].Holds? then v[at].rec.ts > q.until else at + 1 == |v|) ==> lo <= sp.at <= mid
  {
    LateFromHole(v, q.until + 1, mid, at);
    if sp.ordered {
      assert Late(v, q.until + 1, mid) <==> sp.at <= mid;
      if at + 1 == |v| {
        assert Late(v, q.until + 1, |v|);
      }
    }
  }

  /** What one read of the search does, by what its slot shows. */
  lemma ProbedIs(r: Ring, log: seq<Sample>, k: Walk)
    requires r.Cap() > 0 && k.Searching?
    ensures var slot, sr := r.Slot(k.sr.at), k.sr;
      Probed(r, log, k, true) ==
      if slot.Holds? && slot.rec.ts <= k.q.until then SearchHead(r.Cap(), k.q, k.w, sr.end, sr.mid + 1, sr.hi, sr.misled)
      else if slot.Holds? then SearchHead(r.Cap(), k.q, k.w, sr.end, sr.lo, sr.mid, sr.misled || Misleads(log, k))
      else if sr.at + 1 >= sr.end then SearchHead(r.Cap(), k.q, k.w, sr.end, sr.lo, sr.mid, sr.misled)
      else Searching(k.q, k.w, sr.(at := sr.at + 1))
  {
  }

  lemma ProbeUp(cap: nat, v: View, base: nat, q: Query, sp: Split, w: nat, sr: Search, slot: Slot)
    requires Knows(v, q, sp) && Seeks(v, base, q, sp, w, sr) && base == Floor(cap, w) && slot == v[sr.at - base]
    requires slot.Holds? && slot.rec.ts <= q.until
    ensures Stands(v, base, q, sp, SearchHead(cap, q, w, sr.end, sr.mid + 1, sr.hi, sr.misled))
  {
    TurnIsRight(v, q, sp, sr.lo - base, sr.hi - base, sr.mid - base, sr.at - base);
    SearchStands(cap, v, base, w, q, sp, sr.mid + 1, sr.hi, sr.misled);
  }

  lemma ProbeDown(cap: nat, v: View, base: nat, q: Query, sp: Split, w: nat, sr: Search, slot: Slot, misled: bool)
    requires Knows(v, q, sp) && Seeks(v, base, q, sp, w, sr) && base == Floor(cap, w) && slot == v[sr.at - base]
    requires if slot.Holds? then slot.rec.ts > q.until else sr.at + 1 >= sr.end
    ensures Stands(v, base, q, sp, SearchHead(cap, q, w, sr.end, sr.lo, sr.mid, misled))
  {
    TurnIsRight(v, q, sp, sr.lo - base, sr.hi - base, sr.mid - base, sr.at - base);
    SearchStands(cap, v, base, w, q, sp, sr.lo, sr.mid, misled);
  }

  lemma ProbeOn(v: View, base: nat, q: Query, sp: Split, w: nat, sr: Search, slot: Slot)
    requires Seeks(v, base, q, sp, w, sr) && slot == v[sr.at - base] && slot.Undecodable? && sr.at + 1 < sr.end
    ensures Stands(v, base, q, sp, Searching(q, w, sr.(at := sr.at + 1)))
  {
  }

  /** The search stands at k, and the ring shows it the view's slot. */
  ghost predicate Probes(r: Ring, v: View, base: nat, q: Query, sp: Split, k: Walk) {
    && r.Cap() > 0 && k.Searching? && k.q == q && Seeks(v, base, q, sp, k.w, k.sr) && base == Floor(r.Cap(), k.w)
    && Knows(v, q, sp) && r.Slot(k.sr.at) == v[k.sr.at - base]
  }

  lemma RecordTurnsUp(r: Ring, v: View, base: nat, q: Query, sp: Split, log: seq<Sample>, k: Walk)
    requires Probes(r, v, base, q, sp, k) && r.Slot(k.sr.at).Holds? && r.Slot(k.sr.at).rec.ts <= q.until
    ensures Stands(v, base, q, sp, Probed(r, log, k, true))
  {
    ProbeUp(r.Cap(), v, base, q, sp, k.w, k.sr, r.Slot(k.sr.at));
    ProbedIs(r, log, k);
  }

  lemma RecordTurnsDown(r: Ring, v: View, base: nat, q: Query, sp: Split, log: seq<Sample>, k: Walk)
    requires Probes(r, v, base, q, sp, k) && r.Slot(k.sr.at).Holds? && r.Slot(k.sr.at).rec.ts > q.until
    ensures Stands(v, base, q, sp, Probed(r, log, k, true))
  {
    ProbeDown(r.Cap(), v, base, q, sp, k.w, k.sr, r.Slot(k.sr.at), k.sr.misled || Misleads(log, k));
    ProbedIs(r, log, k);
  }

  lemma HolePassed(r: Ring, v: View, base: nat, q: Query, sp: Split, log: seq<Sample>, k: Walk)
    requires Probes(r, v, base, q, sp, k) && r.Slot(k.sr.at).Undecodable?
    ensures Stands(v, base, q, sp, Probed(r, log, k, true))
  {
    if k.sr.at + 1 >= k.sr.end {
      ProbeDown(r.Cap(), v, base, q, sp, k.w, k.sr, r.Slot(k.sr.at), k.sr.misled);
    } else {
      ProbeOn(v, base, q, sp, k.w, k.sr, r.Slot(k.sr.at));
    }
    ProbedIs(r, log, k);
  }

  lemma ProbeStands(r: Ring, v: View, base: nat, q: Query, sp: Split, log: seq<Sample>, k: Walk)
    requires Probes(r, v, base, q, sp, k)
    ensures Stands(v, base, q, sp, Probed(r, log, k, true))
  {
    if r.Slot(k.sr.at).Undecodable? {
      HolePassed(r, v, base, q, sp, log, k);
    } else if r.Slot(k.sr.at).rec.ts <= q.until {
      RecordTurnsUp(r, v, base, q, sp, log, k);
    } else {
      RecordTurnsDown(r, v, base, q, sp, log, k);
    }
  }

  // ----- Whole runs -----

  /** v is what the ring's live slots hold, the oldest at base. */
  ghost predicate Viewed(r: Ring, v: View, base: nat) {
    && AtRest(r) && base + |v| == r.widx && base == Floor(r.Cap(), r.widx) && r.widx <= base + r.Cap()
    && forall i: nat :: i < |v| ==> v[i] == r.Slot(base + i)
  }

  lemma LiveIsViewed(r: Ring)
    requires AtRest(r)
    ensures Viewed(r, LiveView(r), r.Oldest())
  {
  }

  lemma SlotIs(r: Ring, v: View, base: nat, logical: nat)
    requires Viewed(r, v, base) && base <= logical < r.widx
    ensures r.Slot(logical) == v[logical - base]
  {
    assert v[logical - base] == r.Slot(base + (logical - base));
  }

  lemma StartStands(s: System, v: View, base: nat, q: Query, sp: Split)
    requires Viewed(s.ring, v, base) && StepEnabled(s, StartWalk(q))
    ensures Stands(v, base, q, sp, Take(s, StartWalk(q)).walk)
  {
    if !Nothing(v, q) && !Bounded(q) {
      assert Window(v, q, |v|, |v|) == [];
      HeadStands(s.ring.Cap(), v, base, s.ring.widx, q, sp, Aim(s.ring.widx, false), s.ring.widx, 0, []);
    }
  }

  lemma OpenStep(s: System, v: View, base: nat, q: Query, sp: Split)
    requires Viewed(s.ring, v, base) && Knows(v, q, sp) && Stands(v, base, q, sp, s.walk) && StepEnabled(s, OpenReader)
    ensures Stands(v, base, q, sp, Take(s, OpenReader).walk)
  {
    SearchStands(s.ring.Cap(), v, base, s.ring.widx, q, sp, base, s.ring.widx, false);
  }

  lemma ProbeStep(s: System, v: View, base: nat, q: Query, sp: Split)
    requires Viewed(s.ring, v, base) && Knows(v, q, sp) && Stands(v, base, q, sp, s.walk) && StepEnabled(s, Probe(true))
    ensures Stands(v, base, q, sp, Take(s, Probe(true)).walk)
  {
    SlotIs(s.ring, v, base, s.walk.sr.at);
    ProbeStands(s.ring, v, base, q, sp, s.log, s.walk);
  }

  lemma HeldStands(v: View, base: nat, q: Query, sp: Split, k: Walk)
    requires k.Reading? && Stands(v, base, q, sp, k)
    ensures base < k.next <= base + |v|
    ensures Stands(v, base, q, sp, Holding(k.q, k.w, k.aim, k.next, k.older, k.taken, v[k.next - base - 1]))
  {
  }

  /** What a read that succeeds holds. */
  lemma ReadIs(s: System)
    requires StepEnabled(s, ReadSlot(true))
    ensures s.walk.Reading? && s.walk.next > 0
    ensures var k := s.walk;
      Take(s, ReadSlot(true)).walk == Holding(k.q, k.w, k.aim, k.next, k.older, k.taken, s.ring.Slot(k.next - 1))
  {
  }

  lemma ReadStep(s: System, v: View, base: nat, q: Query, sp: Split)
    requires Viewed(s.ring, v, base) && Stands(v, base, q, sp, s.walk) && StepEnabled(s, ReadSlot(true))
    ensures Stands(v, base, q, sp, Take(s, ReadSlot(true)).walk)
  {
    ReadIs(s);
    HeldStands(v, base, q, sp, s.walk);
    SlotIs(s.ring, v, base, s.walk.next - 1);
  }

  lemma CheckStep(s: System, v: View, base: nat, q: Query, sp: Split)
    requires Viewed(s.ring, v, base) && Stands(v, base, q, sp, s.walk) && StepEnabled(s, CheckSlot)
    ensures Stands(v, base, q, sp, Take(s, CheckSlot).walk)
  {
    CheckStands(s.ring, v, base, q, sp, s.walk);
  }

  /** A reader's step that succeeds. */
  predicate OfReader(step: Step) {
    step == OpenReader || step == Probe(true) || step == ReadSlot(true) || step == CheckSlot
  }

  lemma StepStands(s: System, v: View, base: nat, q: Query, sp: Split, step: Step)
    requires Viewed(s.ring, v, base) && Knows(v, q, sp) && Stands(v, base, q, sp, s.walk) && StepEnabled(s, step) && OfReader(step)
    ensures Take(s, step).ring == s.ring && Stands(v, base, q, sp, Take(s, step).walk)
  {
    match step
    case OpenReader => OpenStep(s, v, base, q, sp);
    case Probe(_) => ProbeStep(s, v, base, q, sp);
    case ReadSlot(_) => ReadStep(s, v, base, q, sp);
    case CheckSlot => CheckStep(s, v, base, q, sp);
  }

  lemma {:induction false} RunStands(s: System, v: View, base: nat, q: Query, sp: Split, steps: seq<Step>)
    requires Viewed(s.ring, v, base) && Knows(v, q, sp) && Stands(v, base, q, sp, s.walk) && IsRun(s, steps)
    requires forall i :: 0 <= i < |steps| ==> OfReader(steps[i])
    ensures After(s, steps).ring == s.ring && Stands(v, base, q, sp, After(s, steps).walk)
    decreases |steps|
  {
    if steps != [] {
      StepStands(s, v, base, q, sp, steps[0]);
      RunStands(Take(s, steps[0]), v, base, q, sp, steps[1..]);
    }
  }

  lemma OwedIsAnswer(v: View, q: Query, sp: Split, st: nat)
    requires sp == Split(Ordered(v), SplitPoint(v, q.until + 1)) && RightStart(|v|, q, sp, st)
    ensures IsAnswer(v, q, Owed(v, q, st))
  {
    if Ordered(v) {
      SplitSplits(v, q.until + 1);
      WindowBetween(v, q, st);
    }
  }

  lemma NothingIsAnswer(v: View, q: Query)
    requires Nothing(v, q)
    ensures IsAnswer(v, q, [])
  {
    WindowEmpty(v, q, 0, |v|);
    WindowEmpty(v, q, Cut(v, q, |v|, 0), |v|);
  }

  lemma EndIsAnswer(v: View, base: nat, q: Query, sp: Split, k: Walk)
    requires sp == Split(Ordered(v), SplitPoint(v, q.until + 1)) && k.Finished? && Stands(v, base, q, sp, k)
    ensures k.q == q && IsAnswer(v, q, Backwards(k.taken))
  {
    if Nothing(v, q) && k.taken == [] {
      NothingIsAnswer(v, q);
    } else {
      OwedIsAnswer(v, q, sp, k.aim.start - base);
    }
  }

  /**
   A query on a ring at rest, run read by read to its end, takes exactly what query_ring is to
   return: the newest max of the window on a ring in time order, and without an upper bound on
   any ring the newest of the window above where the walk gives up.
   */
  lemma AloneIsQuery(s: System, q: Query, steps: seq<Step>)
    requires AtRest(s.ring) && StepEnabled(s, StartWalk(q)) && IsRun(Take(s, StartWalk(q)), steps)
    requires forall i :: 0 <= i < |steps| ==> OfReader(steps[i])
    ensures var e := After(Take(s, StartWalk(q)), steps);
      e.ring == s.ring && (e.walk.Finished? ==> IsAnswer(LiveView(s.ring), q, Backwards(e.walk.taken)))
  {
    var v, base := LiveView(s.ring), s.ring.Oldest();
    LiveIsViewed(s.ring);
    var sp := SplitOf(v, q);
    AloneFrom(s, v, base, q, sp, steps);
  }

  lemma SplitOf(v: View, q: Query) returns (sp: Split)
    ensures sp == Split(Ordered(v), SplitPoint(v, q.until + 1)) && Knows(v, q, sp)
  {
    sp := Split(Ordered(v), SplitPoint(v, q.until + 1));
    if Ordered(v) {
      SplitSplits(v, q.until + 1);
    }
  }

  lemma AloneFrom(s: System, v: View, base: nat, q: Query, sp: Split, steps: seq<Step>)
    requires Viewed(s.ring, v, base) && StepEnabled(s, StartWalk(q)) && IsRun(Take(s, StartWalk(q)), steps)
    requires forall i :: 0 <= i < |steps| ==> OfReader(steps[i])
    requires sp == Split(Ordered(v), SplitPoint(v, q.until + 1)) && Knows(v, q, sp)
    ensures var e := After(Take(s, StartWalk(q)), steps);
      e.ring == s.ring && (e.walk.Finished? ==> IsAnswer(v, q, Backwards(e.walk.taken)))
  {
    StartStands(s, v, base, q, sp);
    RunStands(Take(s, StartWalk(q)), v, base, q, sp, steps);
    var k := After(Take(s, StartWalk(q)), steps).walk;
    if k.Finished? {
      EndIsAnswer(v, base, q, sp, k);
    }
  }

  // ----- Every query ends -----

  /** How far a query has to go: what it is at, and how much of that is left. */
  datatype Left = Left(stage: nat, slots: int, probes: int)

  function LeftOf(k: Walk): Left {
    match k
    case Resting => Left(0, 0, 0)
    case Opening(_, _) => Left(3, 0, 0)
    case Searching(_, _, sr) => Left(2, sr.hi - sr.lo, sr.end - sr.at)
    case Reading(_, _, _, next, _, _) => Left(1, next, 1)
    case Holding(_, _, _, next, _, _, _) => Left(1, next, 0)
    case Finished(_, _, _, _, _) => Left(0, 0, 0)
  }

  /** Less is left, and nothing below zero. */
  predicate Nearer(a: Left, b: Left) {
    && a.slots >= 0 && a.probes >= 0
    && (a.stage < b.stage || (a.stage == b.stage && (a.slots < b.slots || (a.slots == b.slots && a.probes < b.probes))))
  }

  predicate OfQuery(step: Step) {
    step == OpenReader || step.Probe? || step.ReadSlot? || step == CheckSlot
  }

  /** Whatever the writer does meanwhile and whichever reads fail, each of the query's own steps brings it nearer its end. */
  lemma QueryProceeds(s: System, step: Step)
    requires Tied(s) && StepEnabled(s, step) && OfQuery(step)
    ensures Nearer(LeftOf(Take(s, step).walk), LeftOf(s.walk))
  {
    match step
    case OpenReader =>
    case Probe(ok) => ProbeProceeds(s.ring, s.log, s.walk, ok);
    case ReadSlot(_) =>
    case CheckSlot =>
  }

  lemma ProbeProceeds(r: Ring, log: seq<Sample>, k: Walk, ok: bool)
    requires r.Cap() > 0 && k.Searching? && SearchTied(r.Cap(), k.sr)
    ensures Nearer(LeftOf(Probed(r, log, k, ok)), LeftOf(k))
  {
  }

  /** And until it is finished it has one to take. */
  lemma QueryGoesOn(s: System)
    requires Tied(s) && !s.walk.Resting? && !s.walk.Finished?
    ensures exists step :: OfQuery(step) && StepEnabled(s, step)
  {
    assert OfQuery(OpenReader) && OfQuery(Probe(true)) && OfQuery(ReadSlot(true)) && OfQuery(CheckSlot);
    match s.walk
    case Opening(_, _) => assert StepEnabled(s, OpenReader);
    case Searching(_, _, _) => assert StepEnabled(s, Probe(true));
    case Reading(_, _, _, _, _, _) => assert StepEnabled(s, ReadSlot(true));
    case Holding(_, _, _, _, _, _, _) => assert StepEnabled(s, CheckSlot);
  }

  /** A slot that cannot be read is passed over: nothing is taken for it, and the next one down is read. */
  lemma FailedReadPasses(s: System)
    requires Tied(s) && s.walk.Reading? && s.walk.next > Floor(s.ring.Cap(), s.walk.w) + 1
    ensures StepEnabled(s, ReadSlot(false))
    ensures var k := s.walk; Take(s, ReadSlot(false)).walk == Reading(k.q, k.w, k.aim, k.next - 1, k.older, k.taken)
  {
  }
}
