/**
 Every interleaving of one appending thread with one query_ring walk, cut by crashes
 and restarts at any step, against the append-only log of completed slot writes.
 */
module RingRuns {
  import opened Common
  import opened Samples
  import opened Rings
  import opened RingChecks
  import Arith

  const DISORDER_LOOKBACK: nat := 1024

  /** The arguments of query_ring; until = 0 is no upper bound, relevel = 0 keeps the level. */
  datatype Query = Query(since: nat, until: nat, max: nat, relevel: nat)
  {
    function Stamp(rec: Sample): Sample {
      if relevel > 0 then rec.(level := relevel) else rec
    }
  }

  /** A record as the walk took it, with the logical index it was read for. */
  datatype Taken = Taken(logical: nat, rec: Sample)

  /** An upper bound to search for: 0 and the largest stamp are none. */
  predicate Bounded(q: Query) {
    q.until != 0 && q.until != U64 - 1
  }

  /** Where the walk starts, and whether a read misled the search. */
  datatype Aim = Aim(start: nat, misled: bool)

  /** lower_bound at work between lo and hi: ts_from stands at slot at, on its way up from mid. */
  datatype Search = Search(end: nat, lo: nat, hi: nat, mid: nat, at: nat, misled: bool)

  /**
   query_ring: its search for until, then the walk from the aim down, next one past the index
   to read, taken newest first. w is the write index it read first, stop the index it gave up
   at because an append had begun on its slot.
   */
  datatype Walk =
    | Resting
    | Opening(q: Query, w: nat)
    | Searching(q: Query, w: nat, sr: Search)
    | Reading(q: Query, w: nat, aim: Aim, next: nat, older: nat, taken: seq<Taken>)
    | Holding(q: Query, w: nat, aim: Aim, next: nat, older: nat, taken: seq<Taken>, held: Slot)
    | Finished(q: Query, w: nat, aim: Aim, taken: seq<Taken>, stop: Option<nat>)

  datatype System = System(ring: Ring, log: seq<Sample>, walk: Walk)

  datatype Step =
    | Writer(ws: WriterStep)
    | StartWalk(q: Query)     // write_index(), and whether there is anything to do
    | OpenReader              // the search's own write_index()
    | Probe(ok: bool)         // one read of the search, which may fail
    | ReadSlot(ok: bool)      // read_at of the walk, which may fail
    | CheckSlot               // write_begun(), then the rest of the loop body
    | Crash(now: nat)         // the process dies; a new one recovers at now

  function Floor(cap: nat, w: nat): nat {
    if w < cap then 0 else w - cap
  }

  /** The loop head: go on, or end when the live records or the room are used up. */
  function AtHead(cap: nat, q: Query, w: nat, aim: Aim, next: nat, older: nat, taken: seq<Taken>): Walk {
    if next > Floor(cap, w) && |taken| < q.max then Reading(q, w, aim, next, older, taken)
    else Finished(q, w, aim, taken, None)
  }

  /** The search's answer, kept within the records that were live at first. */
  function Clamped(cap: nat, w: nat, lo: nat): nat {
    if lo > w then w else if lo < Floor(cap, w) then Floor(cap, w) else lo
  }

  /** The search's loop head: a new middle, or the walk. */
  function SearchHead(cap: nat, q: Query, w: nat, end: nat, lo: nat, hi: nat, misled: bool): Walk {
    if lo < hi then
      var mid := lo + (hi - lo) / 2;
      Searching(q, w, Search(end, lo, hi, mid, mid, misled))
    else
      var start := Clamped(cap, w, lo);
      AtHead(cap, q, w, Aim(start, misled), start, 0, [])
  }

  /** A record not after until: the answer lies above the middle. */
  function TurnUp(cap: nat, k: Walk): Walk
    requires k.Searching?
  {
    SearchHead(cap, k.q, k.w, k.sr.end, k.sr.mid + 1, k.sr.hi, k.sr.misled)
  }

  /** One after until, or none at all: it lies below. */
  function TurnDown(cap: nat, k: Walk, misled: bool): Walk
    requires k.Searching?
  {
    SearchHead(cap, k.q, k.w, k.sr.end, k.sr.lo, k.sr.mid, misled)
  }

  /** The record the search means to read is not after until, whatever its slot shows. */
  predicate Misleads(log: seq<Sample>, k: Walk)
    requires k.Searching?
  {
    k.sr.at < k.w && k.sr.at < |log| && log[k.sr.at].ts <= k.q.until
  }

  /** One read of the search: a record decides, anything else sends ts_from on to the next. */
  function Probed(ring: Ring, log: seq<Sample>, k: Walk, ok: bool): Walk
    requires k.Searching? && ring.Cap() > 0
  {
    var slot := ring.Slot(k.sr.at);
    if ok && slot.Holds? then
      if slot.rec.ts <= k.q.until then TurnUp(ring.Cap(), k)
      else TurnDown(ring.Cap(), k, k.sr.misled || Misleads(log, k))
    else if k.sr.at + 1 >= k.sr.end then TurnDown(ring.Cap(), k, k.sr.misled)
    else Searching(k.q, k.w, k.sr.(at := k.sr.at + 1))
  }

  predicate InWindow(q: Query, rec: Sample) {
    q.since <= rec.ts && (q.until != 0 ==> rec.ts <= q.until)
  }

  /** The run of records older than the window, after one more slot: a hole keeps it, a newer record ends it. */
  function OlderRun(q: Query, held: Slot, older: nat): nat {
    if held.Undecodable? then older else if held.rec.ts < q.since then older + 1 else 0
  }

  function Push(q: Query, held: Slot, logical: nat, taken: seq<Taken>): seq<Taken> {
    if held.Holds? && InWindow(q, held.rec) then taken + [Taken(logical, q.Stamp(held.rec))] else taken
  }

  /** What one loop body makes of the slot read for next - 1. */
  function Judge(ring: Ring, k: Walk): Walk
    requires k.Holding? && k.next > 0
  {
    var logical := k.next - 1;
    var older := OlderRun(k.q, k.held, k.older);
    if ring.begun > logical + ring.Cap() then Finished(k.q, k.w, k.aim, k.taken, Some(logical))
    else if older > DISORDER_LOOKBACK then Finished(k.q, k.w, k.aim, k.taken, None)
    else AtHead(ring.Cap(), k.q, k.w, k.aim, logical, older, Push(k.q, k.held, logical, k.taken))
  }

  ghost predicate StepEnabled(s: System, step: Step) {
    s.ring.Cap() > 0 &&
    match step
    case Writer(ws) => Enabled(s.ring, ws)
    case StartWalk(_) => s.walk.Resting? || s.walk.Finished?
    case OpenReader => s.walk.Opening?
    case Probe(_) => s.walk.Searching?
    case ReadSlot(_) => s.walk.Reading? && s.walk.next > 0
    case CheckSlot => s.walk.Holding? && s.walk.next > 0
    case Crash(_) => true
  }

  ghost function Take(s: System, step: Step): System
    requires StepEnabled(s, step)
  {
    match step
    case Writer(ws) =>
      s.(ring := Apply(s.ring, ws), log := if ws.Place? then s.log + [s.ring.phase.rec] else s.log)
    case StartWalk(q) =>
      var w := s.ring.widx;
      if w == 0 || (q.until != 0 && q.since > q.until) then s.(walk := Finished(q, w, Aim(w, false), [], None))
      else if Bounded(q) then s.(walk := Opening(q, w))
      else s.(walk := AtHead(s.ring.Cap(), q, w, Aim(w, false), w, 0, []))
    case OpenReader =>
      var end, cap := s.ring.widx, s.ring.Cap();
      s.(walk := SearchHead(cap, s.walk.q, s.walk.w, end, Floor(cap, end), end, false))
    case Probe(ok) => s.(walk := Probed(s.ring, s.log, s.walk, ok))
    case ReadSlot(ok) =>
      var k := s.walk;
      if ok then
        s.(walk := Holding(k.q, k.w, k.aim, k.next, k.older, k.taken, s.ring.Slot(k.next - 1)))
      else s.(walk := AtHead(s.ring.Cap(), k.q, k.w, k.aim, k.next - 1, k.older, k.taken))
    case CheckSlot => s.(walk := Judge(s.ring, s.walk))
    case Crash(now) => s.(ring := Recovered(s.ring, now), walk := Resting)
  }

  ghost predicate IsRun(s: System, steps: seq<Step>)
    decreases |steps|
  {
    steps == [] || (StepEnabled(s, steps[0]) && IsRun(Take(s, steps[0]), steps[1..]))
  }

  ghost function After(s: System, steps: seq<Step>): System
    requires IsRun(s, steps)
    decreases |steps|
  {
    if steps == [] then s else After(Take(s, steps[0]), steps[1..])
  }

  // ----- The reader against the writer: any stamps, any slot contents -----

  /** The records the log counts, against the writer's phase. */
  ghost predicate LogTied(r: Ring, log: seq<Sample>) {
    && r.Cap() > 0
    && |log| == r.widx + (if r.phase.Placed? || r.phase.Indexed? then 1 else 0)
    && (r.phase.Placed? || r.phase.Indexed? ==> log[r.widx] == r.phase.rec)
    && r.begun == r.widx + (if r.phase.Idle? then 0 else 1)
  }

  ghost predicate SlotTied(r: Ring, log: seq<Sample>, logical: nat)
    requires r.Cap() > 0 && logical < |log|
  {
    r.Slot(logical).Undecodable? || r.Slot(logical) == Holds(log[logical])
  }

  /** No slot shows a record under another's index. */
  ghost predicate SlotsTied(r: Ring, log: seq<Sample>)
    requires r.Cap() > 0
  {
    forall l: nat :: l < |log| <= l + r.Cap() ==> SlotTied(r, log, l)
  }

  /** Everything taken is the record appended under its index, newest first, at or past next. */
  ghost predicate TakenTied(q: Query, w: nat, next: nat, taken: seq<Taken>, log: seq<Sample>) {
    && w <= |log| && |taken| <= q.max
    && (forall i :: 0 <= i < |taken| ==>
          next <= taken[i].logical < w && InWindow(q, log[taken[i].logical])
          && taken[i].rec == q.Stamp(log[taken[i].logical]))
    && (forall i, j :: 0 <= i < j < |taken| ==> taken[i].logical > taken[j].logical)
  }

  ghost predicate SearchTied(cap: nat, sr: Search) {
    Floor(cap, sr.end) <= sr.lo <= sr.mid < sr.hi <= sr.end && sr.mid <= sr.at < sr.end
  }

  ghost predicate WalkTied(r: Ring, log: seq<Sample>, k: Walk)
    requires r.Cap() > 0
  {
    match k
    case Resting => true
    case Opening(q, w) => w <= r.widx
    case Searching(q, w, sr) => w <= sr.end <= r.widx && SearchTied(r.Cap(), sr)
    case Reading(q, w, aim, next, older, taken) =>
      w <= r.widx && Floor(r.Cap(), w) < next <= aim.start <= w && |taken| < q.max && older <= DISORDER_LOOKBACK
      && TakenTied(q, w, next, taken, log)
    case Holding(q, w, aim, next, older, taken, held) =>
      w <= r.widx && Floor(r.Cap(), w) < next <= aim.start <= w && |taken| < q.max && older <= DISORDER_LOOKBACK
      && TakenTied(q, w, next, taken, log)
      && (held.Holds? ==> held.rec == log[next - 1] || |log| > next - 1 + r.Cap())
    case Finished(q, w, aim, taken, _) =>
      aim.start <= w <= r.widx && TakenTied(q, w, Floor(r.Cap(), w), taken, log)
  }

  ghost predicate Tied(s: System) {
    LogTied(s.ring, s.log) && SlotsTied(s.ring, s.log) && WalkTied(s.ring, s.log, s.walk)
  }

  /** Writing slot |log| % cap touches no live record but the one cap before it. */
  lemma PutKeepsOthers(r: Ring, l: nat, at: nat, x: Slot)
    requires r.Cap() > 0 && (l < at < l + r.Cap() || at < l < at + r.Cap())
    ensures r.Put(at, x).Slot(l) == r.Slot(l)
  {
    if l < at {
      Arith.ModDistinct(l, at, r.Cap());
    } else {
      Arith.ModDistinct(at, l, r.Cap());
    }
  }

  lemma WriterKeepsSlots(r: Ring, log: seq<Sample>, ws: WriterStep)
    requires LogTied(r, log) && SlotsTied(r, log) && Enabled(r, ws)
    ensures var log' := if ws.Place? then log + [r.phase.rec] else log;
            LogTied(Apply(r, ws), log') && SlotsTied(Apply(r, ws), log')
  {
    var r' := Apply(r, ws);
    var log' := if ws.Place? then log + [r.phase.rec] else log;
    forall l: nat | l < |log'| <= l + r.Cap()
      ensures SlotTied(r', log', l)
    {
      if l < r.widx {
        assert SlotTied(r, log, l);
        if (ws.Tear? || ws.Place?) && r.widx < l + r.Cap() {
          PutKeepsOthers(r, l, r.widx, r'.Slot(r.widx));
        }
        if ws.Tear? && l + r.Cap() == r.widx {
          Arith.ModShift(l, r.Cap());
        }
      } else if !ws.Place? {
        assert SlotTied(r, log, l);
      }
    }
  }

  lemma WriterKeepsWalk(s: System, ws: WriterStep)
    requires Tied(s) && Enabled(s.ring, ws)
    ensures var s' := Take(s, Writer(ws)); WalkTied(s'.ring, s'.log, s'.walk)
  {
  }

  lemma SearchHeadTied(r: Ring, log: seq<Sample>, q: Query, w: nat, end: nat, lo: nat, hi: nat, misled: bool)
    requires LogTied(r, log) && w <= end <= r.widx && Floor(r.Cap(), end) <= lo <= hi <= end
    ensures WalkTied(r, log, SearchHead(r.Cap(), q, w, end, lo, hi, misled))
  {
  }

  lemma StartKeepsWalk(s: System, q: Query)
    requires Tied(s) && StepEnabled(s, StartWalk(q))
    ensures Tied(Take(s, StartWalk(q)))
  {
  }

  lemma OpenKeepsWalk(s: System)
    requires Tied(s) && StepEnabled(s, OpenReader)
    ensures Tied(Take(s, OpenReader))
  {
    var end, cap := s.ring.widx, s.ring.Cap();
    SearchHeadTied(s.ring, s.log, s.walk.q, s.walk.w, end, Floor(cap, end), end, false);
  }

  lemma TurnsTied(r: Ring, log: seq<Sample>, k: Walk, misled: bool)
    requires LogTied(r, log) && k.Searching? && k.w <= k.sr.end <= r.widx && SearchTied(r.Cap(), k.sr)
    ensures WalkTied(r, log, TurnUp(r.Cap(), k)) && WalkTied(r, log, TurnDown(r.Cap(), k, misled))
  {
    SearchHeadTied(r, log, k.q, k.w, k.sr.end, k.sr.mid + 1, k.sr.hi, k.sr.misled);
    SearchHeadTied(r, log, k.q, k.w, k.sr.end, k.sr.lo, k.sr.mid, misled);
  }

  lemma ProbedTied(r: Ring, log: seq<Sample>, k: Walk, ok: bool)
    requires LogTied(r, log) && k.Searching? && k.w <= k.sr.end <= r.widx && SearchTied(r.Cap(), k.sr)
    ensures WalkTied(r, log, Probed(r, log, k, ok))
  {
    TurnsTied(r, log, k, k.sr.misled);
    TurnsTied(r, log, k, k.sr.misled || Misleads(log, k));
  }

  lemma ProbeKeepsWalk(s: System, ok: bool)
    requires Tied(s) && StepEnabled(s, Probe(ok))
    ensures Tied(Take(s, Probe(ok)))
  {
    ProbedTied(s.ring, s.log, s.walk, ok);
  }

  lemma ReadKeepsWalk(s: System, ok: bool)
    requires Tied(s) && StepEnabled(s, ReadSlot(ok))
    ensures Tied(Take(s, ReadSlot(ok)))
  {
    if s.ring.Cap() + s.walk.next - 1 >= |s.log| {
      assert SlotTied(s.ring, s.log, s.walk.next - 1);
    }
  }

  lemma HeadTied(r: Ring, log: seq<Sample>, q: Query, w: nat, aim: Aim, next: nat, older: nat, taken: seq<Taken>)
    requires r.Cap() > 0 && w <= r.widx && Floor(r.Cap(), w) <= next <= aim.start <= w
    requires TakenTied(q, w, next, taken, log) && older <= DISORDER_LOOKBACK
    ensures WalkTied(r, log, AtHead(r.Cap(), q, w, aim, next, older, taken))
  {
  }

  lemma PushTied(q: Query, w: nat, logical: nat, taken: seq<Taken>, held: Slot, log: seq<Sample>)
    requires logical < w && |taken| < q.max && TakenTied(q, w, logical + 1, taken, log)
    requires held.Holds? ==> held.rec == log[logical]
    ensures TakenTied(q, w, logical, Push(q, held, logical, taken), log)
  {
  }

  lemma CheckKeepsWalk(s: System)
    requires Tied(s) && StepEnabled(s, CheckSlot)
    ensures Tied(Take(s, CheckSlot))
  {
    var k := s.walk;
    var l := k.next - 1;
    if s.ring.begun <= l + s.ring.Cap() && OlderRun(k.q, k.held, k.older) <= DISORDER_LOOKBACK {
      PushTied(k.q, k.w, l, k.taken, k.held, s.log);
      HeadTied(s.ring, s.log, k.q, k.w, k.aim, l, OlderRun(k.q, k.held, k.older), Push(k.q, k.held, l, k.taken));
    }
  }

  /** Every step but a crash keeps the reader's records tied to the log. */
  lemma StepKeepsTied(s: System, step: Step)
    requires Tied(s) && StepEnabled(s, step) && !step.Crash?
    ensures Tied(Take(s, step))
  {
    match step
    case Writer(ws) =>
      WriterKeepsSlots(s.ring, s.log, ws);
      WriterKeepsWalk(s, ws);
    case ReadSlot(ok) => ReadKeepsWalk(s, ok);
    case CheckSlot => CheckKeepsWalk(s);
    case StartWalk(q) => StartKeepsWalk(s, q);
    case OpenReader => OpenKeepsWalk(s);
    case Probe(ok) => ProbeKeepsWalk(s, ok);
  }

  /** A ring opened on any slots at all is tied to some log: the one its live slots spell. */
  lemma OpenedIsTied(r: Ring, log: seq<Sample>)
    requires r.Cap() > 0 && r.phase.Idle? && r.begun == r.widx && |log| == r.widx
    requires forall l: nat :: r.Oldest() <= l < r.widx && r.Slot(l).Holds? ==> log[l] == r.Slot(l).rec
    ensures Tied(System(r, log, Resting))
  {
  }

  /**
   In every run of the writer's steps, torn and failed writes included, with a walk's:
   what a finished walk took for index l is the record appended as l, inside the window,
   at most max of them, in write order.
   */
  lemma {:induction false} WalkSeesTheLog(s: System, steps: seq<Step>)
    requires Tied(s) && IsRun(s, steps)
    requires forall i :: 0 <= i < |steps| ==> !steps[i].Crash?
    ensures Tied(After(s, steps))
    decreases |steps|
  {
    if steps != [] {
      StepKeepsTied(s, steps[0]);
      WalkSeesTheLog(Take(s, steps[0]), steps[1..]);
    }
  }

  // ----- Crashes: stamps strictly increasing, every record of the ring's own level -----

  ghost predicate Stamped(tier: nat, log: seq<Sample>) {
    && (forall i :: 0 <= i < |log| ==> 1 <= log[i].ts && LevelFits(tier, log[i].level))
    && (forall i, j :: 0 <= i < j < |log| ==> log[i].ts < log[j].ts)
  }

  /** What the caller of append and the clock promise. */
  ghost predicate Promised(s: System, step: Step) {
    match step
    case Writer(BeginAppend(rec)) => Stamped(s.ring.tier, s.log + [rec])
    case Crash(now) => s.log != [] ==> s.log[|s.log| - 1].ts <= now
    case _ => true
  }

  /** Every live record but the one cap before the next write is in its slot. */
  ghost predicate SlotsFull(r: Ring, log: seq<Sample>)
    requires r.Cap() > 0
  {
    forall l: nat :: l < |log| && r.widx < l + r.Cap() ==> r.Slot(l) == Holds(log[l])
  }

  ghost predicate UnwrittenBlank(r: Ring, log: seq<Sample>) {
    forall j :: |log| <= j < r.Cap() ==> r.slots[j].Undecodable?
  }

  ghost predicate Sound(s: System) {
    && Tied(s)
    && Stamped(s.ring.tier, s.log)
    && (s.ring.phase.Begun? || s.ring.phase.Tearing? ==> Stamped(s.ring.tier, s.log + [s.ring.phase.rec]))
    && s.ring.header == s.ring.widx + (if s.ring.phase.Indexed? then 1 else 0)
    && SlotsFull(s.ring, s.log)
    && UnwrittenBlank(s.ring, s.log)
  }

  lemma WriterKeepsFull(s: System, ws: WriterStep)
    requires Sound(s) && Enabled(s.ring, ws)
    ensures var s' := Take(s, Writer(ws)); SlotsFull(s'.ring, s'.log)
  {
    var r := s.ring;
    var s' := Take(s, Writer(ws));
    forall l: nat | l < |s'.log| && s'.ring.widx < l + r.Cap()
      ensures s'.ring.Slot(l) == Holds(s'.log[l])
    {
      if (ws.Tear? || ws.Place?) && l < r.widx {
        PutKeepsOthers(r, l, r.widx, s'.ring.Slot(r.widx));
      }
    }
  }

  lemma WriterKeepsBlank(s: System, ws: WriterStep)
    requires Sound(s) && Enabled(s.ring, ws)
    ensures var s' := Take(s, Writer(ws)); UnwrittenBlank(s'.ring, s'.log)
  {
    if s.ring.widx < s.ring.Cap() {
      Arith.ModSmall(s.ring.widx, s.ring.Cap());
    }
  }

  lemma WriterKeepsSound(s: System, ws: WriterStep)
    requires Sound(s) && Enabled(s.ring, ws) && Promised(s, Writer(ws))
    ensures Sound(Take(s, Writer(ws)))
  {
    StepKeepsTied(s, Writer(ws));
    WriterKeepsFull(s, ws);
    WriterKeepsBlank(s, ws);
  }

  /** What a new process finds on disk after a death at any step. */
  lemma NewestOnDisk(s: System)
    requires Sound(s) && s.ring.header > 0 && (s.ring.Cap() >= 2 || |s.log| == s.ring.header)
    ensures var d := Reopened(s.ring);
            NewestTs(d, 0) == s.log[d.widx - 1].ts
            || (NewestTs(d, 0) == 0 && d.Cap() == 1 && d.Slot(d.widx).Undecodable?)
  {
    var d := Reopened(s.ring);
    var l := d.widx - 1;
    if s.ring.widx < l + d.Cap() {
      assert d.Slot(l) == Holds(s.log[l]);
    } else {
      assert SlotTied(s.ring, s.log, l);
      Arith.ModShift(l, d.Cap());
      assert NewestTs(d, 1) == 0;
    }
  }

  /** The slot for the next record: blank, or the live log's oldest. */
  lemma NextSlot(s: System)
    requires Sound(s)
    ensures var x := s.ring.Slot(|s.log|);
            x.Holds? ==> s.log != [] && x.rec.ts <= s.log[|s.log| - 1].ts
  {
    var n, cap := |s.log|, s.ring.Cap();
    if n >= cap {
      assert SlotTied(s.ring, s.log, n - cap);
      Arith.ModShift(n - cap, cap);
    } else {
      Arith.ModSmall(n, cap);
    }
  }

  /** A one-record ring that was already full, between the slot and the header of an append. */
  predicate LosesIndex(r: Ring) {
    r.Cap() == 1 && r.phase.Placed? && r.header > 0
  }

  /**
   A crash at any step of append, then recovery: every completed slot write is indexed
   again, exactly unless a one-record ring that was already full died between the slot
   and the header.
   */
  lemma RecoveryCountsEveryWrite(s: System, now: nat)
    requires Sound(s) && Promised(s, Crash(now))
    ensures Recovered(s.ring, now).widx == |s.log|
       <==> !LosesIndex(s.ring)
  {
    var d := Reopened(s.ring);
    var h := d.widx;
    if !s.ring.phase.Placed? {
      if h > 0 {
        NewestOnDisk(s);
      }
      NextSlot(s);
    } else {
      var rec := s.log[h];
      assert d.Slot(h) == Holds(rec);
      if d.Cap() == 1 && h > 0 {
        Arith.ModShift(h - 1, 1);
        assert Reads(d, h - 1);
      } else {
        if h > 0 {
          NewestOnDisk(s);
        }
        assert Continues(d, 0, NewestTs(d, 0), now);
        NextSlot(s);
        assert RunFrom(d, 1, rec.ts, now) == 1;
      }
    }
  }

  /** The failing case itself: a one-record ring, full, killed after the slot write. */
  lemma OneRecordRingLosesTheIndex() returns (s: System)
    ensures Sound(s) && Promised(s, Crash(2)) && Recovered(s.ring, 2).widx == 1 && |s.log| == 2
  {
    var a := Sample(1, L3, false, {}, {}, false, map[]);
    var b := a.(ts := 2);
    s := System(Ring(1, [Holds(b)], 1, 1, 2, Placed(b)), [a, b], Resting);
    forall l: nat | l < 2 <= l + 1
      ensures SlotTied(s.ring, s.log, l)
    {
      assert l % 1 == 0;
    }
    forall l: nat | l < 2 && 1 < l + 1
      ensures s.ring.Slot(l) == Holds(s.log[l])
    {
      assert l % 1 == 0;
    }
    assert Sound(s);
    RecoveryCountsEveryWrite(s, 2);
    RecoveredBounds(s, 2);
  }

  lemma RecoveredBounds(s: System, now: nat)
    requires Sound(s) && s.ring.Cap() == 1 && s.ring.phase.Placed? && s.ring.header > 0
    ensures Recovered(s.ring, now).widx == s.ring.header
  {
    var d := Reopened(s.ring);
    assert Reads(d, d.widx - 1) by {
      Arith.ModShift(d.widx - 1, 1);
    }
    Arith.ModShift(d.widx - 1, 1);
  }

  lemma CrashKeepsSound(s: System, now: nat)
    requires Sound(s) && Promised(s, Crash(now)) && !LosesIndex(s.ring)
    ensures Sound(Take(s, Crash(now))) && Take(s, Crash(now)).ring.widx == |s.log|
  {
    RecoveryCountsEveryWrite(s, now);
    var r := Recovered(s.ring, now);
    assert r.slots == s.ring.slots;
    forall l: nat | l < |s.log| <= l + r.Cap()
      ensures SlotTied(r, s.log, l)
    {
      assert SlotTied(s.ring, s.log, l);
    }
    forall l: nat | l < |s.log| && r.widx < l + r.Cap()
      ensures r.Slot(l) == Holds(s.log[l])
    {
      assert s.ring.Slot(l) == Holds(s.log[l]);
    }
  }

  /** What the ring keeps does not depend on the walk. */
  lemma SoundWithWalk(s: System, k: Walk)
    requires Sound(s) && WalkTied(s.ring, s.log, k)
    ensures Sound(s.(walk := k))
  {
  }

  lemma ReaderKeepsRing(s: System, step: Step)
    requires StepEnabled(s, step) && !step.Writer? && !step.Crash?
    ensures Take(s, step) == s.(walk := Take(s, step).walk)
  {
  }

  lemma ReaderKeepsSound(s: System, step: Step)
    requires Sound(s) && StepEnabled(s, step) && !step.Writer? && !step.Crash?
    ensures Sound(Take(s, step)) && Take(s, step).ring == s.ring
  {
    StepKeepsTied(s, step);
    ReaderKeepsRing(s, step);
    SoundWithWalk(s, Take(s, step).walk);
  }

  lemma StepKeepsSound(s: System, step: Step)
    requires Sound(s) && StepEnabled(s, step) && Promised(s, step) && (step.Crash? ==> !LosesIndex(s.ring))
    ensures Sound(Take(s, step)) && Take(s, step).ring.Cap() == s.ring.Cap()
  {
    match step
    case Writer(ws) => WriterKeepsSound(s, ws);
    case Crash(now) => CrashKeepsSound(s, now);
    case _ => ReaderKeepsSound(s, step);
  }

  /** A run as its callers promise, in which no crash loses an index. */
  ghost predicate IsPromisedRun(s: System, steps: seq<Step>)
    requires IsRun(s, steps)
    decreases |steps|
  {
    steps == [] ||
    (Promised(s, steps[0]) && (steps[0].Crash? ==> !LosesIndex(s.ring)) && IsPromisedRun(Take(s, steps[0]), steps[1..]))
  }

  /** A ring just made: no record, blank slots. */
  ghost predicate IsNew(s: System) {
    && s.ring.header == s.ring.widx == s.ring.begun == 0 && s.ring.phase.Idle?
    && s.log == [] && s.walk.Resting? && s.ring.Cap() > 0
    && forall j :: 0 <= j < s.ring.Cap() ==> s.ring.slots[j].Undecodable?
  }

  /**
   From a new ring, through any interleaving of appends, walks, crashes and recoveries: the live slots hold the newest records of the log of every
   completed slot write, and a walk still takes only the log's records.
   */
  lemma {:induction false} RunsKeepSound(s: System, steps: seq<Step>)
    requires Sound(s) && IsRun(s, steps) && IsPromisedRun(s, steps)
    ensures Sound(After(s, steps))
    decreases |steps|
  {
    if steps != [] {
      StepKeepsSound(s, steps[0]);
      RunsKeepSound(Take(s, steps[0]), steps[1..]);
    }
  }

  lemma NewRingIsSound(s: System)
    requires IsNew(s)
    ensures Sound(s)
  {
  }
}
