/**
 What a query_ring walk must not miss while an appending thread writes over the ring, and
 the search for until that decides where it starts, read by read against the writer's steps.
 */
module RingWalk {
  import opened Common
  import opened Samples
  import opened Rings
  import opened RingRuns
  import Arith

  ghost predicate Has(taken: seq<Taken>, logical: nat) {
    exists i :: 0 <= i < |taken| && taken[i].logical == logical
  }

  /** A record of the window still in its slot. */
  ghost predicate StillThere(r: Ring, log: seq<Sample>, q: Query, logical: nat) {
    && r.Cap() > 0 && logical < |log| <= logical + r.Cap()
    && r.Slot(logical) == Holds(log[logical]) && InWindow(q, log[logical])
  }

  ghost predicate NoneMissed(r: Ring, log: seq<Sample>, q: Query, low: nat, high: nat, taken: seq<Taken>) {
    forall l: nat :: low <= l < high && StillThere(r, log, q, l) ==> Has(taken, l)
  }

  ghost predicate NoneThere(r: Ring, log: seq<Sample>, q: Query, low: nat, high: nat) {
    forall l: nat :: low <= l < high ==> !StillThere(r, log, q, l)
  }

  ghost predicate AllAfter(log: seq<Sample>, until: nat, low: nat, high: nat)
    requires high <= |log|
  {
    forall l: nat :: low <= l < high ==> log[l].ts > until
  }

  // ----- The search -----

  /** From hi up nothing is still there, unless a read misled the search; then hi is not after until. */
  ghost predicate TurnedRight(r: Ring, log: seq<Sample>, q: Query, w: nat, hi: nat, misled: bool) {
    && w <= |log|
    && (!misled ==> NoneThere(r, log, q, hi, w))
    && (misled ==> Bounded(q) && hi < w && log[hi].ts <= q.until)
  }

  ghost predicate Aimed(r: Ring, log: seq<Sample>, k: Walk) {
    match k
    case Resting => true
    case Opening(q, w) => Bounded(q)
    case Searching(q, w, sr) =>
      && Bounded(q) && TurnedRight(r, log, q, w, sr.hi, sr.misled)
      && NoneThere(r, log, q, sr.mid, if sr.at < w then sr.at else w)
    case Reading(q, w, aim, _, _, _) => TurnedRight(r, log, q, w, aim.start, aim.misled)
    case Holding(q, w, aim, _, _, _, _) => TurnedRight(r, log, q, w, aim.start, aim.misled)
    case Finished(q, w, aim, _, _) => TurnedRight(r, log, q, w, aim.start, aim.misled)
  }

  lemma HeadAimed(r: Ring, log: seq<Sample>, q: Query, w: nat, end: nat, lo: nat, hi: nat, misled: bool)
    requires LogTied(r, log) && Bounded(q) && w <= end <= r.widx && Floor(r.Cap(), end) <= lo <= hi <= end
    requires TurnedRight(r, log, q, w, hi, misled)
    ensures Aimed(r, log, SearchHead(r.Cap(), q, w, end, lo, hi, misled))
  {
  }

  lemma LaterIsAfter(log: seq<Sample>, tier: nat, until: nat, k: nat, w: nat)
    requires Stamped(tier, log) && k < |log| && w <= |log| && log[k].ts > until
    ensures AllAfter(log, until, k, w)
  {
    forall l: nat | k <= l < w
      ensures log[l].ts > until
    {
      if k < l {
        assert log[k].ts < log[l].ts;
      }
    }
  }

  lemma AfterNotThere(r: Ring, log: seq<Sample>, q: Query, k: nat, w: nat)
    requires w <= |log| && AllAfter(log, q.until, k, w) && Bounded(q)
    ensures NoneThere(r, log, q, k, w)
  {
  }

  /** Turned down at a record that should be after until: nothing of the window from mid on. */
  lemma DownIsRight(s: System, k: Walk)
    requires Sound(s) && k.Searching? && WalkTied(s.ring, s.log, k) && Aimed(s.ring, s.log, k) && !Misleads(s.log, k)
    ensures NoneThere(s.ring, s.log, k.q, k.sr.mid, k.w)
  {
    var at := k.sr.at;
    if at < k.w {
      LaterIsAfter(s.log, s.ring.tier, k.q.until, at, k.w);
      AfterNotThere(s.ring, s.log, k.q, at, k.w);
    }
  }

  /** Turned down, rightly or not. */
  lemma DownTurns(s: System, k: Walk, misled: bool)
    requires Sound(s) && k.Searching? && WalkTied(s.ring, s.log, k) && Aimed(s.ring, s.log, k)
    requires misled ==> k.sr.misled || Misleads(s.log, k)
    requires !misled ==> NoneThere(s.ring, s.log, k.q, k.sr.mid, k.w)
    ensures TurnedRight(s.ring, s.log, k.q, k.w, k.sr.mid, misled)
  {
    var mid := k.sr.mid;
    if k.sr.misled {
      assert s.log[mid].ts < s.log[k.sr.hi].ts;
    } else if misled && mid < k.sr.at {
      assert s.log[mid].ts < s.log[k.sr.at].ts;
    }
  }

  lemma DownAims(s: System, k: Walk, misled: bool)
    requires Sound(s) && k.Searching? && WalkTied(s.ring, s.log, k) && Aimed(s.ring, s.log, k)
    requires misled ==> k.sr.misled || Misleads(s.log, k)
    requires !misled ==> NoneThere(s.ring, s.log, k.q, k.sr.mid, k.w)
    ensures Aimed(s.ring, s.log, TurnDown(s.ring.Cap(), k, misled))
  {
    DownTurns(s, k, misled);
    HeadAimed(s.ring, s.log, k.q, k.w, k.sr.end, k.sr.lo, k.sr.mid, misled);
  }

  lemma UpAims(r: Ring, log: seq<Sample>, k: Walk)
    requires LogTied(r, log) && k.Searching? && WalkTied(r, log, k) && Aimed(r, log, k)
    ensures Aimed(r, log, TurnUp(r.Cap(), k))
  {
    HeadAimed(r, log, k.q, k.w, k.sr.end, k.sr.mid + 1, k.sr.hi, k.sr.misled);
  }

  /** A read that shows no record: nothing is there up to the next. */
  lemma HoleNotThere(r: Ring, log: seq<Sample>, k: Walk)
    requires r.Cap() > 0 && k.Searching? && Aimed(r, log, k) && r.Slot(k.sr.at).Undecodable?
    ensures NoneThere(r, log, k.q, k.sr.mid, if k.sr.at + 1 < k.w then k.sr.at + 1 else k.w)
  {
  }

  lemma HoleAims(s: System, k: Walk)
    requires Sound(s) && k.Searching? && WalkTied(s.ring, s.log, k) && Aimed(s.ring, s.log, k)
    requires s.ring.Slot(k.sr.at).Undecodable?
    ensures Aimed(s.ring, s.log, Probed(s.ring, s.log, k, true))
  {
    HoleNotThere(s.ring, s.log, k);
    if k.sr.at + 1 >= k.sr.end {
      DownAims(s, k, k.sr.misled);
    }
  }

  lemma ProbeAims(s: System, k: Walk)
    requires Sound(s) && k.Searching? && WalkTied(s.ring, s.log, k) && Aimed(s.ring, s.log, k)
    ensures Aimed(s.ring, s.log, Probed(s.ring, s.log, k, true))
  {
    if s.ring.Slot(k.sr.at).Undecodable? {
      HoleAims(s, k);
    } else if s.ring.Slot(k.sr.at).rec.ts <= k.q.until {
      UpAims(s.ring, s.log, k);
    } else {
      var misled := k.sr.misled || Misleads(s.log, k);
      if !misled {
        DownIsRight(s, k);
      }
      DownAims(s, k, misled);
    }
  }

  lemma OpenAims(s: System)
    requires Sound(s) && Aimed(s.ring, s.log, s.walk) && StepEnabled(s, OpenReader)
    ensures Aimed(s.ring, s.log, Take(s, OpenReader).walk)
  {
    var end, cap := s.ring.widx, s.ring.Cap();
    HeadAimed(s.ring, s.log, s.walk.q, s.walk.w, end, Floor(cap, end), end, false);
  }

  /** The log after a writer's step. */
  ghost function Written(s: System, ws: WriterStep): seq<Sample>
    requires Enabled(s.ring, ws)
  {
    if ws.Place? then s.log + [s.ring.phase.rec] else s.log
  }

  /** A record still there after a writer's step was there before it. */
  lemma StillThereBefore(s: System, ws: WriterStep, q: Query, l: nat)
    requires Tied(s) && Enabled(s.ring, ws) && l < s.ring.widx
    requires StillThere(Apply(s.ring, ws), Written(s, ws), q, l)
    ensures StillThere(s.ring, s.log, q, l)
  {
    if ws.Tear? || ws.Place? {
      if s.ring.widx < l + s.ring.Cap() {
        PutKeepsOthers(s.ring, l, s.ring.widx, Take(s, Writer(ws)).ring.Slot(s.ring.widx));
      } else {
        Arith.ModShift(l, s.ring.Cap());
      }
    }
  }

  lemma WriterAims(s: System, ws: WriterStep)
    requires Tied(s) && Aimed(s.ring, s.log, s.walk) && Enabled(s.ring, ws)
    ensures Aimed(Apply(s.ring, ws), Written(s, ws), s.walk)
  {
    if !s.walk.Resting? {
      forall l: nat | l < s.walk.w && StillThere(Apply(s.ring, ws), Written(s, ws), s.walk.q, l)
        ensures StillThere(s.ring, s.log, s.walk.q, l)
      {
        StillThereBefore(s, ws, s.walk.q, l);
      }
    }
  }

  // ----- The walk -----

  ghost predicate AllBelow(taken: seq<Taken>, start: nat) {
    forall i :: 0 <= i < |taken| ==> taken[i].logical < start
  }

  /** Everything up to start that is still there is taken, or the newest max of it. */
  ghost predicate Full(r: Ring, log: seq<Sample>, q: Query, start: nat, taken: seq<Taken>) {
    NoneMissed(r, log, q, 0, start, taken)
    || (|taken| == q.max && forall i :: 0 <= i < |taken| ==> NoneMissed(r, log, q, taken[i].logical, start, taken))
  }

  /** The walk gave up at l: an append had begun on its slot, and those on all older ones were done. */
  ghost predicate GaveUp(r: Ring, log: seq<Sample>, q: Query, start: nat, taken: seq<Taken>, l: nat) {
    && l < start && |taken| < q.max && !Has(taken, l) && |log| >= l + r.Cap()
    && NoneMissed(r, log, q, l + 1, start, taken)
  }

  /** Taken so far: everything of the window from next up to the start; and how it ends. */
  ghost predicate Gathered(r: Ring, log: seq<Sample>, k: Walk) {
    match k
    case Resting => true
    case Opening(_, _) => true
    case Searching(_, _, _) => true
    case Reading(q, _, aim, next, _, taken) => NoneMissed(r, log, q, next, aim.start, taken) && AllBelow(taken, aim.start)
    case Holding(q, _, aim, next, _, taken, held) =>
      NoneMissed(r, log, q, next, aim.start, taken) && AllBelow(taken, aim.start) && next > 0
      && (StillThere(r, log, q, next - 1) ==> held == Holds(log[next - 1]))
    case Finished(q, _, aim, taken, stop) =>
      AllBelow(taken, aim.start) &&
      if stop.None? then Full(r, log, q, aim.start, taken) else GaveUp(r, log, q, aim.start, taken, stop.value)
  }

  lemma WriterGathers(s: System, ws: WriterStep)
    requires Tied(s) && Gathered(s.ring, s.log, s.walk) && Enabled(s.ring, ws)
    ensures Gathered(Apply(s.ring, ws), Written(s, ws), s.walk)
  {
    if !s.walk.Resting? {
      forall l: nat | l < s.walk.w && StillThere(Apply(s.ring, ws), Written(s, ws), s.walk.q, l)
        ensures StillThere(s.ring, s.log, s.walk.q, l)
      {
        StillThereBefore(s, ws, s.walk.q, l);
      }
    }
  }

  lemma PushGathers(s: System)
    requires Tied(s) && s.walk.Holding? && Gathered(s.ring, s.log, s.walk)
    ensures var k := s.walk;
            s.ring.begun <= k.next - 1 + s.ring.Cap() ==>
              NoneMissed(s.ring, s.log, k.q, k.next - 1, k.aim.start, Push(k.q, k.held, k.next - 1, k.taken))
  {
    var k := s.walk;
    var taken := Push(k.q, k.held, k.next - 1, k.taken);
    if s.ring.begun <= k.next - 1 + s.ring.Cap() {
      forall l: nat | k.next - 1 <= l < k.aim.start && StillThere(s.ring, s.log, k.q, l)
        ensures Has(taken, l)
      {
        if l == k.next - 1 {
          assert taken[|taken| - 1].logical == l;
        } else {
          var i :| 0 <= i < |k.taken| && k.taken[i].logical == l;
          assert taken[i].logical == l;
        }
      }
    }
  }

  lemma HeadGathers(s: System, q: Query, w: nat, aim: Aim, next: nat, older: nat, taken: seq<Taken>)
    requires Tied(s) && w <= s.ring.widx && Floor(s.ring.Cap(), w) <= next <= aim.start <= w
    requires TakenTied(q, w, next, taken, s.log) && NoneMissed(s.ring, s.log, q, next, aim.start, taken)
    requires AllBelow(taken, aim.start)
    ensures Gathered(s.ring, s.log, AtHead(s.ring.Cap(), q, w, aim, next, older, taken))
  {
  }

  /** An append begun on the slot read: those on every older slot are done. */
  lemma LappedGathers(s: System)
    requires Tied(s) && s.walk.Holding? && Gathered(s.ring, s.log, s.walk)
    requires s.ring.begun > s.walk.next - 1 + s.ring.Cap()
    ensures GaveUp(s.ring, s.log, s.walk.q, s.walk.aim.start, s.walk.taken, s.walk.next - 1)
  {
  }

  /** Older than the window at this index: so is every older record. */
  lemma OlderGathers(s: System)
    requires Sound(s) && s.walk.Holding? && Gathered(s.ring, s.log, s.walk)
    requires s.walk.held.Holds? && s.walk.held.rec == s.log[s.walk.next - 1]
    requires s.walk.held.rec.ts < s.walk.q.since
    ensures NoneMissed(s.ring, s.log, s.walk.q, 0, s.walk.aim.start, s.walk.taken)
  {
    var k := s.walk;
    forall l: nat | l < k.next - 1
      ensures !InWindow(k.q, s.log[l])
    {
      assert s.log[l].ts < s.log[k.next - 1].ts;
    }
  }

  /** The slot read is the index's own: pushed if it is of the window, and on to the next. */
  lemma TakenGathers(s: System, older: nat)
    requires Tied(s) && s.walk.Holding? && Gathered(s.ring, s.log, s.walk)
    requires s.ring.begun <= s.walk.next - 1 + s.ring.Cap()
    ensures var k := s.walk;
      Gathered(s.ring, s.log, AtHead(s.ring.Cap(), k.q, k.w, k.aim, k.next - 1, older, Push(k.q, k.held, k.next - 1, k.taken)))
  {
    var k := s.walk;
    var l := k.next - 1;
    PushGathers(s);
    PushTied(k.q, k.w, l, k.taken, k.held, s.log);
    HeadGathers(s, k.q, k.w, k.aim, l, older, Push(k.q, k.held, l, k.taken));
  }

  lemma CheckGathers(s: System)
    requires Sound(s) && Gathered(s.ring, s.log, s.walk) && StepEnabled(s, CheckSlot)
    ensures Gathered(s.ring, s.log, Judge(s.ring, s.walk))
  {
    var k := s.walk;
    var older := OlderRun(k.q, k.held, k.older);
    if s.ring.begun > k.next - 1 + s.ring.Cap() {
      LappedGathers(s);
    } else if older > DISORDER_LOOKBACK {
      OlderGathers(s);
    } else {
      TakenGathers(s, older);
    }
  }

  lemma ReadGathers(s: System)
    requires Tied(s) && Gathered(s.ring, s.log, s.walk) && StepEnabled(s, ReadSlot(true))
    ensures Gathered(s.ring, s.log, Take(s, ReadSlot(true)).walk)
  {
  }

  lemma SearchHeadGathers(s: System, q: Query, w: nat, end: nat, lo: nat, hi: nat, misled: bool)
    requires Tied(s) && w <= end <= s.ring.widx && Floor(s.ring.Cap(), end) <= lo <= hi <= end
    ensures Gathered(s.ring, s.log, SearchHead(s.ring.Cap(), q, w, end, lo, hi, misled))
  {
    var start := Clamped(s.ring.Cap(), w, lo);
    HeadGathers(s, q, w, Aim(start, misled), start, 0, []);
  }

  lemma StartGathers(s: System, q: Query)
    requires Tied(s) && StepEnabled(s, StartWalk(q))
    ensures var k := Take(s, StartWalk(q)).walk; Aimed(s.ring, s.log, k) && Gathered(s.ring, s.log, k)
  {
    var w := s.ring.widx;
    HeadGathers(s, q, w, Aim(w, false), w, 0, []);
  }

  lemma TurnsGather(s: System, k: Walk, misled: bool)
    requires Tied(s) && k.Searching? && WalkTied(s.ring, s.log, k)
    ensures Gathered(s.ring, s.log, TurnUp(s.ring.Cap(), k)) && Gathered(s.ring, s.log, TurnDown(s.ring.Cap(), k, misled))
  {
    SearchHeadGathers(s, k.q, k.w, k.sr.end, k.sr.mid + 1, k.sr.hi, k.sr.misled);
    SearchHeadGathers(s, k.q, k.w, k.sr.end, k.sr.lo, k.sr.mid, misled);
  }

  lemma ProbeGathers(s: System, k: Walk)
    requires Tied(s) && k.Searching? && WalkTied(s.ring, s.log, k)
    ensures Gathered(s.ring, s.log, Probed(s.ring, s.log, k, true))
  {
    TurnsGather(s, k, k.sr.misled);
    TurnsGather(s, k, k.sr.misled || Misleads(s.log, k));
  }

  // ----- Both together, over whole runs -----

  ghost predicate WalkComplete(s: System) {
    Aimed(s.ring, s.log, s.walk) && Gathered(s.ring, s.log, s.walk)
  }

  lemma OpenKeepsComplete(s: System)
    requires Sound(s) && WalkComplete(s) && StepEnabled(s, OpenReader)
    ensures WalkComplete(Take(s, OpenReader))
  {
    var end, cap := s.ring.widx, s.ring.Cap();
    OpenAims(s);
    SearchHeadGathers(s, s.walk.q, s.walk.w, end, Floor(cap, end), end, false);
  }

  lemma ProbeKeepsComplete(s: System)
    requires Sound(s) && WalkComplete(s) && StepEnabled(s, Probe(true))
    ensures WalkComplete(Take(s, Probe(true)))
  {
    ProbeAims(s, s.walk);
    ProbeGathers(s, s.walk);
  }

  lemma CheckKeepsComplete(s: System)
    requires Sound(s) && WalkComplete(s) && StepEnabled(s, CheckSlot)
    ensures WalkComplete(Take(s, CheckSlot))
  {
    CheckGathers(s);
  }

  lemma ReadKeepsComplete(s: System)
    requires Sound(s) && WalkComplete(s) && StepEnabled(s, ReadSlot(true))
    ensures WalkComplete(Take(s, ReadSlot(true)))
  {
    ReadGathers(s);
  }

  lemma ReaderKeepsComplete(s: System, step: Step)
    requires Sound(s) && WalkComplete(s) && StepEnabled(s, step) && !step.Writer? && !step.Crash?
    requires step != ReadSlot(false) && step != Probe(false)
    ensures WalkComplete(Take(s, step))
  {
    match step
    case ReadSlot(_) => ReadKeepsComplete(s);
    case CheckSlot => CheckKeepsComplete(s);
    case OpenReader => OpenKeepsComplete(s);
    case Probe(_) => ProbeKeepsComplete(s);
    case StartWalk(q) => StartGathers(s, q);
  }

  lemma StepKeepsComplete(s: System, step: Step)
    requires Sound(s) && WalkComplete(s) && StepEnabled(s, step) && step != ReadSlot(false) && step != Probe(false)
    ensures WalkComplete(Take(s, step))
  {
    match step
    case Writer(ws) =>
      WriterAims(s, ws);
      WriterGathers(s, ws);
    case Crash(_) =>
    case _ => ReaderKeepsComplete(s, step);
  }

  lemma {:induction false} WalkKeepsComplete(s: System, steps: seq<Step>)
    requires Sound(s) && WalkComplete(s) && IsRun(s, steps) && IsPromisedRun(s, steps)
    requires ReadSlot(false) !in steps && Probe(false) !in steps
    ensures Sound(After(s, steps)) && WalkComplete(After(s, steps))
    decreases |steps|
  {
    if steps != [] {
      StepKeepsSound(s, steps[0]);
      StepKeepsComplete(s, steps[0]);
      WalkKeepsComplete(Take(s, steps[0]), steps[1..]);
    }
  }

  // ----- What a finished walk misses -----

  /** The newest record below w that is not after until. */
  ghost predicate IsNewest(log: seq<Sample>, until: nat, w: nat, m: nat) {
    m < w <= |log| && log[m].ts <= until && (m + 1 < w ==> log[m + 1].ts > until)
  }

  ghost predicate NewestThere(r: Ring, log: seq<Sample>, q: Query, w: nat) {
    exists m: nat :: IsNewest(log, q.until, w, m) && StillThere(r, log, q, m)
  }

  /** A record of the window lies above where the walk starts. */
  ghost predicate LeftAbove(r: Ring, log: seq<Sample>, q: Query, start: nat, w: nat) {
    exists l: nat :: start <= l < w && StillThere(r, log, q, l)
  }

  lemma {:induction false} NewestAbove(log: seq<Sample>, until: nat, w: nat, l: nat) returns (m: nat)
    requires l < w <= |log| && log[l].ts <= until
    ensures l <= m && IsNewest(log, until, w, m)
    decreases w - l
  {
    if l + 1 < w && log[l + 1].ts <= until {
      m := NewestAbove(log, until, w, l + 1);
    } else {
      m := l;
    }
  }

  /** What is still there makes everything newer so. */
  lemma NewerIsThere(s: System, q: Query, l: nat, m: nat)
    requires Sound(s) && StillThere(s.ring, s.log, q, l) && l <= m < s.ring.widx && s.log[m].ts <= q.until
    ensures StillThere(s.ring, s.log, q, m)
  {
    if l < m {
      assert s.log[l].ts < s.log[m].ts;
      assert s.ring.Slot(m) == Holds(s.log[m]);
    }
  }

  lemma LastIsNewest(s: System, until: nat, w: nat, m: nat, l: nat)
    requires Sound(s) && IsNewest(s.log, until, w, m) && l < w && s.log[l].ts <= until
    ensures l <= m
  {
  }

  /** The search is over. */
  predicate Walks(k: Walk) {
    k.Reading? || k.Holding? || k.Finished?
  }

  /**
   Once the search has ended, the walk starts below a record of its window exactly when a read
   misled the search and the window's newest record is still there.
   */
  lemma MissedAbove(s: System)
    requires Sound(s) && WalkComplete(s) && Walks(s.walk)
    ensures var k := s.walk;
      LeftAbove(s.ring, s.log, k.q, k.aim.start, k.w) <==> k.aim.misled && NewestThere(s.ring, s.log, k.q, k.w)
  {
    var q, w, aim := s.walk.q, s.walk.w, s.walk.aim;
    if LeftAbove(s.ring, s.log, q, aim.start, w) {
      var l: nat :| aim.start <= l < w && StillThere(s.ring, s.log, q, l);
      var m := NewestAbove(s.log, q.until, w, l);
      NewerIsThere(s, q, l, m);
    }
    if aim.misled && NewestThere(s.ring, s.log, q, w) {
      var m: nat :| IsNewest(s.log, q.until, w, m) && StillThere(s.ring, s.log, q, m);
      LastIsNewest(s, q.until, w, m, aim.start);
    }
  }

  /** What misses records: a search misled, or an append begun on a slot and not written. */
  ghost predicate Misses(s: System)
    requires s.walk.Finished?
  {
    var k := s.walk;
    k.q.max > 0 &&
    ((k.aim.misled && NewestThere(s.ring, s.log, k.q, k.w))
     || (k.stop.Some? && StillThere(s.ring, s.log, k.q, k.stop.value)))
  }

  lemma AboveIsMissed(r: Ring, log: seq<Sample>, q: Query, start: nat, w: nat, taken: seq<Taken>)
    requires LeftAbove(r, log, q, start, w) && AllBelow(taken, start) && q.max > 0
    ensures !Full(r, log, q, w, taken)
  {
    var l: nat :| start <= l < w && StillThere(r, log, q, l);
    assert !Has(taken, l);
    if |taken| == q.max {
      assert !NoneMissed(r, log, q, taken[0].logical, w, taken);
    }
  }

  lemma GaveUpMisses(r: Ring, log: seq<Sample>, q: Query, start: nat, w: nat, taken: seq<Taken>, l: nat)
    requires GaveUp(r, log, q, start, taken, l) && start <= w && !LeftAbove(r, log, q, start, w)
    ensures Full(r, log, q, w, taken) <==> !StillThere(r, log, q, l)
  {
    if !StillThere(r, log, q, l) {
      forall k: nat | k < w && StillThere(r, log, q, k)
        ensures Has(taken, k)
      {
        assert k > l;
      }
    }
  }

  lemma FullToTheEnd(r: Ring, log: seq<Sample>, q: Query, start: nat, w: nat, taken: seq<Taken>)
    requires Full(r, log, q, start, taken) && !LeftAbove(r, log, q, start, w)
    ensures Full(r, log, q, w, taken)
  {
    if !NoneMissed(r, log, q, 0, start, taken) {
      forall i | 0 <= i < |taken|
        ensures NoneMissed(r, log, q, taken[i].logical, w, taken)
      {
        assert NoneMissed(r, log, q, taken[i].logical, start, taken);
      }
    }
  }

  /** A finished walk has all of its window that is still there, or the newest max of it, exactly unless it Misses. */
  lemma CompleteIff(s: System)
    requires Sound(s) && WalkComplete(s) && s.walk.Finished?
    ensures Full(s.ring, s.log, s.walk.q, s.walk.w, s.walk.taken) <==> !Misses(s)
  {
    var r, log, k := s.ring, s.log, s.walk;
    MissedAbove(s);
    if k.q.max == 0 {
      assert |k.taken| == 0;
    } else if LeftAbove(r, log, k.q, k.aim.start, k.w) {
      AboveIsMissed(r, log, k.q, k.aim.start, k.w, k.taken);
    } else if k.stop.Some? {
      GaveUpMisses(r, log, k.q, k.aim.start, k.w, k.taken, k.stop.value);
    } else {
      FullToTheEnd(r, log, k.q, k.aim.start, k.w, k.taken);
    }
  }

  /**
   Through any interleaving of appends, walks, crashes and recoveries, without I/O errors: a
   finished walk has every record of its window, of those indexed when it began, that is still
   in its slot, or the newest max of them, if and only if no read misled its search past the
   newest of them and it did not give up at one for an append that has not written its slot.
   */
  lemma WalkMissesNothing(s: System, steps: seq<Step>)
    requires Sound(s) && s.walk.Resting? && IsRun(s, steps) && IsPromisedRun(s, steps)
    requires ReadSlot(false) !in steps && Probe(false) !in steps
    ensures var e := After(s, steps);
      e.walk.Finished? ==> (Full(e.ring, e.log, e.walk.q, e.walk.w, e.walk.taken) <==> !Misses(e))
  {
    WalkKeepsComplete(s, steps);
    if After(s, steps).walk.Finished? {
      CompleteIff(After(s, steps));
    }
  }

  // ----- Which reads mislead -----

  /** A read of the search whose slot shows a record after until where the log has one that is not. */
  ghost predicate Misleading(s: System, step: Step) {
    && StepEnabled(s, step) && step == Probe(true) && Misleads(s.log, s.walk)
    && s.ring.Slot(s.walk.sr.at).Holds? && s.ring.Slot(s.walk.sr.at).rec.ts > s.walk.q.until
  }

  lemma OwnRecord(s: System, k: nat)
    requires Tied(s) && k < |s.log|
    ensures s.ring.Slot(k).Holds? && |s.log| <= k + s.ring.Cap() ==> s.ring.Slot(k).rec == s.log[k]
  {
    assert |s.log| <= k + s.ring.Cap() ==> SlotTied(s.ring, s.log, k);
  }

  /** Such a slot has been written over since. */
  lemma MisleadingIsLapped(s: System, step: Step)
    requires Sound(s) && Misleading(s, step)
    ensures |s.log| > s.walk.sr.at + s.ring.Cap()
  {
    OwnRecord(s, s.walk.sr.at);
  }

  ghost predicate SomeMisleading(s: System, steps: seq<Step>)
    requires IsRun(s, steps)
    decreases |steps|
  {
    steps != [] && (Misleading(s, steps[0]) || SomeMisleading(Take(s, steps[0]), steps[1..]))
  }

  /** The steps of one query: no other begins, and nothing crashes. */
  predicate OneQuery(steps: seq<Step>) {
    forall i :: 0 <= i < |steps| ==> !steps[i].StartWalk? && !steps[i].Crash?
  }

  predicate Misled(k: Walk) {
    if k.Searching? then k.sr.misled else Walks(k) && k.aim.misled
  }

  lemma SearchHeadMisled(cap: nat, q: Query, w: nat, end: nat, lo: nat, hi: nat, misled: bool)
    ensures var k := SearchHead(cap, q, w, end, lo, hi, misled); Misled(k) == misled && (k.Searching? || Walks(k))
  {
  }

  lemma ProbeMisleads(s: System, k: Walk)
    requires k.Searching? && s.walk == k && s.ring.Cap() > 0
    ensures Misled(Probed(s.ring, s.log, k, true)) <==> k.sr.misled || Misleading(s, Probe(true))
    ensures !Probed(s.ring, s.log, k, true).Resting?
  {
    var cap, sr := s.ring.Cap(), k.sr;
    SearchHeadMisled(cap, k.q, k.w, sr.end, sr.mid + 1, sr.hi, sr.misled);
    SearchHeadMisled(cap, k.q, k.w, sr.end, sr.lo, sr.mid, sr.misled);
    SearchHeadMisled(cap, k.q, k.w, sr.end, sr.lo, sr.mid, sr.misled || Misleads(s.log, k));
  }

  lemma StepMisleads(s: System, step: Step)
    requires !s.walk.Resting? && StepEnabled(s, step) && !step.StartWalk? && !step.Crash? && step != Probe(false)
    ensures Misled(Take(s, step).walk) <==> Misled(s.walk) || Misleading(s, step)
    ensures !Take(s, step).walk.Resting?
  {
    match step
    case Probe(_) => ProbeMisleads(s, s.walk);
    case OpenReader =>
      var end, cap := s.ring.widx, s.ring.Cap();
      SearchHeadMisled(cap, s.walk.q, s.walk.w, end, Floor(cap, end), end, false);
    case _ =>
  }

  lemma {:induction false} MisledByRead(s: System, steps: seq<Step>)
    requires Sound(s) && !s.walk.Resting? && IsRun(s, steps) && IsPromisedRun(s, steps)
    requires OneQuery(steps) && Probe(false) !in steps
    ensures Misled(After(s, steps).walk) <==> Misled(s.walk) || SomeMisleading(s, steps)
    decreases |steps|
  {
    if steps != [] {
      StepMisleads(s, steps[0]);
      StepKeepsSound(s, steps[0]);
      MisledByRead(Take(s, steps[0]), steps[1..]);
    }
  }

  /**
   From the opening of a bounded query to any point of its walk: it starts below a record of
   its window still in its slot if and only if some read of the search showed a record after
   until in the slot of one that is not, and the window's newest record is still there.
   */
  lemma SearchMissesIff(s: System, steps: seq<Step>)
    requires Sound(s) && s.walk.Opening? && Bounded(s.walk.q) && IsRun(s, steps) && IsPromisedRun(s, steps)
    requires OneQuery(steps) && ReadSlot(false) !in steps && Probe(false) !in steps
    ensures var e := After(s, steps); Walks(e.walk) ==>
      (LeftAbove(e.ring, e.log, e.walk.q, e.walk.aim.start, e.walk.w)
       <==> SomeMisleading(s, steps) && NewestThere(e.ring, e.log, e.walk.q, e.walk.w))
  {
    WalkKeepsComplete(s, steps);
    MisledByRead(s, steps);
    if Walks(After(s, steps).walk) {
      MissedAbove(After(s, steps));
    }
  }

  // ----- The failing run -----

  /** n records stamped 1, 2, ... */
  function Stamps(n: nat): (log: seq<Sample>)
    ensures |log| == n && forall i :: 0 <= i < n ==> log[i] == Sample(i + 1, L3, false, {}, {}, false, map[])
  {
    seq(n, i requires 0 <= i < n => Sample(i + 1, L3, false, {}, {}, false, map[]))
  }

  lemma StampsStamped(n: nat)
    ensures Stamped(1, Stamps(n))
  {
  }

  /** A ring of five after n appends, at rest but for the walk. */
  function Five(n: nat, walk: Walk): System
    requires 5 <= n <= 10
  {
    System(Ring(1, seq(5, j requires 0 <= j < 5 => Holds(Stamps(n)[if j + 5 < n then j + 5 else j])), n, n, n, Idle), Stamps(n), walk)
  }

  lemma FiveSlots(n: nat, walk: Walk, l: nat)
    requires 5 <= n <= 10 && l < n <= l + 5
    ensures Five(n, walk).ring.Slot(l) == Holds(Stamps(n)[l])
  {
    assert l % 5 == if l < 5 then l else l - 5;
  }

  lemma FiveIsSound(n: nat)
    requires 5 <= n <= 10
    ensures Sound(Five(n, Resting))
  {
    var s := Five(n, Resting);
    StampsStamped(n);
    forall l: nat | l < n <= l + 5
      ensures s.ring.Slot(l) == Holds(s.log[l])
    {
      FiveSlots(n, Resting, l);
    }
  }

  /** A promised run without I/O errors that ends in a state. */
  ghost predicate Leads(s: System, steps: seq<Step>, e: System) {
    && IsRun(s, steps) && IsPromisedRun(s, steps) && After(s, steps) == e
    && ReadSlot(false) !in steps && Probe(false) !in steps
  }

  lemma Before(s: System, step: Step, rest: seq<Step>, e: System)
    requires StepEnabled(s, step) && Promised(s, step) && !step.Crash? && Leads(Take(s, step), rest, e)
    requires step != ReadSlot(false) && step != Probe(false)
    ensures Leads(s, [step] + rest, e)
  {
    var all := [step] + rest;
    assert all[0] == step && all[1..] == rest;
  }

  function OneAppend(n: nat, rest: seq<Step>): seq<Step> {
    [Writer(BeginAppend(Stamps(n + 1)[n]))] + ([Writer(Place)] + ([Writer(StoreHeader)] + ([Writer(StoreIndex)] + rest)))
  }

  lemma FiveStored(n: nat, walk: Walk)
    requires 5 <= n < 10
    ensures Five(n, walk).ring.Put(n, Holds(Stamps(n + 1)[n])).slots == Five(n + 1, walk).ring.slots
    ensures Stamps(n) + [Stamps(n + 1)[n]] == Stamps(n + 1)
  {
    assert n % 5 == n - 5;
  }

  /** One append is four steps, each as promised. */
  lemma FiveAppends(n: nat, walk: Walk, rest: seq<Step>, e: System)
    requires 5 <= n < 10 && Leads(Five(n + 1, walk), rest, e)
    ensures Leads(Five(n, walk), OneAppend(n, rest), e)
  {
    var s, rec := Five(n, walk), Stamps(n + 1)[n];
    FiveStored(n, walk);
    StampsStamped(n + 1);
    var s1 := Take(s, Writer(BeginAppend(rec)));
    var s2 := Take(s1, Writer(Place));
    var s3 := Take(s2, Writer(StoreHeader));
    assert Take(s3, Writer(StoreIndex)) == Five(n + 1, walk);
    Before(s3, Writer(StoreIndex), rest, e);
    Before(s2, Writer(StoreHeader), [Writer(StoreIndex)] + rest, e);
    Before(s1, Writer(Place), [Writer(StoreHeader)] + ([Writer(StoreIndex)] + rest), e);
    Before(s, Writer(BeginAppend(rec)), [Writer(Place)] + ([Writer(StoreHeader)] + ([Writer(StoreIndex)] + rest)), e);
  }

  const LAST_FIVE: Query := Query(1, 5, 100, 0)

  function AtMid(hi: nat, misled: bool): Walk {
    Searching(LAST_FIVE, 5, Search(5, 0, hi, hi / 2, hi / 2, misled))
  }

  /** Eight records in five slots: what a probe of slot k shows is past until for k < 3. */
  lemma FiveProbed(hi: nat, misled: bool)
    requires hi == 5 || hi == 2 || hi == 1
    ensures var s := Five(8, AtMid(hi, misled));
      StepEnabled(s, Probe(true)) &&
      Take(s, Probe(true)) == Five(8, if hi == 1 then Finished(LAST_FIVE, 5, Aim(0, true), [], None) else AtMid(hi / 2, true))
  {
    var s := Five(8, AtMid(hi, misled));
    assert s.ring.Slot(hi / 2) == Holds(Stamps(8)[hi / 2 + 5]);
  }

  function Empty(): System {
    Five(8, Finished(LAST_FIVE, 5, Aim(0, true), [], None))
  }

  const THREE_PROBES: seq<Step> := [Probe(true)] + ([Probe(true)] + ([Probe(true)] + []))

  lemma ProbesFind()
    ensures Leads(Five(8, AtMid(5, false)), THREE_PROBES, Empty())
  {
    var p := Probe(true);
    FiveProbed(1, true);
    Before(Five(8, AtMid(1, true)), p, [], Empty());
    FiveProbed(2, true);
    Before(Five(8, AtMid(2, true)), p, [p] + [], Empty());
    FiveProbed(5, false);
    Before(Five(8, AtMid(5, false)), p, [p] + ([p] + []), Empty());
  }

  lemma FiveOpens(rest: seq<Step>, e: System)
    requires Leads(Five(5, AtMid(5, false)), rest, e)
    ensures Leads(Five(5, Resting), [StartWalk(LAST_FIVE)] + ([OpenReader] + rest), e)
  {
    Before(Five(5, Opening(LAST_FIVE, 5)), OpenReader, rest, e);
    Before(Five(5, Resting), StartWalk(LAST_FIVE), [OpenReader] + rest, e);
  }

  /**
   A full ring of five, the newest of its records asked for by its own stamp, and three appends
   between the reader's opening and its search: the answer is empty, the record still there.
   */
  lemma SearchOvertaken() returns (s: System, steps: seq<Step>, e: System)
    ensures Sound(s) && s.walk.Resting? && Leads(s, steps, e)
    ensures e.walk.Finished? && e.walk.taken == [] && e.walk.w == 5 && StillThere(e.ring, e.log, e.walk.q, 4)
  {
    s, e := Five(5, Resting), Empty();
    FiveIsSound(5);
    ProbesFind();
    steps := THREE_PROBES;
    FiveAppends(7, AtMid(5, false), steps, e);
    steps := OneAppend(7, steps);
    FiveAppends(6, AtMid(5, false), steps, e);
    steps := OneAppend(6, steps);
    FiveAppends(5, AtMid(5, false), steps, e);
    steps := OneAppend(5, steps);
    FiveOpens(steps, e);
    steps := [StartWalk(LAST_FIVE)] + ([OpenReader] + steps);
    FiveSlots(8, e.walk, 4);
  }

  // ----- The other failing run: the append that fails -----

  const ALL: Query := Query(0, 0, 100, 0)

  function RecordOf(n: nat): Sample {
    Sample(n + 1, L3, false, {}, {}, false, map[])
  }

  /** A ring of two with both its records, an append on it or not. */
  function Two(walk: Walk, begun: bool): System {
    System(
      Ring(1, [Holds(RecordOf(0)), Holds(RecordOf(1))], 2, 2, if begun then 3 else 2, if begun then Begun(RecordOf(2)) else Idle),
      [RecordOf(0), RecordOf(1)], walk)
  }

  function TookOne(): seq<Taken> {
    [Taken(1, RecordOf(1))]
  }

  function GaveUpAtZero(): System {
    Two(Finished(ALL, 2, Aim(2, false), TookOne(), Some(0)), false)
  }

  lemma TwoEnds()
    ensures var held := Two(Holding(ALL, 2, Aim(2, false), 1, 0, TookOne(), Holds(RecordOf(0))), false);
      Leads(held, [Writer(BeginAppend(RecordOf(2)))] + ([CheckSlot] + ([Writer(FailWrite)] + [])), GaveUpAtZero())
  {
    var k := Holding(ALL, 2, Aim(2, false), 1, 0, TookOne(), Holds(RecordOf(0)));
    var over := Finished(ALL, 2, Aim(2, false), TookOne(), Some(0));
    assert Take(Two(over, true), Writer(FailWrite)) == GaveUpAtZero();
    Before(Two(over, true), Writer(FailWrite), [], GaveUpAtZero());
    assert Take(Two(k, true), CheckSlot) == Two(over, true);
    Before(Two(k, true), CheckSlot, [Writer(FailWrite)] + [], GaveUpAtZero());
    assert Take(Two(k, false), Writer(BeginAppend(RecordOf(2)))) == Two(k, true);
    Before(Two(k, false), Writer(BeginAppend(RecordOf(2))), [CheckSlot] + ([Writer(FailWrite)] + []), GaveUpAtZero());
  }

  lemma TwoBegins(rest: seq<Step>, e: System)
    requires Leads(Two(Holding(ALL, 2, Aim(2, false), 1, 0, TookOne(), Holds(RecordOf(0))), false), rest, e)
    ensures Leads(Two(Resting, false), [StartWalk(ALL)] + ([ReadSlot(true)] + ([CheckSlot] + ([ReadSlot(true)] + rest))), e)
  {
    var aim := Aim(2, false);
    var k1, k2 := Reading(ALL, 2, aim, 2, 0, []), Holding(ALL, 2, aim, 2, 0, [], Holds(RecordOf(1)));
    var k3, k4 := Reading(ALL, 2, aim, 1, 0, TookOne()), Holding(ALL, 2, aim, 1, 0, TookOne(), Holds(RecordOf(0)));
    assert Take(Two(k3, false), ReadSlot(true)) == Two(k4, false);
    Before(Two(k3, false), ReadSlot(true), rest, e);
    assert Take(Two(k2, false), CheckSlot) == Two(k3, false);
    Before(Two(k2, false), CheckSlot, [ReadSlot(true)] + rest, e);
    assert Take(Two(k1, false), ReadSlot(true)) == Two(k2, false);
    Before(Two(k1, false), ReadSlot(true), [CheckSlot] + ([ReadSlot(true)] + rest), e);
    assert Take(Two(Resting, false), StartWalk(ALL)) == Two(k1, false);
    Before(Two(Resting, false), StartWalk(ALL), [ReadSlot(true)] + ([CheckSlot] + ([ReadSlot(true)] + rest)), e);
  }

  lemma TwoIsSound()
    ensures Sound(Two(Resting, false))
    ensures forall l: nat :: l < 2 ==> Two(Resting, false).ring.Slot(l) == Holds(RecordOf(l))
  {
    var s := Two(Resting, false);
    assert forall l: nat :: l < 2 ==> s.ring.Slot(l) == Holds(s.log[l]);
  }

  /**
   A ring of two, everything asked for, and an append begun and failed while the walk held the
   oldest record: the ring is as it was, and that record is missed.
   */
  lemma FailedAppendHides() returns (s: System, steps: seq<Step>, e: System)
    ensures Sound(s) && s.walk.Resting? && Leads(s, steps, e) && e.ring == s.ring && e.log == s.log
    ensures e.walk.Finished? && StillThere(e.ring, e.log, e.walk.q, 0) && |e.walk.taken| == 1 < e.walk.q.max
    ensures !Has(e.walk.taken, 0)
  {
    s, e := Two(Resting, false), GaveUpAtZero();
    TwoIsSound();
    TwoEnds();
    steps := [Writer(BeginAppend(RecordOf(2)))] + ([CheckSlot] + ([Writer(FailWrite)] + []));
    TwoBegins(steps, e);
    steps := [StartWalk(ALL)] + ([ReadSlot(true)] + ([CheckSlot] + ([ReadSlot(true)] + steps)));
  }
}
