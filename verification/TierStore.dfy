/**
 TierManager::store and its fold windows: every sample goes to its own ring and, folded
 with its neighbours, to the coarser ones. A ring is here the log of what was appended.
 */
module TierStore {
  import opened Samples
  import opened Aggregator

  /** A window once folded: its samples, and whether the record was written. */
  datatype Batch = Batch(samples: seq<Sample>, written: bool)

  /** A coarse ring with its fold window: span is the window's length, 0 for no folding. */
  datatype Coarse = Coarse(level: nat, span: nat, open: seq<Sample>, done: seq<Batch>, log: seq<Sample>)

  /** Writes the open window, if there is one; it is gone whether or not the write succeeds. */
  function Flushed(c: Coarse, ok: bool): Coarse {
    if c.open == [] then c
    else
      c.(open := [], done := c.done + [Batch(c.open, ok)],
         log := if ok then c.log + [Record(c.open, c.level)] else c.log)
  }

  function Record(ws: seq<Sample>, level: nat): Sample {
    Folded(Accumulated(ws), level)
  }

  /** The sample does not belong in the open window: past its end, or before its start. */
  predicate Outside(c: Coarse, s: Sample) {
    c.open != [] && (s.ts < c.open[0].ts || s.ts - c.open[0].ts >= c.span)
  }

  function Fed(c: Coarse, s: Sample, ok: bool): Coarse {
    if c.span == 0 then c
    else
      var c' := if Outside(c, s) then Flushed(c, ok) else c;
      c'.(open := c'.open + [s])
  }

  function Direct(c: Coarse, s: Sample, ok: bool): Coarse {
    if ok then c.(log := c.log + [s]) else c
  }

  // ----- What happens to one coarse ring -----

  /** A finer sample, a sample of the ring's own level, or the window's end for another reason. */
  datatype Op =
    | Feed(s: Sample, ok: bool)
    | Own(s: Sample, folded: bool, ok: bool)
    | Flush(ok: bool)

  /** The op ends an open window, so that a folded record is written. */
  predicate Attempts(c: Coarse, op: Op) {
    match op
    case Feed(s, _) => c.span > 0 && Outside(c, s)
    case _ => c.open != []
  }

  function Applied(c: Coarse, op: Op): Coarse {
    match op
    case Feed(s, ok) => Fed(c, s, ok)
    case Own(s, folded, ok) => Direct(Flushed(c, folded), s, ok)
    case Flush(ok) => Flushed(c, ok)
  }

  function Ran(c: Coarse, ops: seq<Op>): Coarse {
    if ops == [] then c else Applied(Ran(c, ops[..|ops| - 1]), ops[|ops| - 1])
  }

  /** The finer samples, in order. */
  function Finer(ops: seq<Op>): seq<Sample> {
    if ops == [] then []
    else Finer(ops[..|ops| - 1]) + FinerOf(ops[|ops| - 1])
  }

  function Batched(done: seq<Batch>): seq<Sample> {
    if done == [] then [] else Batched(done[..|done| - 1]) + done[|done| - 1].samples
  }

  function NewRing(level: nat, span: nat): Coarse {
    Coarse(level, span, [], [], [])
  }

  /** The samples of the folded windows and of the open one. */
  function Taken(c: Coarse): seq<Sample> {
    Batched(c.done) + c.open
  }

  function FinerOf(op: Op): seq<Sample> {
    if op.Feed? then [op.s] else []
  }

  lemma FlushTakes(c: Coarse, ok: bool)
    ensures Taken(Flushed(c, ok)) == Taken(c) && Flushed(c, ok).span == c.span
  {
    if c.open != [] {
      var done := c.done + [Batch(c.open, ok)];
      assert done[..|done| - 1] == c.done;
      assert Batched(done) == Batched(c.done) + c.open;
    }
  }

  lemma OpenTakes(c: Coarse, s: Sample)
    ensures Taken(c.(open := c.open + [s])) == Taken(c) + [s]
  {
    assert Batched(c.done) + (c.open + [s]) == Batched(c.done) + c.open + [s];
  }

  lemma OpTakes(c: Coarse, op: Op)
    requires c.span > 0
    ensures Taken(Applied(c, op)) == Taken(c) + FinerOf(op) && Applied(c, op).span == c.span
  {
    match op
    case Feed(s, ok) =>
      FlushTakes(c, ok);
      OpenTakes(c, s);
      OpenTakes(Flushed(c, ok), s);
    case Own(s, folded, ok) => FlushTakes(c, folded);
    case Flush(ok) => FlushTakes(c, ok);
  }

  /** Every finer sample is in exactly one window that was folded or in the open one, in the order they came. */
  lemma {:induction false} WindowsTakeAll(c: Coarse, ops: seq<Op>)
    requires c.open == [] && c.done == [] && c.span > 0
    ensures Taken(Ran(c, ops)) == Finer(ops) && Ran(c, ops).span == c.span
  {
    if ops != [] {
      WindowsTakeAll(c, ops[..|ops| - 1]);
      OpTakes(Ran(c, ops[..|ops| - 1]), ops[|ops| - 1]);
    }
  }

  // ----- The records in the log -----

  function FoldedOf(log: seq<Sample>): seq<Sample> {
    if log == [] then []
    else
      var r, s := FoldedOf(log[..|log| - 1]), log[|log| - 1];
      if s.folded then r + [s] else r
  }

  function DirectOf(log: seq<Sample>): seq<Sample> {
    if log == [] then []
    else
      var r, s := DirectOf(log[..|log| - 1]), log[|log| - 1];
      if s.folded then r else r + [s]
  }

  lemma OneMoreInLog(log: seq<Sample>, s: Sample)
    ensures FoldedOf(log + [s]) == if s.folded then FoldedOf(log) + [s] else FoldedOf(log)
    ensures DirectOf(log + [s]) == if s.folded then DirectOf(log) else DirectOf(log) + [s]
  {
    assert (log + [s])[..|log|] == log;
  }

  /** The records of the windows whose write succeeded. */
  function Records(done: seq<Batch>, level: nat): seq<Sample> {
    if done == [] then []
    else
      var r, b := Records(done[..|done| - 1], level), done[|done| - 1];
      if b.written then r + [Record(b.samples, level)] else r
  }

  /** The samples of the ring's own level whose write succeeded. */
  function Owned(ops: seq<Op>): seq<Sample> {
    if ops == [] then []
    else Owned(ops[..|ops| - 1]) + OwnedOf(ops[|ops| - 1])
  }

  /** Samples come from the collectors: none is a folded record. */
  ghost predicate Collected(ops: seq<Op>) {
    forall i :: 0 <= i < |ops| && ops[i].Own? ==> !ops[i].s.folded
  }

  lemma FlushKeepsLog(c: Coarse, ok: bool)
    requires LogTells(c)
    ensures LogTells(Flushed(c, ok)) && DirectOf(Flushed(c, ok).log) == DirectOf(c.log)
  {
    if c.open != [] {
      var done := c.done + [Batch(c.open, ok)];
      assert done[..|done| - 1] == c.done;
      OneMoreInLog(c.log, Record(c.open, c.level));
    }
  }

  function OwnedOf(op: Op): seq<Sample> {
    if op.Own? && op.ok then [op.s] else []
  }

  /** The folded records of the log are those of the windows written. */
  ghost predicate LogTells(c: Coarse) {
    FoldedOf(c.log) == Records(c.done, c.level)
  }

  lemma DirectKeepsLog(c: Coarse, s: Sample, ok: bool)
    requires LogTells(c) && !s.folded
    ensures LogTells(Direct(c, s, ok)) && DirectOf(Direct(c, s, ok).log) == DirectOf(c.log) + if ok then [s] else []
  {
    OneMoreInLog(c.log, s);
  }

  /** A ring's log as it was, whatever became of its open window. */
  ghost predicate LogKept(c: Coarse, d: Coarse, more: seq<Sample>) {
    LogTells(d) && d.level == c.level && DirectOf(d.log) == DirectOf(c.log) + more
  }

  lemma OpenMoreKeepsLog(c: Coarse, d: Coarse, s: Sample)
    requires LogKept(c, d, [])
    ensures LogKept(c, d.(open := d.open + [s]), [])
  {
  }

  lemma FlushedIsKept(c: Coarse, ok: bool)
    requires LogTells(c)
    ensures LogKept(c, Flushed(c, ok), [])
  {
    FlushKeepsLog(c, ok);
  }

  lemma FeedKeepsLog(c: Coarse, s: Sample, ok: bool)
    requires LogTells(c)
    ensures LogKept(c, Fed(c, s, ok), [])
  {
    if c.span > 0 {
      if Outside(c, s) {
        FlushedIsKept(c, ok);
        OpenMoreKeepsLog(c, Flushed(c, ok), s);
      } else {
        OpenMoreKeepsLog(c, c, s);
      }
    }
  }

  lemma DirectIsKept(c: Coarse, d: Coarse, s: Sample, ok: bool)
    requires LogKept(c, d, []) && !s.folded
    ensures LogKept(c, Direct(d, s, ok), if ok then [s] else [])
  {
    DirectKeepsLog(d, s, ok);
  }

  lemma OpKeepsLog(c: Coarse, op: Op)
    requires LogTells(c) && (op.Own? ==> !op.s.folded)
    ensures LogKept(c, Applied(c, op), OwnedOf(op))
  {
    match op
    case Feed(s, ok) => FeedKeepsLog(c, s, ok);
    case Flush(ok) => FlushedIsKept(c, ok);
    case Own(s, folded, ok) =>
      FlushedIsKept(c, folded);
      DirectIsKept(c, Flushed(c, folded), s, ok);
  }

  /** The log is the direct samples and, of every window written, its record: nothing else, both in order. */
  lemma {:induction false} LogIs(c: Coarse, ops: seq<Op>)
    requires c == NewRing(c.level, c.span) && Collected(ops)
    ensures var r := Ran(c, ops);
      FoldedOf(r.log) == Records(r.done, c.level) && DirectOf(r.log) == Owned(ops) && r.level == c.level
  {
    if ops != [] {
      var before, op := ops[..|ops| - 1], ops[|ops| - 1];
      LogIs(c, before);
      OpKeepsLog(Ran(c, before), op);
    }
  }

  /** A window's samples all fall within its length from its first. */
  ghost predicate InSpan(ws: seq<Sample>, span: nat) {
    forall i :: 0 <= i < |ws| ==> ws[0].ts <= ws[i].ts < ws[0].ts + span
  }

  ghost predicate AllInSpan(c: Coarse) {
    InSpan(c.open, c.span) && forall k :: 0 <= k < |c.done| ==> c.done[k].samples != [] && InSpan(c.done[k].samples, c.span)
  }

  lemma OpKeepsSpan(c: Coarse, op: Op)
    requires AllInSpan(c)
    ensures AllInSpan(Applied(c, op))
  {
  }

  /** Whatever the clock does. */
  lemma {:induction false} WindowsInSpan(c: Coarse, ops: seq<Op>)
    requires AllInSpan(c)
    ensures AllInSpan(Ran(c, ops))
  {
    if ops != [] {
      WindowsInSpan(c, ops[..|ops| - 1]);
      OpKeepsSpan(Ran(c, ops[..|ops| - 1]), ops[|ops| - 1]);
    }
  }

  /** x does not fall within span of the first sample of w. */
  ghost predicate Misses(w: seq<Sample>, x: Sample, span: nat) {
    w == [] || !(w[0].ts <= x.ts < w[0].ts + span)
  }

  /** No window ended before a sample came that does not belong in it. */
  ghost predicate EndedLate(c: Coarse) {
    && (forall k :: 0 <= k < |c.done| ==> c.done[k].samples != [])
    && (forall k :: 0 < k < |c.done| ==> Misses(c.done[k - 1].samples, c.done[k].samples[0], c.span))
    && (c.done != [] ==> c.open != [] && Misses(c.done[|c.done| - 1].samples, c.open[0], c.span))
  }

  lemma FeedEndsLate(c: Coarse, s: Sample, ok: bool)
    requires EndedLate(c) && c.span > 0
    ensures EndedLate(Fed(c, s, ok))
  {
  }

  /** While only finer samples come, a window is never ended early: it takes all that fall within its length. */
  lemma {:induction false} WindowsTakeMost(c: Coarse, ops: seq<Op>)
    requires c == NewRing(c.level, c.span) && c.span > 0 && forall i :: 0 <= i < |ops| ==> ops[i].Feed?
    ensures EndedLate(Ran(c, ops)) && Ran(c, ops).span == c.span
  {
    if ops != [] {
      var before := ops[..|ops| - 1];
      WindowsTakeMost(c, before);
      FeedEndsLate(Ran(c, before), ops[|ops| - 1].s, ops[|ops| - 1].ok);
      SpanKept(c, ops);
    }
  }

  // ----- With stamps strictly increasing -----

  ghost predicate Rising(xs: seq<Sample>) {
    forall i, j :: 0 <= i < j < |xs| ==> xs[i].ts < xs[j].ts
  }

  /** The log rises, the open window rises past it, and both stop short of now. */
  ghost predicate Behind(c: Coarse, now: nat) {
    && Rising(c.log + c.open)
    && (forall i :: 0 <= i < |c.log| ==> c.log[i].ts < now)
    && (forall i :: 0 <= i < |c.open| ==> c.open[i].ts < now)
    && forall k :: 0 <= k < |c.done| ==> Rising(c.done[k].samples)
  }

  lemma RisingMore(xs: seq<Sample>, s: Sample)
    requires Rising(xs) && forall i :: 0 <= i < |xs| ==> xs[i].ts < s.ts
    ensures Rising(xs + [s])
  {
  }

  lemma RisingParts(xs: seq<Sample>, ys: seq<Sample>)
    requires Rising(xs + ys)
    ensures Rising(xs) && Rising(ys)
    ensures forall i, j :: 0 <= i < |xs| && 0 <= j < |ys| ==> xs[i].ts < ys[j].ts
  {
    var all := xs + ys;
    forall i, j | 0 <= i < j < |xs|
      ensures xs[i].ts < xs[j].ts
    {
      assert all[i].ts < all[j].ts;
    }
    forall i, j | 0 <= i < j < |ys|
      ensures ys[i].ts < ys[j].ts
    {
      assert all[|xs| + i].ts < all[|xs| + j].ts;
    }
    forall i, j | 0 <= i < |xs| && 0 <= j < |ys|
      ensures xs[i].ts < ys[j].ts
    {
      assert all[i].ts < all[|xs| + j].ts;
    }
  }

  lemma FlushKeepsBehind(c: Coarse, ok: bool, now: nat)
    requires Behind(c, now)
    ensures Behind(Flushed(c, ok), now)
  {
    if c.open != [] {
      RisingParts(c.log, c.open);
      RisingMore(c.log, Record(c.open, c.level));
      assert Flushed(c, ok).log + [] == Flushed(c, ok).log;
    }
  }

  /** A finer sample stamped now joins the window; everything is then behind any later stamp. */
  lemma FeedKeepsBehind(c: Coarse, s: Sample, ok: bool)
    requires Behind(c, s.ts)
    ensures Behind(Fed(c, s, ok), s.ts + 1)
  {
    FlushKeepsBehind(c, ok, s.ts);
    var c' := if Outside(c, s) then Flushed(c, ok) else c;
    RisingMore(c'.log + c'.open, s);
    assert c'.log + (c'.open + [s]) == c'.log + c'.open + [s];
  }

  lemma OwnKeepsBehind(c: Coarse, s: Sample, folded: bool, ok: bool)
    requires Behind(c, s.ts)
    ensures Behind(Direct(Flushed(c, folded), s, ok), s.ts + 1)
  {
    FlushKeepsBehind(c, folded, s.ts);
    var c' := Flushed(c, folded);
    assert c'.log + c'.open == c'.log;
    RisingMore(c'.log, s);
    assert c'.log + [s] + c'.open == c'.log + [s];
  }

  /** One op stamped now moves everything behind any later stamp. */
  lemma OpKeepsBehind(c: Coarse, op: Op, now: nat)
    requires Behind(c, now) && (op.Feed? || op.Own? ==> op.s.ts == now)
    ensures Behind(Applied(c, op), now + 1)
  {
    match op
    case Feed(s, ok) => FeedKeepsBehind(c, s, ok);
    case Own(s, folded, ok) => OwnKeepsBehind(c, s, folded, ok);
    case Flush(ok) => FlushKeepsBehind(c, ok, now);
  }

  /** The stamps of the ops rise. */
  ghost predicate OpsRise(ops: seq<Op>, now: nat) {
    ops == [] ||
    (var op := ops[|ops| - 1];
     if op.Flush? then OpsRise(ops[..|ops| - 1], now)
     else op.s.ts < now && OpsRise(ops[..|ops| - 1], op.s.ts))
  }

  /** Each ring's log strictly rises across direct and folded records, failed writes or not. */
  lemma {:induction false} LogRises(c: Coarse, ops: seq<Op>, now: nat)
    requires c == NewRing(c.level, c.span) && OpsRise(ops, now)
    ensures Behind(Ran(c, ops), now)
  {
    if ops != [] {
      var before, op := ops[..|ops| - 1], ops[|ops| - 1];
      if op.Flush? {
        LogRises(c, before, now);
        FlushKeepsBehind(Ran(c, before), op.ok, now);
      } else {
        LogRises(c, before, op.s.ts);
        OpKeepsBehind(Ran(c, before), op, op.s.ts);
      }
    }
  }

  /** Every write of a folded record succeeds. */
  ghost predicate AllWritten(ops: seq<Op>) {
    forall i :: 0 <= i < |ops| ==>
      match ops[i]
      case Feed(_, ok) => ok
      case Own(_, folded, _) => folded
      case Flush(ok) => ok
  }

  lemma {:induction false} WrittenAll(c: Coarse, ops: seq<Op>)
    requires c.done == [] && AllWritten(ops)
    ensures forall k :: 0 <= k < |Ran(c, ops).done| ==> Ran(c, ops).done[k].written
  {
    if ops != [] {
      WrittenAll(c, ops[..|ops| - 1]);
    }
  }

  function Windows(done: seq<Batch>): (ws: seq<seq<Sample>>)
    ensures |ws| == |done| && forall k :: 0 <= k < |ws| ==> ws[k] == done[k].samples
  {
    seq(|done|, k requires 0 <= k < |done| => done[k].samples)
  }

  function Joined(ws: seq<seq<Sample>>): seq<Sample> {
    if ws == [] then [] else Joined(ws[..|ws| - 1]) + ws[|ws| - 1]
  }

  lemma {:induction false} JoinedIsBatched(done: seq<Batch>)
    ensures Joined(Windows(done)) == Batched(done)
  {
    if done != [] {
      JoinedIsBatched(done[..|done| - 1]);
      assert Windows(done)[..|done| - 1] == Windows(done[..|done| - 1]);
    }
  }

  lemma {:induction false} RecordsOfWindows(done: seq<Batch>, level: nat)
    requires forall k :: 0 <= k < |done| ==> done[k].written
    ensures |Records(done, level)| == |done|
    ensures forall k :: 0 <= k < |done| ==> Records(done, level)[k] == Record(done[k].samples, level)
  {
    if done != [] {
      var n := |done| - 1;
      RecordsOfWindows(done[..n], level);
      LastRecord(Records(done[..n], level), done, level);
    }
  }

  lemma LastRecord(before: seq<Sample>, done: seq<Batch>, level: nat)
    requires done != [] && |before| == |done| - 1
    requires forall k :: 0 <= k < |before| ==> before[k] == Record(done[..|done| - 1][k].samples, level)
    ensures var all := before + [Record(done[|done| - 1].samples, level)];
      forall k :: 0 <= k < |done| ==> all[k] == Record(done[k].samples, level)
  {
    var n, rec := |done| - 1, Record(done[|done| - 1].samples, level);
    forall k | 0 <= k < n
      ensures (before + [rec])[k] == Record(done[k].samples, level)
    {
      assert done[..n][k] == done[k];
    }
  }

  /** The sample lies in the window of length span that ends at ts. */
  predicate LiesIn(s: Sample, ts: nat, span: nat) {
    s.ts <= ts < s.ts + span
  }

  /** The folded records of the log are those of the windows, which with the open one hold every finer sample once. */
  ghost predicate Folds(c: Coarse, finer: seq<Sample>, windows: seq<seq<Sample>>) {
    && Joined(windows) + c.open == finer && |windows| == |FoldedOf(c.log)|
    && forall k :: 0 <= k < |windows| ==> windows[k] != [] && FoldedOf(c.log)[k] == Record(windows[k], c.level)
  }

  ghost predicate EachLiesIn(c: Coarse, windows: seq<seq<Sample>>)
    requires |windows| == |FoldedOf(c.log)|
  {
    forall k, i :: 0 <= k < |windows| && 0 <= i < |windows[k]| ==> LiesIn(windows[k][i], FoldedOf(c.log)[k].ts, c.span)
  }

  /**
   With writes succeeding: every finer sample is in exactly one folded record of the log or in
   the open window, in the order they came.
   */
  lemma EverySampleOnce(c: Coarse, ops: seq<Op>) returns (windows: seq<seq<Sample>>)
    requires c == NewRing(c.level, c.span) && c.span > 0 && Collected(ops) && AllWritten(ops)
    ensures windows == Windows(Ran(c, ops).done) && Folds(Ran(c, ops), Finer(ops), windows)
  {
    var r := Ran(c, ops);
    windows := Windows(r.done);
    WindowsTakeAll(c, ops);
    LogIs(c, ops);
    WrittenAll(c, ops);
    RecordsOfWindows(r.done, c.level);
    JoinedIsBatched(r.done);
    WindowsInSpan(c, ops);
  }

  lemma WindowOfRecord(ws: seq<Sample>, level: nat, span: nat, i: nat)
    requires Rising(ws) && InSpan(ws, span) && i < |ws|
    ensures LiesIn(ws[i], Record(ws, level).ts, span)
  {
    assert Record(ws, level).ts == ws[|ws| - 1].ts;
    assert ws[0].ts <= ws[|ws| - 1].ts < ws[0].ts + span;
    if i < |ws| - 1 {
      assert ws[i].ts < ws[|ws| - 1].ts;
    }
  }

  /** And with rising stamps each lies in the window that ends at its record's stamp. */
  lemma FoldedWindow(c: Coarse, ops: seq<Op>, now: nat) returns (windows: seq<seq<Sample>>)
    requires c == NewRing(c.level, c.span) && c.span > 0 && Collected(ops) && AllWritten(ops) && OpsRise(ops, now)
    ensures Folds(Ran(c, ops), Finer(ops), windows) && EachLiesIn(Ran(c, ops), windows)
  {
    windows := EverySampleOnce(c, ops);
    LogRises(c, ops, now);
    WindowsInSpan(c, ops);
    SpanKept(c, ops);
    var r := Ran(c, ops);
    forall k, i | 0 <= k < |windows| && 0 <= i < |windows[k]|
      ensures LiesIn(windows[k][i], FoldedOf(r.log)[k].ts, c.span)
    {
      WindowOfRecord(r.done[k].samples, c.level, c.span, i);
    }
  }

  lemma {:induction false} SpanKept(c: Coarse, ops: seq<Op>)
    ensures Ran(c, ops).span == c.span && Ran(c, ops).level == c.level
  {
    if ops != [] {
      SpanKept(c, ops[..|ops| - 1]);
    }
  }

  // ----- File-watch events -----

  function Events(ws: seq<Sample>): real {
    SumOf(Given(ws, FileEvents))
  }

  /** A folded record counts its window's events, up to 32 bits. */
  lemma RecordEvents(ws: seq<Sample>, level: nat)
    ensures Record(ws, level).Val(FileEvents) == RMin(Events(ws), U32_MAX)
  {
    FoldIsBatch(ws, level, FileEvents);
    assert KindOf(FileEvents) == Sum;
    SummedUp(Given(ws, FileEvents), Record(ws, level).Val(FileEvents));
  }

  lemma SummedUp(xs: seq<real>, v: real)
    requires Summarises(Sum, xs, v)
    ensures v == RMin(SumOf(xs), U32_MAX)
  {
  }

  lemma {:induction false} SumConcat(xs: seq<real>, ys: seq<real>)
    ensures SumOf(xs + ys) == SumOf(xs) + SumOf(ys)
  {
    if xs == [] {
      assert xs + ys == ys;
    } else {
      SumConcat(xs[1..], ys);
      assert (xs + ys)[1..] == xs[1..] + ys;
    }
  }

  lemma {:induction false} GivenConcat(a: seq<Sample>, b: seq<Sample>, f: Field)
    ensures Given(a + b, f) == Given(a, f) + Given(b, f)
    decreases |b|
  {
    if b == [] {
      assert a + b == a;
    } else {
      assert (a + b)[..|a + b| - 1] == a + b[..|b| - 1];
      GivenConcat(a, b[..|b| - 1], f);
    }
  }

  lemma EventsConcat(a: seq<Sample>, b: seq<Sample>)
    ensures Events(a + b) == Events(a) + Events(b)
  {
    GivenConcat(a, b, FileEvents);
    SumConcat(Given(a, FileEvents), Given(b, FileEvents));
  }

  /** The events a list of records counts. */
  function Counted(recs: seq<Sample>): real {
    if recs == [] then 0.0 else Counted(recs[..|recs| - 1]) + recs[|recs| - 1].Val(FileEvents)
  }

  /** Every window's events fit the record's 32 bits. */
  ghost predicate Fit(windows: seq<seq<Sample>>) {
    forall k :: 0 <= k < |windows| ==> Events(windows[k]) <= U32_MAX
  }

  /** The records count what their windows hold, or less: exactly it when all of it fits. */
  lemma {:induction false} CountedIs(recs: seq<Sample>, windows: seq<seq<Sample>>)
    requires |recs| == |windows|
    requires forall k :: 0 <= k < |windows| ==> recs[k].Val(FileEvents) == RMin(Events(windows[k]), U32_MAX)
    ensures Counted(recs) <= Events(Joined(windows)) && (Counted(recs) == Events(Joined(windows)) <==> Fit(windows))
  {
    if windows != [] {
      var n := |windows| - 1;
      CountedIs(recs[..n], windows[..n]);
      EventsConcat(Joined(windows[..n]), windows[n]);
      FitLast(windows);
      AddCapped(Counted(recs[..n]), Events(Joined(windows[..n])), Events(windows[n]));
    }
  }

  lemma AddCapped(a: real, b: real, e: real)
    requires a <= b
    ensures a + RMin(e, U32_MAX) <= b + e && (a + RMin(e, U32_MAX) == b + e <==> a == b && e <= U32_MAX)
  {
  }

  lemma FitLast(windows: seq<seq<Sample>>)
    requires windows != []
    ensures var n := |windows| - 1; Fit(windows) <==> Fit(windows[..n]) && Events(windows[n]) <= U32_MAX
  {
    var n := |windows| - 1;
    if Fit(windows[..n]) && Events(windows[n]) <= U32_MAX {
      forall k | 0 <= k < |windows|
        ensures Events(windows[k]) <= U32_MAX
      {
        assert k < n ==> windows[..n][k] == windows[k];
      }
    }
  }

  /** The log's folded records and the open window count every event, or less: every one exactly when all windows fit. */
  ghost predicate CountsEvents(c: Coarse, finer: seq<Sample>, windows: seq<seq<Sample>>) {
    var n := Counted(FoldedOf(c.log)) + Events(c.open);
    n <= Events(finer) && (n == Events(finer) <==> Fit(windows))
  }

  lemma FoldsCount(c: Coarse, finer: seq<Sample>, windows: seq<seq<Sample>>)
    requires Folds(c, finer, windows)
    ensures CountsEvents(c, finer, windows)
  {
    var recs := FoldedOf(c.log);
    forall k | 0 <= k < |windows|
      ensures recs[k].Val(FileEvents) == RMin(Events(windows[k]), U32_MAX)
    {
      RecordEvents(windows[k], c.level);
    }
    CountedIs(recs, windows);
    EventsConcat(Joined(windows), c.open);
  }

  /**
   With writes succeeding, the events of all finer samples are those the log's folded records
   count and those of the open window, if and only if no window had more than 32 bits hold.
   */
  lemma EventsConserved(c: Coarse, ops: seq<Op>) returns (windows: seq<seq<Sample>>)
    requires c == NewRing(c.level, c.span) && c.span > 0 && Collected(ops) && AllWritten(ops)
    ensures Folds(Ran(c, ops), Finer(ops), windows) && CountsEvents(Ran(c, ops), Finer(ops), windows)
  {
    windows := EverySampleOnce(c, ops);
    FoldsCount(Ran(c, ops), Finer(ops), windows);
  }

  // ----- The manager -----

  /** How the writes store() may attempt end: 0, -3 for a record that does not encode, -4 for a failed append. */
  datatype Writes = Writes(rc2: int, rc1: int, rc: int)

  /** fine holds the logs of L3 and of each custom level. */
  datatype Tiers = Tiers(l2: Coarse, l1: Coarse, fine: map<nat, seq<Sample>>)

  predicate Known(t: Tiers, level: nat) {
    level == L1 || level == L2 || level in t.fine
  }

  /** What a sample is to each coarse ring. */
  function OpFor2(s: Sample, w: Writes): Op {
    if s.level == L1 then Flush(w.rc2 == 0) else if s.level == L2 then Own(s, w.rc2 == 0, w.rc == 0) else Feed(s, w.rc2 == 0)
  }

  function OpFor1(s: Sample, w: Writes): Op {
    if s.level == L1 then Own(s, w.rc1 == 0, w.rc == 0) else Feed(s, w.rc1 == 0)
  }

  function Stored(t: Tiers, s: Sample, w: Writes): Tiers {
    if !Known(t, s.level) then t
    else
      Tiers(Applied(t.l2, OpFor2(s, w)), Applied(t.l1, OpFor1(s, w)),
            if s.level in t.fine && s.level != L1 && s.level != L2 && w.rc == 0
            then t.fine[s.level := t.fine[s.level] + [s]] else t.fine)
  }

  /** The first failure among the folded records a store has to write. */
  function FoldRc(t: Tiers, s: Sample, w: Writes): int {
    if Attempts(t.l2, OpFor2(s, w)) && w.rc2 != 0 then w.rc2
    else if Attempts(t.l1, OpFor1(s, w)) then w.rc1 else 0
  }

  /** The sample is the last of the open window, if the ring folds at all. */
  predicate Joins(c: Coarse, s: Sample) {
    c.span > 0 ==> c.open != [] && c.open[|c.open| - 1] == s
  }

  /**
   What storing a sample leaves open. One of L1 ends both windows; one of L2 ends its own and
   joins L1's; any finer one joins both.
   */
  lemma StoreLeavesOpen(t: Tiers, s: Sample, w: Writes)
    requires Known(t, s.level)
    ensures s.level == 1 ==> Stored(t, s, w).l2.open == [] && Stored(t, s, w).l1.open == []
    ensures s.level == 2 ==> Stored(t, s, w).l2.open == [] && Joins(Stored(t, s, w).l1, s)
    ensures s.level != 1 && s.level != 2 ==> Joins(Stored(t, s, w).l2, s) && Joins(Stored(t, s, w).l1, s)
  {
  }

  /** A folded record falls due: the window is open, and the sample is of the ring's level or a coarser one, or out of its span. */
  predicate FallsDue(c: Coarse, s: Sample) {
    c.open != [] &&
    (s.level == 1 || s.level == c.level || (c.span > 0 && !(c.open[0].ts <= s.ts < c.open[0].ts + c.span)))
  }

  /** What store returns when the sample's own write succeeds: the first failure among the records that fall due. */
  lemma FoldRcIs(t: Tiers, s: Sample, w: Writes)
    requires t.l2.level == 2 && t.l1.level == 1
    ensures FoldRc(t, s, w) == 0 <==> (FallsDue(t.l2, s) ==> w.rc2 == 0) && (FallsDue(t.l1, s) ==> w.rc1 == 0)
    ensures FoldRc(t, s, w) != 0 ==> FoldRc(t, s, w) == if FallsDue(t.l2, s) && w.rc2 != 0 then w.rc2 else w.rc1
  {
  }

  // ----- Whole runs of store -----

  datatype Put = Put(s: Sample, w: Writes)

  function StoredAll(t: Tiers, puts: seq<Put>): Tiers {
    if puts == [] then t
    else Stored(StoredAll(t, puts[..|puts| - 1]), puts[|puts| - 1].s, puts[|puts| - 1].w)
  }

  /** What the run is to the L2 ring, and to the L1 ring; samples of unknown levels are refused. */
  function Ops2(t: Tiers, puts: seq<Put>): seq<Op> {
    if puts == [] then []
    else
      var p := puts[|puts| - 1];
      var ops := Ops2(t, puts[..|puts| - 1]);
      if Known(t, p.s.level) then ops + [OpFor2(p.s, p.w)] else ops
  }

  function Ops1(t: Tiers, puts: seq<Put>): seq<Op> {
    if puts == [] then []
    else
      var p := puts[|puts| - 1];
      var ops := Ops1(t, puts[..|puts| - 1]);
      if Known(t, p.s.level) then ops + [OpFor1(p.s, p.w)] else ops
  }

  lemma RiseMore(ops: seq<Op>, op: Op, now: nat, was: nat)
    requires OpsRise(ops, was) && was < now && (op.Flush? || op.s.ts == was)
    ensures OpsRise(ops + [op], now)
  {
    assert (ops + [op])[..|ops|] == ops;
    OpsRiseLater(ops, was, now);
  }

  lemma RanMore(c: Coarse, ops: seq<Op>, op: Op)
    ensures Ran(c, ops + [op]) == Applied(Ran(c, ops), op)
  {
    assert (ops + [op])[..|ops|] == ops;
  }

  /** Each coarse ring sees its own ops, whatever the other rings do. */
  lemma {:induction false} RingsFollow(t: Tiers, puts: seq<Put>)
    ensures var r := StoredAll(t, puts);
      r.l2 == Ran(t.l2, Ops2(t, puts)) && r.l1 == Ran(t.l1, Ops1(t, puts)) && r.fine.Keys == t.fine.Keys
  {
    if puts != [] {
      var before, p := puts[..|puts| - 1], puts[|puts| - 1];
      RingsFollow(t, before);
      RanMore(t.l2, Ops2(t, before), OpFor2(p.s, p.w));
      RanMore(t.l1, Ops1(t, before), OpFor1(p.s, p.w));
    }
  }

  ghost predicate PutsRise(puts: seq<Put>, now: nat) {
    puts == [] || (puts[|puts| - 1].s.ts < now && PutsRise(puts[..|puts| - 1], puts[|puts| - 1].s.ts))
  }

  lemma {:induction false} OpsRiseLater(ops: seq<Op>, now: nat, later: nat)
    requires OpsRise(ops, now) && now <= later
    ensures OpsRise(ops, later)
  {
    if ops != [] && ops[|ops| - 1].Flush? {
      OpsRiseLater(ops[..|ops| - 1], now, later);
    }
  }

  lemma {:induction false} OpsRiseToo(t: Tiers, puts: seq<Put>, now: nat)
    requires PutsRise(puts, now)
    ensures OpsRise(Ops2(t, puts), now) && OpsRise(Ops1(t, puts), now)
  {
    if puts != [] {
      var before, p := puts[..|puts| - 1], puts[|puts| - 1];
      OpsRiseToo(t, before, p.s.ts);
      OpsRiseLater(Ops2(t, before), p.s.ts, now);
      OpsRiseLater(Ops1(t, before), p.s.ts, now);
      RiseMore(Ops2(t, before), OpFor2(p.s, p.w), now, p.s.ts);
      RiseMore(Ops1(t, before), OpFor1(p.s, p.w), now, p.s.ts);
    }
  }

  ghost predicate FineBehind(t: Tiers, now: nat) {
    forall l :: l in t.fine ==> Rising(t.fine[l]) && forall i :: 0 <= i < |t.fine[l]| ==> t.fine[l][i].ts < now
  }

  lemma {:induction false} FineRises(t: Tiers, puts: seq<Put>, now: nat)
    requires PutsRise(puts, now) && forall l :: l in t.fine ==> t.fine[l] == []
    ensures FineBehind(StoredAll(t, puts), now)
  {
    if puts != [] {
      var before, p := puts[..|puts| - 1], puts[|puts| - 1];
      FineRises(t, before, p.s.ts);
      var r := StoredAll(t, before);
      if p.s.level in r.fine {
        RisingMore(r.fine[p.s.level], p.s);
      }
    }
  }

  /** The stored samples finer than the L2 ring, and than the L1 ring. */
  function Finer2(t: Tiers, puts: seq<Put>): seq<Sample> {
    if puts == [] then []
    else
      var r, s := Finer2(t, puts[..|puts| - 1]), puts[|puts| - 1].s;
      if Known(t, s.level) && s.level != L1 && s.level != L2 then r + [s] else r
  }

  function Finer1(t: Tiers, puts: seq<Put>): seq<Sample> {
    if puts == [] then []
    else
      var r, s := Finer1(t, puts[..|puts| - 1]), puts[|puts| - 1].s;
      if Known(t, s.level) && s.level != L1 then r + [s] else r
  }

  lemma FinerMore(ops: seq<Op>, op: Op)
    ensures Finer(ops + [op]) == Finer(ops) + FinerOf(op)
  {
    assert (ops + [op])[..|ops|] == ops;
  }

  /** What the ops feed each ring is what was stored. */
  lemma {:induction false} FinerAre(t: Tiers, puts: seq<Put>)
    ensures Finer(Ops2(t, puts)) == Finer2(t, puts) && Finer(Ops1(t, puts)) == Finer1(t, puts)
  {
    if puts != [] {
      var before, p := puts[..|puts| - 1], puts[|puts| - 1];
      FinerAre(t, before);
      if Known(t, p.s.level) {
        FinerMore(Ops2(t, before), OpFor2(p.s, p.w));
        FinerMore(Ops1(t, before), OpFor1(p.s, p.w));
      }
    }
  }

  /** Collected samples, every write succeeding. */
  ghost predicate AllGood(puts: seq<Put>) {
    forall i :: 0 <= i < |puts| ==> !puts[i].s.folded && puts[i].w.rc2 == 0 && puts[i].w.rc1 == 0
  }

  lemma {:induction false} OpsGood(t: Tiers, puts: seq<Put>)
    requires AllGood(puts)
    ensures Collected(Ops2(t, puts)) && AllWritten(Ops2(t, puts)) && Collected(Ops1(t, puts)) && AllWritten(Ops1(t, puts))
  {
    if puts != [] {
      OpsGood(t, puts[..|puts| - 1]);
    }
  }

  /**
   From new rings, samples of any levels with strictly rising stamps, any writes failing:
   every ring's log strictly rises.
   */
  lemma StoreKeepsOrder(t: Tiers, puts: seq<Put>, now: nat)
    requires t.l2 == NewRing(L2, t.l2.span) && t.l1 == NewRing(L1, t.l1.span)
    requires (forall l :: l in t.fine ==> t.fine[l] == []) && PutsRise(puts, now)
    ensures var r := StoredAll(t, puts);
      Rising(r.l2.log + r.l2.open) && Rising(r.l1.log + r.l1.open) && FineBehind(r, now)
  {
    RingsFollow(t, puts);
    OpsRiseToo(t, puts, now);
    LogRises(t.l2, Ops2(t, puts), now);
    LogRises(t.l1, Ops1(t, puts), now);
    FineRises(t, puts, now);
  }

  /**
   The folded writes succeeding, every stored sample finer than a coarse ring is in exactly one
   folded record of that ring's log or in its open window, and lies in the window that ends at
   its record's stamp.
   */
  lemma StoreFoldsOnce(t: Tiers, puts: seq<Put>, now: nat) returns (w2: seq<seq<Sample>>, w1: seq<seq<Sample>>)
    requires t.l2 == NewRing(L2, t.l2.span) && t.l1 == NewRing(L1, t.l1.span) && t.l2.span > 0 && t.l1.span > 0
    requires PutsRise(puts, now) && AllGood(puts)
    ensures var r := StoredAll(t, puts); Folds(r.l2, Finer2(t, puts), w2) && EachLiesIn(r.l2, w2)
    ensures var r := StoredAll(t, puts); Folds(r.l1, Finer1(t, puts), w1) && EachLiesIn(r.l1, w1)
  {
    RingsFollow(t, puts);
    OpsRiseToo(t, puts, now);
    OpsGood(t, puts);
    FinerAre(t, puts);
    w2 := FoldedWindow(t.l2, Ops2(t, puts), now);
    w1 := FoldedWindow(t.l1, Ops1(t, puts), now);
  }

  // ----- Every sample in its own ring -----

  /** The samples of a level whose own write succeeded, in the order they were stored. */
  function OfLevel(puts: seq<Put>, level: nat): seq<Sample> {
    if puts == [] then []
    else
      var r, p := OfLevel(puts[..|puts| - 1], level), puts[|puts| - 1];
      if p.s.level == level && p.w.rc == 0 then r + [p.s] else r
  }

  lemma {:induction false} FineHas(t: Tiers, puts: seq<Put>, level: nat)
    requires level in t.fine && L1 !in t.fine && L2 !in t.fine
    ensures level in StoredAll(t, puts).fine
    ensures StoredAll(t, puts).fine[level] == t.fine[level] + OfLevel(puts, level)
    ensures StoredAll(t, puts).fine.Keys == t.fine.Keys
  {
    if puts != [] {
      FineHas(t, puts[..|puts| - 1], level);
      RingsFollow(t, puts);
    }
  }

  lemma OwnedMore(ops: seq<Op>, op: Op)
    ensures Owned(ops + [op]) == Owned(ops) + OwnedOf(op)
  {
    assert (ops + [op])[..|ops|] == ops;
  }

  lemma {:induction false} OwnedAre(t: Tiers, puts: seq<Put>)
    ensures Owned(Ops2(t, puts)) == OfLevel(puts, L2) && Owned(Ops1(t, puts)) == OfLevel(puts, L1)
  {
    if puts != [] {
      var before, p := puts[..|puts| - 1], puts[|puts| - 1];
      OwnedAre(t, before);
      if Known(t, p.s.level) {
        OwnedMore(Ops2(t, before), OpFor2(p.s, p.w));
        OwnedMore(Ops1(t, before), OpFor1(p.s, p.w));
      }
    }
  }

  /** Samples come from the collectors: none is a folded record. */
  ghost predicate NoneFolded(puts: seq<Put>) {
    forall i :: 0 <= i < |puts| ==> !puts[i].s.folded
  }

  lemma {:induction false} NoneFoldedOps(t: Tiers, puts: seq<Put>)
    requires NoneFolded(puts)
    ensures Collected(Ops2(t, puts)) && Collected(Ops1(t, puts))
  {
    if puts != [] {
      NoneFoldedOps(t, puts[..|puts| - 1]);
    }
  }

  /**
   Over every run of store on new rings, any writes failing: each ring holds exactly the samples
   of its own level whose write succeeded, in order, besides the folded records.
   */
  lemma EachInItsRing(t: Tiers, puts: seq<Put>, level: nat)
    requires t.l2 == NewRing(L2, t.l2.span) && t.l1 == NewRing(L1, t.l1.span) && NoneFolded(puts)
    requires L1 !in t.fine && L2 !in t.fine && forall l :: l in t.fine ==> t.fine[l] == []
    ensures DirectOf(StoredAll(t, puts).l2.log) == OfLevel(puts, L2)
    ensures DirectOf(StoredAll(t, puts).l1.log) == OfLevel(puts, L1)
    ensures level in t.fine ==> level in StoredAll(t, puts).fine && StoredAll(t, puts).fine[level] == OfLevel(puts, level)
  {
    CoarseHave(t, puts);
    if level in t.fine {
      FineHas(t, puts, level);
      assert [] + OfLevel(puts, level) == OfLevel(puts, level);
    }
  }

  lemma DirectIs(c: Coarse, ops: seq<Op>, d: Coarse)
    requires c == NewRing(c.level, c.span) && Collected(ops) && d == Ran(c, ops)
    ensures DirectOf(d.log) == Owned(ops)
  {
    LogIs(c, ops);
  }

  lemma CoarseHave(t: Tiers, puts: seq<Put>)
    requires t.l2 == NewRing(L2, t.l2.span) && t.l1 == NewRing(L1, t.l1.span) && NoneFolded(puts)
    ensures DirectOf(StoredAll(t, puts).l2.log) == OfLevel(puts, L2)
    ensures DirectOf(StoredAll(t, puts).l1.log) == OfLevel(puts, L1)
  {
    RingsFollow(t, puts);
    NoneFoldedOps(t, puts);
    OwnedAre(t, puts);
    DirectIs(t.l2, Ops2(t, puts), StoredAll(t, puts).l2);
    DirectIs(t.l1, Ops1(t, puts), StoredAll(t, puts).l1);
  }

  /** And over such runs of store no ring loses an event or counts one twice, exactly while its windows fit. */
  lemma StoreConservesEvents(t: Tiers, puts: seq<Put>, now: nat) returns (w2: seq<seq<Sample>>, w1: seq<seq<Sample>>)
    requires t.l2 == NewRing(L2, t.l2.span) && t.l1 == NewRing(L1, t.l1.span) && t.l2.span > 0 && t.l1.span > 0
    requires PutsRise(puts, now) && AllGood(puts)
    ensures var r := StoredAll(t, puts); Folds(r.l2, Finer2(t, puts), w2) && CountsEvents(r.l2, Finer2(t, puts), w2)
    ensures var r := StoredAll(t, puts); Folds(r.l1, Finer1(t, puts), w1) && CountsEvents(r.l1, Finer1(t, puts), w1)
  {
    w2, w1 := StoreFoldsOnce(t, puts, now);
    FoldsCount(StoredAll(t, puts).l2, Finer2(t, puts), w2);
    FoldsCount(StoredAll(t, puts).l1, Finer1(t, puts), w1);
  }

  /** TierManager's store, feed, flush and close, over the logs of its rings. */
  class TierManager {
    const span2: nat
    const span1: nat
    const fold2: TierAggregator
    const fold1: TierAggregator
    var tier2: seq<Sample>
    var tier3: seq<Sample>
    var fine: map<nat, seq<Sample>>
    var ready: bool
    ghost var done2: seq<Batch>
    ghost var done1: seq<Batch>

    ghost predicate Valid()
      reads this, fold2, fold1
    {
      fold2 != fold1 && fold2.Valid() && fold1.Valid() && fold2.outLevel == L2 && fold1.outLevel == L1
    }

    ghost function Ring2(): Coarse
      reads this, fold2
    {
      Coarse(L2, span2, fold2.window, done2, tier2)
    }

    ghost function Ring1(): Coarse
      reads this, fold1
    {
      Coarse(L1, span1, fold1.window, done1, tier3)
    }

    ghost function State(): Tiers
      reads this, fold2, fold1
    {
      Tiers(Ring2(), Ring1(), fine)
    }

    constructor (l2Ns: nat, l1Ns: nat, levels: set<nat>)
      ensures Valid() && ready && fresh(fold2) && fresh(fold1)
      ensures State() == Tiers(NewRing(L2, l2Ns), NewRing(L1, l1Ns), map l | l in levels :: [])
    {
      span2, span1 := l2Ns, l1Ns;
      fold2 := new TierAggregator(L2);
      fold1 := new TierAggregator(L1);
      tier2, tier3, fine := [], [], map l | l in levels :: [];
      done2, done1, ready := [], [], true;
    }

    method FlushL2(code: int) returns (rc: int)
      requires Valid()
      modifies this`tier2, this`done2, fold2
      ensures Valid() && Ring2() == Flushed(old(Ring2()), code == 0)
      ensures rc == if old(fold2.window) == [] then 0 else code
    {
      ghost var ws := fold2.window;
      var some, folded := fold2.Fold();
      if !some {
        return 0;
      }
      done2 := done2 + [Batch(ws, code == 0)];
      if code != 0 {
        return code;
      }
      tier2 := tier2 + [folded];
      return 0;
    }

    method FlushL1(code: int) returns (rc: int)
      requires Valid()
      modifies this`tier3, this`done1, fold1
      ensures Valid() && Ring1() == Flushed(old(Ring1()), code == 0)
      ensures rc == if old(fold1.window) == [] then 0 else code
    {
      ghost var ws := fold1.window;
      var some, folded := fold1.Fold();
      if !some {
        return 0;
      }
      done1 := done1 + [Batch(ws, code == 0)];
      if code != 0 {
        return code;
      }
      tier3 := tier3 + [folded];
      return 0;
    }

    /** The first half of feed: a window the sample does not belong in is written. */
    method EndL2(s: Sample, code: int) returns (rc: int)
      requires Valid()
      modifies this`tier2, this`done2, fold2
      ensures Valid()
      ensures Ring2() == if Outside(old(Ring2()), s) then Flushed(old(Ring2()), code == 0) else old(Ring2())
      ensures rc == if Outside(old(Ring2()), s) then code else 0
    {
      rc := 0;
      if fold2.Size() > 0 {
        var first := fold2.FirstTimestamp();
        if s.ts < first || s.ts - first >= span2 {
          rc := FlushL2(code);
        }
      }
    }

    method FeedL2(s: Sample, code: int) returns (rc: int)
      requires Valid()
      modifies this`tier2, this`done2, fold2
      ensures Valid() && Ring2() == Fed(old(Ring2()), s, code == 0)
      ensures rc == if Attempts(old(Ring2()), Feed(s, code == 0)) then code else 0
    {
      if span2 == 0 {
        return 0;
      }
      rc := EndL2(s, code);
      fold2.Add(s);
    }

    /** The first half of feed: a window the sample does not belong in is written. */
    method EndL1(s: Sample, code: int) returns (rc: int)
      requires Valid()
      modifies this`tier3, this`done1, fold1
      ensures Valid()
      ensures Ring1() == if Outside(old(Ring1()), s) then Flushed(old(Ring1()), code == 0) else old(Ring1())
      ensures rc == if Outside(old(Ring1()), s) then code else 0
    {
      rc := 0;
      if fold1.Size() > 0 {
        var first := fold1.FirstTimestamp();
        if s.ts < first || s.ts - first >= span1 {
          rc := FlushL1(code);
        }
      }
    }

    method FeedL1(s: Sample, code: int) returns (rc: int)
      requires Valid()
      modifies this`tier3, this`done1, fold1
      ensures Valid() && Ring1() == Fed(old(Ring1()), s, code == 0)
      ensures rc == if Attempts(old(Ring1()), Feed(s, code == 0)) then code else 0
    {
      if span1 == 0 {
        return 0;
      }
      rc := EndL1(s, code);
      fold1.Add(s);
    }

    /** The fold windows' part of store. */
    method FoldFor(s: Sample, w: Writes) returns (rc: int)
      requires Valid()
      modifies this`tier2, this`done2, this`tier3, this`done1, fold2, fold1
      ensures Valid()
      ensures Ring2() == if s.level == L1 || s.level == L2 then Flushed(old(Ring2()), w.rc2 == 0) else Fed(old(Ring2()), s, w.rc2 == 0)
      ensures Ring1() == if s.level == L1 then Flushed(old(Ring1()), w.rc1 == 0) else Fed(old(Ring1()), s, w.rc1 == 0)
      ensures rc == FoldRc(old(State()), s, w)
    {
      var rc2, rc1;
      if s.level == L1 {
        rc2 := FlushL2(w.rc2);
        rc1 := FlushL1(w.rc1);
      } else if s.level == L2 {
        rc2 := FlushL2(w.rc2);
        rc1 := FeedL1(s, w.rc1);
      } else {
        rc2 := FeedL2(s, w.rc2);
        rc1 := FeedL1(s, w.rc1);
      }
      rc := if rc2 != 0 then rc2 else rc1;
    }

    /** The sample into its own level's ring. */
    method AppendDirect(s: Sample, ok: bool)
      requires Valid() && (s.level == L1 || s.level == L2 || s.level in fine)
      modifies this`tier2, this`tier3, this`fine
      ensures Valid()
      ensures Ring2() == if s.level == L2 then Direct(old(Ring2()), s, ok) else old(Ring2())
      ensures Ring1() == if s.level == L1 then Direct(old(Ring1()), s, ok) else old(Ring1())
      ensures fine == if ok && s.level != L1 && s.level != L2
        then old(fine)[s.level := old(fine)[s.level] + [s]] else old(fine)
    {
      if !ok {
        return;
      }
      if s.level == L1 {
        tier3 := tier3 + [s];
      } else if s.level == L2 {
        tier2 := tier2 + [s];
      } else {
        fine := fine[s.level := fine[s.level] + [s]];
      }
    }

    /** store: the fold windows first, so that a ring's folded record goes before the direct one. */
    method Store(s: Sample, w: Writes) returns (rc: int)
      requires Valid()
      modifies this, fold2, fold1
      ensures Valid() && ready == old(ready)
      ensures State() == if ready then Stored(old(State()), s, w) else old(State())
      ensures rc == if !ready then -1 else if !Known(old(State()), s.level) then -2
                    else if w.rc != 0 then w.rc else FoldRc(old(State()), s, w)
    {
      if !ready {
        return -1;
      }
      if s.level != L1 && s.level != L2 && s.level !in fine {
        return -2;
      }
      ghost var t := State();
      rc := FoldFor(s, w);
      AppendDirect(s, w.rc == 0);
      assert Ring2() == Applied(t.l2, OpFor2(s, w));
      assert Ring1() == Applied(t.l1, OpFor1(s, w));
      if w.rc != 0 {
        rc := w.rc;
      }
    }

    /** close: both open windows are written, and nothing is stored after it. */
    method Close(w: Writes)
      requires Valid()
      modifies this, fold2, fold1
      ensures Valid() && !ready && fine == old(fine)
      ensures Ring2() == if old(ready) then Flushed(old(Ring2()), w.rc2 == 0) else old(Ring2())
      ensures Ring1() == if old(ready) then Flushed(old(Ring1()), w.rc1 == 0) else old(Ring1())
      ensures old(ready) ==> fold2.window == [] && fold1.window == []
    {
      if !ready {
        return;
      }
      var _ := FlushL2(w.rc2);
      var _ := FlushL1(w.rc1);
      ready := false;
    }
  }
}
