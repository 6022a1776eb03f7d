/** What the scheduler's decisions mean, in terms of readings, seconds and deadlines. */
module SchedulerMeaning {
  import opened Common
  import opened Samples
  import opened Scheduler

  // ----- Anomalies -----

  /** The sample has the reading, and it is over the limit. */
  predicate Over(s: Sample, g: Group, f: Field, limit: real) {
    g in s.groups && s.Val(f) > limit
  }

  predicate OverCritical(cfg: Config, s: Sample) {
    Over(s, Load, Load1m, cfg.criticalLoad) || Over(s, Cpu, CpuTotal, cfg.criticalCpu)
    || Over(s, Swap, SwapUsedPercent, cfg.criticalSwap)
  }

  predicate OverElevated(cfg: Config, s: Sample) {
    Over(s, Load, Load1m, cfg.elevatedLoad) || Over(s, Cpu, CpuTotal, cfg.elevatedCpu)
    || Over(s, Swap, SwapUsedPercent, cfg.elevatedSwap)
  }

  /** A reading that is there and over its threshold says so; with none over, one that is missing keeps the state. */
  lemma AnomalyIs(cfg: Config, was: Anomaly, s: Sample)
    ensures OverCritical(cfg, s) ==> CheckAnomaly(cfg, was, s) == Critical
    ensures !OverCritical(cfg, s) && OverElevated(cfg, s) ==> CheckAnomaly(cfg, was, s) == Elevated
    ensures !OverCritical(cfg, s) && !OverElevated(cfg, s) && {Load, Cpu, Swap} <= s.groups ==>
      CheckAnomaly(cfg, was, s) == Normal
    ensures !OverCritical(cfg, s) && !OverElevated(cfg, s) && !({Load, Cpu, Swap} <= s.groups) ==>
      CheckAnomaly(cfg, was, s) == was
  {
  }

  /** A reading over a threshold raises the level to L2's priority at least, outside on-demand mode. */
  lemma ReadingRaises(cfg: Config, st: State, s: Sample)
    requires !cfg.mode.OnDemand? && (OverCritical(cfg, s) || OverElevated(cfg, s))
    ensures var after := Ticked(cfg, st, s);
      Chosen(cfg, after, s.ts).level == after.level && Chosen(cfg, after, s.ts).priority >= 20
  {
    AnomalyIs(cfg, st.alarm.state, s);
    var a := CheckAnomaly(cfg, st.alarm.state, s);
    var done := Seen(cfg, st, s.ts, a);
    SelectIgnoresLevel(cfg, done, Ticked(cfg, st, s), s.ts);
    assert ActiveL2(cfg, done, s.ts);
    SelectIsBest(cfg, done, s.ts);
    assert Candidate(cfg, done, s.ts, Choice(L2, PRIORITY_L2, cfg.IntervalMs(L2)));
  }

  lemma {:induction false} CustomsIgnoreLevel(cfg: Config, a: State, b: State, now: nat, best: Choice, k: nat)
    requires k <= |cfg.customs| && b == a.(level := b.level)
    ensures ConsiderCustoms(cfg, a, now, best, k) == ConsiderCustoms(cfg, b, now, best, k)
    decreases |cfg.customs| - k
  {
    if k < |cfg.customs| {
      var c := cfg.customs[k];
      CustomsIgnoreLevel(cfg, a, b, now, Consider(cfg, best, Requested(a, c.id, now), c.id, c.priority), k + 1);
    }
  }

  lemma SelectIgnoresLevel(cfg: Config, a: State, b: State, now: nat)
    requires b == a.(level := b.level)
    ensures Chosen(cfg, a, now) == Chosen(cfg, b, now)
  {
    var l1 := Choice(L1, PRIORITY_L1, cfg.IntervalMs(L1));
    var l2 := Consider(cfg, l1, ActiveL2(cfg, a, now), L2, PRIORITY_L2);
    var l3 := Consider(cfg, l2, ActiveL3(cfg, a, now), L3, PRIORITY_L3);
    CustomsIgnoreLevel(cfg, a, b, now, l3, 0);
  }

  // ----- Which levels are active -----

  const SECOND: nat := 1_000_000_000

  /** now is no earlier than t and less than so many seconds after it. */
  predicate Since(t: nat, now: nat, seconds: nat) {
    t <= now < t + seconds * SECOND
  }

  /** The level is asked for, up to and with its deadline. */
  predicate AskedFor(st: State, level: nat, now: nat) {
    level < |st.requests| && st.requests[level].live && now <= st.requests[level].until
  }

  /** L3: always, for a client or within the grace period after one, for an escalated anomaly or within the grace period after it, or on request. */
  predicate WantsL3(cfg: Config, st: State, now: nat) {
    || cfg.mode == Always
    || st.watch.clients > 0 || (st.watch.had && Since(st.watch.last, now, cfg.graceSec))
    || (st.alarm.escalated && st.alarm.state != Normal)
    || (st.alarm.escalated && Since(st.alarm.last, now, cfg.graceSec))
    || AskedFor(st, 3, now)
  }

  /** L2: for an anomaly or always, but not in on-demand mode; within the hysteresis after an anomaly; or on request. */
  predicate WantsL2(cfg: Config, st: State, now: nat) {
    || (cfg.mode != OnDemand && (st.alarm.state != Normal || cfg.l2AlwaysOn))
    || (st.alarm.had && Since(st.alarm.last, now, cfg.hysteresisSec))
    || AskedFor(st, 2, now)
  }

  /** The interval of a level in milliseconds: of a custom one, that of the first so numbered, or L1's for one there is not. */
  ghost predicate IsInterval(cfg: Config, level: nat, ms: int) {
    if level == 1 then ms == cfg.l1Sec * 1000
    else if level == 2 then ms == cfg.l2Sec * 1000
    else if level == 3 then ms == cfg.l3Sec * 1000
    else if forall k :: 0 <= k < |cfg.customs| ==> cfg.customs[k].id != level then ms == cfg.l1Sec * 1000
    else exists k :: 0 <= k < |cfg.customs| && cfg.customs[k].id == level && ms == cfg.customs[k].intervalMs
           && forall j :: 0 <= j < k ==> cfg.customs[j].id != level
  }

  lemma IntervalIs(cfg: Config, level: nat)
    ensures IsInterval(cfg, level, cfg.IntervalMs(level))
  {
    var k := cfg.FindCustom(level);
    if level > 3 && k < |cfg.customs| {
      assert cfg.customs[k].id == level;
    }
  }

  /** A level select may choose, with its priority and interval. */
  ghost predicate MayChoose(cfg: Config, st: State, now: nat, level: nat, priority: int, ms: int) {
    IsInterval(cfg, level, ms) &&
    ( || (level == 1 && priority == 0)
      || (level == 2 && priority == 20 && WantsL2(cfg, st, now))
      || (level == 3 && priority == 30 && WantsL3(cfg, st, now))
      || exists k :: 0 <= k < |cfg.customs| && cfg.customs[k].id == level && cfg.customs[k].priority == priority
           && AskedFor(st, level, now))
  }

  lemma {:induction false} OneInterval(cfg: Config, level: nat, a: int, b: int)
    requires IsInterval(cfg, level, a) && IsInterval(cfg, level, b)
    ensures a == b
  {
    if level > 3 || level == 0 {
      if exists k :: 0 <= k < |cfg.customs| && cfg.customs[k].id == level {
        var k :| 0 <= k < |cfg.customs| && cfg.customs[k].id == level && a == cfg.customs[k].intervalMs
          && forall j :: 0 <= j < k ==> cfg.customs[j].id != level;
        var i :| 0 <= i < |cfg.customs| && cfg.customs[i].id == level && b == cfg.customs[i].intervalMs
          && forall j :: 0 <= j < i ==> cfg.customs[j].id != level;
        assert !(k < i) && !(i < k);
      }
    }
  }

  lemma CandidateIs(cfg: Config, st: State, now: nat, c: Choice)
    ensures Candidate(cfg, st, now, c) <==> MayChoose(cfg, st, now, c.level, c.priority, c.intervalMs)
  {
    IntervalIs(cfg, c.level);
    if IsInterval(cfg, c.level, c.intervalMs) {
      OneInterval(cfg, c.level, c.intervalMs, cfg.IntervalMs(c.level));
    }
    if exists k :: 0 <= k < |cfg.customs| && cfg.customs[k].id == c.level && cfg.customs[k].priority == c.priority && AskedFor(st, c.level, now) {
      var k :| 0 <= k < |cfg.customs| && cfg.customs[k].id == c.level && cfg.customs[k].priority == c.priority && AskedFor(st, c.level, now);
      assert Requested(st, c.level, now);
    }
  }

  /** The level selected is one that may be chosen; none has a higher priority, or as high a one and a shorter interval. */
  lemma SelectedIs(cfg: Config, st: State, now: nat) returns (priority: int, ms: int)
    ensures MayChoose(cfg, st, now, Select(cfg, st, now), priority, ms)
    ensures forall level, p, m :: MayChoose(cfg, st, now, level, p, m) ==> p < priority || (p == priority && m >= ms)
  {
    var best := Chosen(cfg, st, now);
    SelectIsBest(cfg, st, now);
    CandidateIs(cfg, st, now, best);
    priority, ms := best.priority, best.intervalMs;
    forall level, p, m | MayChoose(cfg, st, now, level, p, m)
      ensures p < priority || (p == priority && m >= ms)
    {
      CandidateIs(cfg, st, now, Choice(level, p, m));
      assert !Beats(Choice(level, p, m), best);
    }
  }

  // ----- How long they stay so -----

  /** A tick that saw a client holds L3 for the grace period after it, to the nanosecond. */
  lemma GraceAfterClient(cfg: Config, st: State, first: Sample, later: Sample)
    requires st.watch.clients > 0 && 0 < first.ts <= later.ts && st.lastTick <= first.ts
    ensures var left := Applied(cfg, Ticked(cfg, st, first), Clients(0));
      var w := Ticked(cfg, left, later).watch;
      w.clients == 0 && w.had && (WatchHoldsL3(cfg, w, later.ts) <==> later.ts - first.ts < cfg.graceSec * SECOND)
  {
  }

  /** An anomalous tick holds L2 for the hysteresis after it. */
  lemma HysteresisAfterAnomaly(cfg: Config, st: State, first: Sample, later: Sample)
    requires !cfg.mode.OnDemand? && 0 < first.ts <= later.ts && st.lastTick <= first.ts
    requires OverCritical(cfg, first) || OverElevated(cfg, first)
    requires CheckAnomaly(cfg, Ticked(cfg, st, first).alarm.state, later) == Normal
    ensures var al := Ticked(cfg, Ticked(cfg, st, first), later).alarm;
      AlarmHoldsL2(cfg, al, later.ts) <==> later.ts - first.ts < cfg.hysteresisSec * SECOND
  {
    AnomalyIs(cfg, st.alarm.state, first);
  }

  /** Differences and sums are taken as the machine takes them, modulo 2^64. */
  lemma WrapsAre(a: nat, b: nat)
    requires a < 0x1_0000_0000_0000_0000 && b < 0x1_0000_0000_0000_0000
    ensures Minus(a, b) == (a - b) % 0x1_0000_0000_0000_0000 && Plus(a, b) == (a + b) % 0x1_0000_0000_0000_0000
  {
  }

  // ----- Requests -----

  /** The levels there are: L1 to L3, and those of the configuration up to 19. */
  ghost predicate IsLevel(cfg: Config, level: nat) {
    1 <= level <= 3 || (4 <= level <= 19 && exists k :: 0 <= k < |cfg.customs| && cfg.customs[k].id == level)
  }

  lemma KnownIs(cfg: Config, level: nat)
    ensures Known(cfg, level) <==> IsLevel(cfg, level)
  {
    var k := cfg.FindCustom(level);
  }

  /**
   After a request its level is asked for until the later of the two deadlines, or until the new
   one if what was held was asked for at a later time than the request says it was made. No
   other level's request changes, and an unknown level's changes none.
   */
  lemma AskedIs(cfg: Config, st: State, level: nat, until: nat, made: nat)
    requires |st.requests| == 20
    ensures Asked(cfg, st, level, until, made) == st.(requests := Asked(cfg, st, level, until, made).requests)
    ensures |Asked(cfg, st, level, until, made).requests| == 20
    ensures forall i :: 0 <= i < 20 && i != level ==> Asked(cfg, st, level, until, made).requests[i] == st.requests[i]
    ensures !IsLevel(cfg, level) ==> Asked(cfg, st, level, until, made) == st
    ensures IsLevel(cfg, level) ==>
      var r, held := Asked(cfg, st, level, until, made).requests[level], st.requests[level];
      r.live &&
      (if !held.live || (made != 0 && made < held.made) || held.until < until then r.until == until && r.made == made else r == held)
  {
    KnownIs(cfg, level);
  }

  /** At first nothing is asked for, nobody has been there and nothing has happened. */
  lemma InitialIs()
    ensures var st := Initial();
      st.level == 1 && st.lastTick == 0 && !st.alarm.had && !st.alarm.inRun && !st.alarm.escalated && st.alarm.state == Normal
      && st.watch.clients == 0 && !st.watch.had && |st.requests| == 20 && forall i :: 0 <= i < 20 ==> !st.requests[i].live
  {
  }
}
