/** When an anomaly escalates to L3, said of the whole history of ticks, and that the scheduler does it. */
module SchedulerEscalation {
  import opened Common
  import opened Samples
  import opened Scheduler
  import opened SchedulerClock

  /** What one tick read. */
  datatype Obs = Obs(ts: nat, a: Anomaly)
  {
    predicate Bad() { !a.Normal? }
  }

  /** The clock never steps back. */
  ghost predicate Steady(obs: seq<Obs>) {
    && (forall i :: 0 <= i < |obs| ==> obs[i].ts > 0)
    && (forall i, j :: 0 <= i < j < |obs| ==> obs[i].ts <= obs[j].ts)
  }

  ghost predicate AllBad(obs: seq<Obs>, i: nat, j: nat)
    requires j <= |obs|
  {
    forall k :: i <= k < j ==> obs[k].Bad()
  }

  /** The anomaly held on every tick from some tick i to e, long enough apart. */
  ghost predicate HeldSince(cfg: Config, obs: seq<Obs>, i: nat, e: nat)
    requires i <= e < |obs|
  {
    AllBad(obs, i, e + 1) && obs[e].ts >= obs[i].ts + cfg.escalateAfterSec * 1_000_000_000 && cfg.escalateAfterSec > 0
  }

  ghost predicate Triggers(cfg: Config, obs: seq<Obs>, e: nat)
    requires e < |obs|
  {
    exists i: nat :: i <= e && HeldSince(cfg, obs, i, e)
  }

  /** One past the last anomalous tick before k; 0 if none. */
  function PastBad(obs: seq<Obs>, k: nat): (p: nat)
    requires k <= |obs|
    ensures p <= k && (p > 0 ==> obs[p - 1].Bad()) && forall j :: p <= j < k ==> !obs[j].Bad()
  {
    if k == 0 then 0 else if obs[k - 1].Bad() then k else PastBad(obs, k - 1)
  }

  /** A normal tick with the last anomalous one at least the grace period before it. */
  ghost predicate Ends(cfg: Config, obs: seq<Obs>, k: nat)
    requires k < |obs|
  {
    !obs[k].Bad() && PastBad(obs, k) > 0 && obs[k].ts >= obs[PastBad(obs, k) - 1].ts + cfg.graceSec * 1_000_000_000
  }

  /** A trigger with no end after it. */
  ghost predicate Standing(cfg: Config, obs: seq<Obs>, e: nat)
    requires e < |obs|
  {
    Triggers(cfg, obs, e) && forall k: nat :: e < k < |obs| ==> !Ends(cfg, obs, k)
  }

  ghost predicate ShouldEscalate(cfg: Config, obs: seq<Obs>) {
    exists e: nat :: e < |obs| && Standing(cfg, obs, e)
  }

  // ----- What one more tick changes -----

  lemma {:induction false} PastBadPrefix(obs: seq<Obs>, o: Obs, k: nat)
    requires k <= |obs|
    ensures PastBad(obs + [o], k) == PastBad(obs, k)
  {
    if k > 0 {
      PastBadPrefix(obs, o, k - 1);
    }
  }

  lemma EndsPrefix(cfg: Config, obs: seq<Obs>, o: Obs, k: nat)
    requires k < |obs|
    ensures Ends(cfg, obs + [o], k) <==> Ends(cfg, obs, k)
  {
    PastBadPrefix(obs, o, k);
  }

  lemma TriggersPrefix(cfg: Config, obs: seq<Obs>, o: Obs, e: nat)
    requires e < |obs|
    ensures Triggers(cfg, obs + [o], e) <==> Triggers(cfg, obs, e)
  {
    var more := obs + [o];
    forall i: nat | i <= e
      ensures HeldSince(cfg, more, i, e) <==> HeldSince(cfg, obs, i, e)
    {
      assert forall k :: 0 <= k < |obs| ==> more[k] == obs[k];
    }
  }

  lemma StandingPrefix(cfg: Config, obs: seq<Obs>, o: Obs, e: nat)
    requires e < |obs|
    ensures Standing(cfg, obs + [o], e) <==> Standing(cfg, obs, e) && !Ends(cfg, obs + [o], |obs|)
  {
    var more := obs + [o];
    TriggersPrefix(cfg, obs, o, e);
    forall k: nat | k < |obs|
      ensures Ends(cfg, more, k) <==> Ends(cfg, obs, k)
    {
      EndsPrefix(cfg, obs, o, k);
    }
    if Standing(cfg, more, e) {
      forall k: nat | e < k < |obs|
        ensures !Ends(cfg, obs, k)
      {
        assert !Ends(cfg, more, k);
      }
    }
  }

  lemma ShouldStep(cfg: Config, obs: seq<Obs>, o: Obs)
    ensures var more := obs + [o];
      ShouldEscalate(cfg, more) <==>
      Triggers(cfg, more, |obs|) || (ShouldEscalate(cfg, obs) && !Ends(cfg, more, |obs|))
  {
    var more := obs + [o];
    if Triggers(cfg, more, |obs|) {
      assert Standing(cfg, more, |obs|);
    }
    if ShouldEscalate(cfg, obs) && !Ends(cfg, more, |obs|) {
      var e: nat :| e < |obs| && Standing(cfg, obs, e);
      StandingPrefix(cfg, obs, o, e);
      assert Standing(cfg, more, e);
    }
    if ShouldEscalate(cfg, more) {
      var e: nat :| e < |more| && Standing(cfg, more, e);
      if e < |obs| {
        StandingPrefix(cfg, obs, o, e);
      }
    }
  }

  // ----- The alarm against the history -----

  const QUIET: Alarm := Alarm(Normal, false, 0, false, 0, false)

  function AlarmAfter(cfg: Config, obs: seq<Obs>): Alarm {
    if obs == [] then QUIET
    else
      var o := obs[|obs| - 1];
      AlarmStepped(cfg, AlarmAfter(cfg, obs[..|obs| - 1]), o.ts, o.a)
  }

  /** start begins the anomalous ticks that end the history, and no earlier one does. */
  ghost predicate RunFrom(obs: seq<Obs>, start: nat) {
    start < |obs| && AllBad(obs, start, |obs|) && (start > 0 ==> !obs[start - 1].Bad())
  }

  /** What the alarm remembers of the history. */
  ghost predicate Remembers(cfg: Config, al: Alarm, obs: seq<Obs>) {
    && (al.escalated <==> ShouldEscalate(cfg, obs))
    && (al.had <==> PastBad(obs, |obs|) > 0)
    && (al.had ==> al.last == obs[PastBad(obs, |obs|) - 1].ts)
    && (!al.escalated ==> (al.inRun <==> obs != [] && obs[|obs| - 1].Bad()))
    && (!al.escalated && al.inRun ==> exists start: nat :: RunFrom(obs, start) && al.runStart == obs[start].ts)
    && (al.escalated ==> al.inRun && al.had)
  }

  /** The run as it stands after an anomalous tick triggers exactly when it has lasted long enough. */
  lemma RunTriggers(cfg: Config, obs: seq<Obs>, start: nat)
    requires Steady(obs) && RunFrom(obs, start)
    ensures Triggers(cfg, obs, |obs| - 1) <==> HeldSince(cfg, obs, start, |obs| - 1)
  {
    var e := |obs| - 1;
    if Triggers(cfg, obs, e) {
      var i: nat :| i <= e && HeldSince(cfg, obs, i, e);
      assert obs[start].ts <= obs[i].ts;
    }
  }

  lemma BadTick(cfg: Config, al: Alarm, obs: seq<Obs>, o: Obs)
    requires !cfg.mode.OnDemand? && Steady(obs + [o]) && Remembers(cfg, al, obs) && o.Bad()
    ensures Remembers(cfg, AlarmStepped(cfg, al, o.ts, o.a), obs + [o])
  {
    var more, n := obs + [o], |obs|;
    assert PastBad(more, n + 1) == n + 1;
    ShouldStep(cfg, obs, o);
    assert !Ends(cfg, more, n);
    if !al.escalated {
      var start: nat := n;
      if al.inRun {
        start :| RunFrom(obs, start) && al.runStart == obs[start].ts;
        assert forall k :: 0 <= k < n ==> more[k] == obs[k];
      }
      assert RunFrom(more, start);
      RunTriggers(cfg, more, start);
      assert more[start].ts <= o.ts;
    }
  }

  lemma NormalTick(cfg: Config, al: Alarm, obs: seq<Obs>, o: Obs)
    requires !cfg.mode.OnDemand? && Steady(obs + [o]) && Remembers(cfg, al, obs) && !o.Bad()
    ensures Remembers(cfg, AlarmStepped(cfg, al, o.ts, o.a), obs + [o])
  {
    var more, n := obs + [o], |obs|;
    PastBadPrefix(obs, o, n);
    ShouldStep(cfg, obs, o);
    assert !Triggers(cfg, more, n) by {
      forall i: nat | i <= n
        ensures !HeldSince(cfg, more, i, n)
      {
        assert AllBad(more, i, n + 1) ==> more[n].Bad();
      }
    }
    if al.had {
      assert obs[PastBad(obs, n) - 1] == more[PastBad(more, n) - 1];
      assert more[PastBad(more, n) - 1].ts <= o.ts;
    }
  }

  /**
   Escalated, after any history of ticks, exactly when the anomaly once held on every tick
   over a span of escalate_after and no normal tick since came a grace period after the
   last anomalous one.
   */
  lemma {:induction false} AlarmFollowsHistory(cfg: Config, obs: seq<Obs>)
    requires !cfg.mode.OnDemand? && Steady(obs)
    ensures Remembers(cfg, AlarmAfter(cfg, obs), obs)
  {
    if obs != [] {
      var before, o := obs[..|obs| - 1], obs[|obs| - 1];
      assert obs == before + [o];
      AlarmFollowsHistory(cfg, before);
      if o.Bad() {
        BadTick(cfg, AlarmAfter(cfg, before), before, o);
      } else {
        NormalTick(cfg, AlarmAfter(cfg, before), before, o);
      }
    }
  }

  // ----- A clock stepped forward -----

  /** The history on a clock stepped forward by d. */
  function Shifted(obs: seq<Obs>, d: nat): (r: seq<Obs>)
    ensures |r| == |obs| && forall i :: 0 <= i < |obs| ==> r[i] == Obs(obs[i].ts + d, obs[i].a)
  {
    seq(|obs|, i requires 0 <= i < |obs| => Obs(obs[i].ts + d, obs[i].a))
  }

  lemma {:induction false} PastBadShifted(obs: seq<Obs>, d: nat, k: nat)
    requires k <= |obs|
    ensures PastBad(Shifted(obs, d), k) == PastBad(obs, k)
  {
    if k > 0 {
      PastBadShifted(obs, d, k - 1);
    }
  }

  lemma TriggersShifted(cfg: Config, obs: seq<Obs>, d: nat, e: nat)
    requires e < |obs|
    ensures Triggers(cfg, Shifted(obs, d), e) <==> Triggers(cfg, obs, e)
  {
    var later := Shifted(obs, d);
    forall i: nat | i <= e
      ensures HeldSince(cfg, later, i, e) <==> HeldSince(cfg, obs, i, e)
    {
      assert forall k :: 0 <= k < |obs| ==> later[k].Bad() == obs[k].Bad();
      assert AllBad(later, i, e + 1) <==> AllBad(obs, i, e + 1);
    }
  }

  lemma StandingShifted(cfg: Config, obs: seq<Obs>, d: nat, e: nat)
    requires e < |obs|
    ensures Standing(cfg, Shifted(obs, d), e) <==> Standing(cfg, obs, e)
  {
    TriggersShifted(cfg, obs, d, e);
    forall k: nat | k < |obs|
      ensures Ends(cfg, Shifted(obs, d), k) <==> Ends(cfg, obs, k)
    {
      PastBadShifted(obs, d, k);
    }
  }

  lemma ShouldShifted(cfg: Config, obs: seq<Obs>, d: nat)
    ensures ShouldEscalate(cfg, Shifted(obs, d)) <==> ShouldEscalate(cfg, obs)
  {
    forall e: nat | e < |obs|
      ensures Standing(cfg, Shifted(obs, d), e) <==> Standing(cfg, obs, e)
    {
      StandingShifted(cfg, obs, d, e);
    }
  }

  /** A step forward moves what the alarm remembers with the history. */
  lemma ForwardRemembers(cfg: Config, al: Alarm, obs: seq<Obs>, d: nat)
    requires Remembers(cfg, al, obs) && (al.had ==> al.last + d < U64) && (al.inRun ==> al.runStart + d < U64)
    ensures Remembers(cfg, AlarmForward(al, d), Shifted(obs, d))
  {
    var later := Shifted(obs, d);
    ShouldShifted(cfg, obs, d);
    PastBadShifted(obs, d, |obs|);
    if !al.escalated && al.inRun {
      var start: nat :| RunFrom(obs, start) && al.runStart == obs[start].ts;
      assert AllBad(later, start, |later|);
      assert RunFrom(later, start);
    }
  }

  // ----- The scheduler's own runs -----

  /**
   What the ticks have read after a run, on the clock as it is then: a step forward moves all
   that was read before.
   */
  function History(cfg: Config, st: State, es: seq<Event>, obs: seq<Obs>): seq<Obs>
    decreases |es|
  {
    if es == [] then obs else History(cfg, Applied(cfg, st, es[0]), es[1..], Noted(cfg, st, es[0], obs))
  }

  /** What has been read after one event more. */
  function Noted(cfg: Config, st: State, e: Event, obs: seq<Obs>): seq<Obs> {
    match e
    case Tick(s) => obs + [Obs(s.ts, CheckAnomaly(cfg, st.alarm.state, s))]
    case Forward(d) => Shifted(obs, d)
    case _ => obs
  }

  /** A tick does not step back; a step forward keeps the last tick within 64 bits. */
  ghost predicate Timely(st: State, e: Event) {
    match e
    case Tick(s) => 0 < s.ts < U64 && st.lastTick <= s.ts
    case Forward(d) => st.lastTick + d < U64
    case _ => true
  }

  ghost predicate AllTimely(cfg: Config, st: State, es: seq<Event>)
    decreases |es|
  {
    es == [] || (Timely(st, es[0]) && AllTimely(cfg, Applied(cfg, st, es[0]), es[1..]))
  }

  /** The history tells the alarm, and ends at the last tick. */
  ghost predicate Told(cfg: Config, st: State, obs: seq<Obs>) {
    && InOrder(st) && Steady(obs) && Remembers(cfg, st.alarm, obs)
    && (obs == [] <==> st.lastTick == 0) && (obs != [] ==> obs[|obs| - 1].ts == st.lastTick)
  }

  lemma TickTold(cfg: Config, st: State, obs: seq<Obs>, s: Sample)
    requires !cfg.mode.OnDemand? && Told(cfg, st, obs) && 0 < s.ts && st.lastTick <= s.ts
    ensures Told(cfg, Ticked(cfg, st, s), obs + [Obs(s.ts, CheckAnomaly(cfg, st.alarm.state, s))])
  {
    var o := Obs(s.ts, CheckAnomaly(cfg, st.alarm.state, s));
    TickKeepsOrder(cfg, st, s);
    assert Steady(obs + [o]);
    assert Ticked(cfg, st, s).alarm == AlarmStepped(cfg, st.alarm, s.ts, o.a);
    if o.Bad() {
      BadTick(cfg, st.alarm, obs, o);
    } else {
      NormalTick(cfg, st.alarm, obs, o);
    }
  }

  lemma ForwardTold(cfg: Config, st: State, obs: seq<Obs>, d: nat)
    requires Told(cfg, st, obs) && st.lastTick + d < U64
    ensures Told(cfg, SteppedForward(st, d), Shifted(obs, d))
  {
    ForwardRemembers(cfg, st.alarm, obs, d);
    AppliedKeepsOrder(cfg, st, Forward(d));
  }

  lemma EventTold(cfg: Config, st: State, e: Event, obs: seq<Obs>)
    requires !cfg.mode.OnDemand? && Timely(st, e) && Told(cfg, st, obs)
    ensures Told(cfg, Applied(cfg, st, e), Noted(cfg, st, e, obs))
  {
    match e
    case Tick(s) => TickTold(cfg, st, obs, s);
    case Forward(d) => ForwardTold(cfg, st, obs, d);
    case _ => AppliedKeepsOrder(cfg, st, e);
  }

  lemma {:induction false} RunTold(cfg: Config, st: State, es: seq<Event>, obs: seq<Obs>)
    requires !cfg.mode.OnDemand? && AllTimely(cfg, st, es) && Told(cfg, st, obs)
    ensures Told(cfg, Ran(cfg, st, es), History(cfg, st, es, obs))
    decreases |es|
  {
    if es != [] {
      EventTold(cfg, st, es[0], obs);
      RunTold(cfg, Applied(cfg, st, es[0]), es[1..], Noted(cfg, st, es[0], obs));
    }
  }

  /** From the start, while the clock never steps back, whatever else happens between the ticks. */
  lemma EscalatesAsHeld(cfg: Config, es: seq<Event>)
    requires !cfg.mode.OnDemand? && AllTimely(cfg, Initial(), es)
    ensures Ran(cfg, Initial(), es).alarm.escalated <==> ShouldEscalate(cfg, History(cfg, Initial(), es, []))
  {
    assert Told(cfg, Initial(), []);
    RunTold(cfg, Initial(), es, []);
  }

  /** In on-demand mode nothing escalates. */
  lemma {:induction false} OnDemandNever(cfg: Config, st: State, es: seq<Event>)
    requires cfg.mode.OnDemand? && !st.alarm.escalated
    ensures !Ran(cfg, st, es).alarm.escalated
    decreases |es|
  {
    if es != [] {
      OnDemandNever(cfg, Applied(cfg, st, es[0]), es[1..]);
    }
  }
}
