/** The adaptive scheduler: its timed state, and the class that updates it in place. */
module Scheduler {
  import opened Common
  import opened Samples

  const NANOS_PER_SEC: nat := 1_000_000_000
  const PRIORITY_L1: int := 0
  const PRIORITY_L2: int := 20
  const PRIORITY_L3: int := 30

  datatype Anomaly = Normal | Elevated | Critical
  datatype Mode = Adaptive | Always | OnDemand
  datatype CustomLevel = CustomLevel(id: nat, intervalMs: int, priority: int)

  datatype Config = Config(
    mode: Mode, l1Sec: int, l2Sec: int, l3Sec: int,
    hysteresisSec: nat, graceSec: nat, escalateAfterSec: nat, l2AlwaysOn: bool,
    elevatedLoad: real, elevatedCpu: real, elevatedSwap: real,
    criticalLoad: real, criticalCpu: real, criticalSwap: real,
    customs: seq<CustomLevel>)
  {
    function Grace(): nat { graceSec * NANOS_PER_SEC }
    function Hysteresis(): nat { hysteresisSec * NANOS_PER_SEC }
    function EscalateAfter(): nat { escalateAfterSec * NANOS_PER_SEC }

    function FindCustom(id: nat): (k: nat)
      ensures k <= |customs| && (k < |customs| ==> customs[k].id == id)
      ensures k == |customs| ==> forall j :: 0 <= j < |customs| ==> customs[j].id != id
    {
      FindFrom(id, 0)
    }

    function FindFrom(id: nat, from: nat): (k: nat)
      requires from <= |customs|
      ensures from <= k <= |customs| && (k < |customs| ==> customs[k].id == id)
      ensures forall j :: from <= j < k ==> customs[j].id != id
      decreases |customs| - from
    {
      if from == |customs| || customs[from].id == id then from else FindFrom(id, from + 1)
    }

    function IntervalMs(level: nat): int {
      if level == L1 then l1Sec * 1000
      else if level == L2 then l2Sec * 1000
      else if level == L3 then l3Sec * 1000
      else
        var k := FindCustom(level);
        if k < |customs| then customs[k].intervalMs else l1Sec * 1000
    }
  }

  /** A level asked for until a deadline reckoned at made (0: at the last tick). */
  datatype Request = Request(live: bool, until: nat, made: nat)

  /** The anomaly and its run: state is the last tick's, last the stamp of the last anomalous one. */
  datatype Alarm = Alarm(state: Anomaly, had: bool, last: nat, inRun: bool, runStart: nat, escalated: bool)

  /** The clients: how many now, and the last tick that saw one. */
  datatype Watch = Watch(clients: nat, had: bool, last: nat)

  datatype State = State(level: nat, alarm: Alarm, watch: Watch, requests: seq<Request>, lastTick: nat)

  const NO_REQUEST: Request := Request(false, 0, 0)

  function Initial(): State {
    State(L1, Alarm(Normal, false, 0, false, 0, false), Watch(0, false, 0),
          seq(MAX_LEVEL_ID + 1, _ => NO_REQUEST), 0)
  }

  // ----- 64-bit unsigned arithmetic -----

  /** a - b as the machine computes it. */
  function Minus(a: nat, b: nat): int {
    if a >= b then a - b else a + U64 - b
  }

  function Plus(a: nat, b: nat): nat {
    if a + b < U64 then a + b else a + b - U64
  }

  /** An instant moved back, not before 0. */
  function Back(t: nat, d: nat): nat {
    if t > d then t - d else 0
  }

  // ----- The tick -----

  function CheckAnomaly(cfg: Config, was: Anomaly, s: Sample): Anomaly {
    var load, cpu, swap := Load in s.groups, Cpu in s.groups, Swap in s.groups;
    if (load && s.Val(Load1m) > cfg.criticalLoad) || (cpu && s.Val(CpuTotal) > cfg.criticalCpu)
       || (swap && s.Val(SwapUsedPercent) > cfg.criticalSwap) then Critical
    else if (load && s.Val(Load1m) > cfg.elevatedLoad) || (cpu && s.Val(CpuTotal) > cfg.elevatedCpu)
       || (swap && s.Val(SwapUsedPercent) > cfg.elevatedSwap) then Elevated
    else if !load || !cpu || !swap then was
    else Normal
  }

  function RequestBack(r: Request, now: nat, d: nat): Request {
    if r.live && (r.made == 0 || r.made > now) then r.(until := Back(r.until, d)) else r
  }

  function AlarmBack(a: Alarm, d: nat): Alarm {
    a.(last := if a.had then Back(a.last, d) else a.last,
       runStart := if a.inRun then Back(a.runStart, d) else a.runStart)
  }

  function WatchBack(w: Watch, d: nat): Watch {
    w.(last := if w.had then Back(w.last, d) else w.last)
  }

  function RequestsBack(rs: seq<Request>, now: nat, d: nat): (r: seq<Request>)
    ensures |r| == |rs| && forall i :: 0 <= i < |rs| ==> r[i] == RequestBack(rs[i], now, d)
  {
    seq(|rs|, i requires 0 <= i < |rs| => RequestBack(rs[i], now, d))
  }

  /** The clock stepped back to now: every held instant moves back as far. */
  function SteppedBack(st: State, now: nat): State {
    if st.lastTick == 0 || now >= st.lastTick then st
    else
      var d := st.lastTick - now;
      State(st.level, AlarmBack(st.alarm, d), WatchBack(st.watch, d), RequestsBack(st.requests, now, d), st.lastTick)
  }

  /** The anomaly of this tick joins the run, or breaks it before it escalated. */
  function RunStepped(cfg: Config, al: Alarm, now: nat, a: Anomaly): Alarm {
    if cfg.mode.OnDemand? then al.(state := a)
    else if !a.Normal? then
      var start := if al.inRun then al.runStart else now;
      var long := cfg.EscalateAfter() > 0 && Minus(now, start) >= cfg.EscalateAfter();
      Alarm(a, true, now, true, start, al.escalated || long)
    else al.(state := a, inRun := al.inRun && al.escalated)
  }

  /** The escalation ends once the anomaly has been gone for the grace period. */
  function EscalationStepped(cfg: Config, al: Alarm, now: nat): Alarm {
    if al.escalated && al.state.Normal? && (now < al.last || now - al.last >= cfg.Grace())
    then al.(escalated := false, inRun := false)
    else al
  }

  function AlarmStepped(cfg: Config, al: Alarm, now: nat, a: Anomaly): Alarm {
    EscalationStepped(cfg, RunStepped(cfg, al, now, a), now)
  }

  function WatchStepped(w: Watch, now: nat): Watch {
    if w.clients > 0 then Watch(w.clients, true, now) else w
  }

  /** The state a tick at now that reads anomaly a selects its level in. */
  function Seen(cfg: Config, st: State, now: nat, a: Anomaly): State {
    var back := SteppedBack(st, now);
    State(st.level, AlarmStepped(cfg, back.alarm, now, a), WatchStepped(back.watch, now), back.requests, now)
  }

  function TickedAs(cfg: Config, st: State, now: nat, a: Anomaly): State {
    var done := Seen(cfg, st, now, a);
    done.(level := Select(cfg, done, now))
  }

  function Ticked(cfg: Config, st: State, s: Sample): State {
    TickedAs(cfg, st, s.ts, CheckAnomaly(cfg, st.alarm.state, s))
  }

  // ----- Which level wins -----

  predicate Requested(st: State, level: nat, now: nat) {
    level < |st.requests| && st.requests[level].live && st.requests[level].until >= now
  }

  /** Less than span ago, and not after now. */
  predicate Within(t: nat, now: nat, span: nat) {
    now >= t && now - t < span
  }

  predicate AlarmHoldsL3(cfg: Config, al: Alarm, now: nat) {
    al.escalated && (!al.state.Normal? || Within(al.last, now, cfg.Grace()))
  }

  predicate AlarmHoldsL2(cfg: Config, al: Alarm, now: nat) {
    || (!cfg.mode.OnDemand? && !al.state.Normal?)
    || (al.had && Within(al.last, now, cfg.Hysteresis()))
  }

  predicate WatchHoldsL3(cfg: Config, w: Watch, now: nat) {
    w.clients > 0 || (w.had && Within(w.last, now, cfg.Grace()))
  }

  predicate ActiveL3(cfg: Config, st: State, now: nat) {
    || cfg.mode.Always? || WatchHoldsL3(cfg, st.watch, now) || AlarmHoldsL3(cfg, st.alarm, now)
    || Requested(st, L3, now)
  }

  predicate ActiveL2(cfg: Config, st: State, now: nat) {
    || AlarmHoldsL2(cfg, st.alarm, now) || (!cfg.mode.OnDemand? && cfg.l2AlwaysOn)
    || Requested(st, L2, now)
  }

  /** The level with its priority; a challenger must beat it, or tie with a shorter interval. */
  datatype Choice = Choice(level: nat, priority: int, intervalMs: int)

  predicate Beats(c: Choice, best: Choice) {
    c.priority > best.priority || (c.priority == best.priority && c.intervalMs < best.intervalMs)
  }

  function Consider(cfg: Config, best: Choice, active: bool, level: nat, priority: int): Choice {
    var c := Choice(level, priority, cfg.IntervalMs(level));
    if active && Beats(c, best) then c else best
  }

  function ConsiderCustoms(cfg: Config, st: State, now: nat, best: Choice, k: nat): Choice
    requires k <= |cfg.customs|
    decreases |cfg.customs| - k
  {
    if k == |cfg.customs| then best
    else
      var c := cfg.customs[k];
      ConsiderCustoms(cfg, st, now, Consider(cfg, best, Requested(st, c.id, now), c.id, c.priority), k + 1)
  }

  function Chosen(cfg: Config, st: State, now: nat): Choice {
    var l1 := Choice(L1, PRIORITY_L1, cfg.IntervalMs(L1));
    var l2 := Consider(cfg, l1, ActiveL2(cfg, st, now), L2, PRIORITY_L2);
    var l3 := Consider(cfg, l2, ActiveL3(cfg, st, now), L3, PRIORITY_L3);
    ConsiderCustoms(cfg, st, now, l3, 0)
  }

  function Select(cfg: Config, st: State, now: nat): nat {
    Chosen(cfg, st, now).level
  }

  /** A candidate select() weighs: its level is active now, with the priority it is weighed at. */
  ghost predicate Candidate(cfg: Config, st: State, now: nat, c: Choice) {
    c.intervalMs == cfg.IntervalMs(c.level) &&
    ( || (c.level == L1 && c.priority == PRIORITY_L1)
      || (c.level == L2 && c.priority == PRIORITY_L2 && ActiveL2(cfg, st, now))
      || (c.level == L3 && c.priority == PRIORITY_L3 && ActiveL3(cfg, st, now))
      || exists k :: 0 <= k < |cfg.customs| && c.level == cfg.customs[k].id
           && c.priority == cfg.customs[k].priority && Requested(st, c.level, now))
  }

  lemma {:induction false} CustomsBest(cfg: Config, st: State, now: nat, best: Choice, k: nat)
    requires k <= |cfg.customs| && Candidate(cfg, st, now, best)
    ensures var r := ConsiderCustoms(cfg, st, now, best, k);
      && Candidate(cfg, st, now, r) && (r == best || Beats(r, best))
      && forall j :: k <= j < |cfg.customs| && Requested(st, cfg.customs[j].id, now) ==>
           !Beats(Choice(cfg.customs[j].id, cfg.customs[j].priority, cfg.IntervalMs(cfg.customs[j].id)), r)
    decreases |cfg.customs| - k
  {
    if k < |cfg.customs| {
      var c := cfg.customs[k];
      var next := Consider(cfg, best, Requested(st, c.id, now), c.id, c.priority);
      CustomsBest(cfg, st, now, next, k + 1);
    }
  }

  /** The active level with the highest priority wins, ties going to the shorter interval. */
  lemma SelectIsBest(cfg: Config, st: State, now: nat)
    ensures Candidate(cfg, st, now, Chosen(cfg, st, now))
    ensures forall c :: Candidate(cfg, st, now, c) ==> !Beats(c, Chosen(cfg, st, now))
  {
    var l1 := Choice(L1, PRIORITY_L1, cfg.IntervalMs(L1));
    var l2 := Consider(cfg, l1, ActiveL2(cfg, st, now), L2, PRIORITY_L2);
    var l3 := Consider(cfg, l2, ActiveL3(cfg, st, now), L3, PRIORITY_L3);
    CustomsBest(cfg, st, now, l3, 0);
  }

  // ----- Requests, clients, a clock stepped forward -----

  predicate Known(cfg: Config, level: nat) {
    1 <= level <= MAX_LEVEL_ID && (level >= FIRST_CUSTOM_LEVEL ==> cfg.FindCustom(level) < |cfg.customs|)
  }

  function Asked(cfg: Config, st: State, level: nat, until: nat, made: nat): State {
    if !Known(cfg, level) || level >= |st.requests| then st
    else
      var r := st.requests[level];
      var stale := made != 0 && r.made > made;
      if r.live && !stale && r.until >= until then st
      else st.(requests := st.requests[level := Request(true, until, made)])
  }

  function RequestForward(r: Request, d: nat): Request {
    if !r.live then r
    else Request(true, Plus(r.until, d), if r.made != 0 then Plus(r.made, d) else 0)
  }

  function AlarmForward(a: Alarm, d: nat): Alarm {
    a.(last := if a.had then Plus(a.last, d) else a.last,
       runStart := if a.inRun then Plus(a.runStart, d) else a.runStart)
  }

  function WatchForward(w: Watch, d: nat): Watch {
    w.(last := if w.had then Plus(w.last, d) else w.last)
  }

  function RequestsForward(rs: seq<Request>, d: nat): (r: seq<Request>)
    ensures |r| == |rs| && forall i :: 0 <= i < |rs| ==> r[i] == RequestForward(rs[i], d)
  {
    seq(|rs|, i requires 0 <= i < |rs| => RequestForward(rs[i], d))
  }

  function SteppedForward(st: State, d: nat): State {
    State(st.level, AlarmForward(st.alarm, d), WatchForward(st.watch, d), RequestsForward(st.requests, d),
          if st.lastTick != 0 then Plus(st.lastTick, d) else 0)
  }

  datatype Event =
    | Tick(s: Sample)
    | Ask(level: nat, until: nat, made: nat)
    | Clients(n: nat)
    | Forward(d: nat)

  function Applied(cfg: Config, st: State, e: Event): State {
    match e
    case Tick(s) => Ticked(cfg, st, s)
    case Ask(level, until, made) => Asked(cfg, st, level, until, made)
    case Clients(n) => st.(watch := st.watch.(clients := n))
    case Forward(d) => SteppedForward(st, d)
  }

  function Ran(cfg: Config, st: State, es: seq<Event>): State
    decreases |es|
  {
    if es == [] then st else Ran(cfg, Applied(cfg, st, es[0]), es[1..])
  }

  // ----- The object -----

  /** Scheduler of scheduler.cpp. */
  class Object {
    const cfg: Config
    var level: nat
    var anomaly: Anomaly
    var clients: nat
    var hadAnomaly: bool
    var lastAnomaly: nat
    var hadClients: bool
    var lastClient: nat
    var inRun: bool
    var runStart: nat
    var escalated: bool
    const requests: array<Request>
    var lastTick: nat

    ghost function AlarmNow(): Alarm
      reads this
    {
      Alarm(anomaly, hadAnomaly, lastAnomaly, inRun, runStart, escalated)
    }

    ghost function WatchNow(): Watch
      reads this
    {
      Watch(clients, hadClients, lastClient)
    }

    ghost function Now(): State
      reads this, requests
    {
      State(level, AlarmNow(), WatchNow(), requests[..], lastTick)
    }

    constructor (cfg: Config)
      ensures Now() == Initial() && fresh(requests) && this.cfg == cfg && requests.Length == MAX_LEVEL_ID + 1
    {
      this.cfg := cfg;
      level, anomaly, clients := L1, Normal, 0;
      hadAnomaly, lastAnomaly, hadClients, lastClient := false, 0, false, 0;
      inRun, runStart, escalated, lastTick := false, 0, false, 0;
      requests := new Request[MAX_LEVEL_ID + 1](_ => NO_REQUEST);
    }

    /** The requests of a step back. */
    method RequestsStepBack(now: nat, d: nat)
      modifies requests
      ensures requests[..] == RequestsBack(old(requests[..]), now, d)
    {
      var id := 0;
      while id < requests.Length
        invariant 0 <= id <= requests.Length
        invariant forall i :: 0 <= i < id ==> requests[i] == RequestBack(old(requests[..])[i], now, d)
        invariant forall i :: id <= i < requests.Length ==> requests[i] == old(requests[..])[i]
      {
        var r := requests[id];
        if r.live && (r.made == 0 || r.made > now) {
          requests[id] := r.(until := Back(r.until, d));
        }
        id := id + 1;
      }
    }

    /** The first part of tick: a step back moves every held instant. */
    method StepBack(now: nat)
      modifies this, requests
      ensures Now() == SteppedBack(old(Now()), now)
    {
      if lastTick != 0 && now < lastTick {
        var d := lastTick - now;
        RequestsStepBack(now, d);
        if hadClients {
          lastClient := Back(lastClient, d);
        }
        if hadAnomaly {
          lastAnomaly := Back(lastAnomaly, d);
        }
        if inRun {
          runStart := Back(runStart, d);
        }
      }
    }

    /** The middle of tick: the anomaly's run, and the end of an escalation. */
    method NoteAnomaly(now: nat, a: Anomaly)
      modifies this`anomaly, this`inRun, this`runStart, this`lastAnomaly, this`hadAnomaly, this`escalated
      ensures AlarmNow() == AlarmStepped(cfg, old(AlarmNow()), now, a)
    {
      anomaly := a;
      if cfg.mode.OnDemand? {
        // thresholds raise nothing
      } else if !anomaly.Normal? {
        if !inRun {
          inRun, runStart := true, now;
        }
        lastAnomaly, hadAnomaly := now, true;
        if cfg.EscalateAfter() > 0 && Minus(now, runStart) >= cfg.EscalateAfter() {
          escalated := true;
        }
      } else if !escalated {
        inRun := false;
      }
      if escalated && anomaly.Normal? && (now < lastAnomaly || now - lastAnomaly >= cfg.Grace()) {
        escalated, inRun := false, false;
      }
    }

    method Tick(s: Sample) returns (selected: nat)
      modifies this, requests
      ensures Now() == Ticked(cfg, old(Now()), s) && selected == level
    {
      ghost var st := Now();
      StepBack(s.ts);
      lastTick := s.ts;
      NoteAnomaly(s.ts, CheckAnomaly(cfg, anomaly, s));
      if clients > 0 {
        lastClient, hadClients := s.ts, true;
      }
      assert Now() == Seen(cfg, st, s.ts, CheckAnomaly(cfg, st.alarm.state, s));
      selected := SelectNow(s.ts);
      level := selected;
    }

    function SelectNow(now: nat): (selected: nat)
      reads this, requests
      ensures selected == Select(cfg, Now(), now)
    {
      Select(cfg, State(level, Alarm(anomaly, hadAnomaly, lastAnomaly, inRun, runStart, escalated),
                        Watch(clients, hadClients, lastClient), requests[..], lastTick), now)
    }

    method Ask(lv: nat, until: nat, made: nat)
      requires requests.Length == MAX_LEVEL_ID + 1
      modifies requests
      ensures Now() == Asked(cfg, old(Now()), lv, until, made)
    {
      if lv < 1 || lv > MAX_LEVEL_ID {
        return;
      }
      if lv >= FIRST_CUSTOM_LEVEL && cfg.FindCustom(lv) == |cfg.customs| {
        return;
      }
      var stale := made != 0 && requests[lv].made > made;
      if requests[lv].live && !stale && requests[lv].until >= until {
        return;
      }
      requests[lv] := Request(true, until, made);
    }

    /** The requests of a step forward. */
    method RequestsStepForward(d: nat)
      modifies requests
      ensures requests[..] == RequestsForward(old(requests[..]), d)
    {
      var id := 0;
      while id < requests.Length
        invariant 0 <= id <= requests.Length
        invariant forall i :: 0 <= i < id ==> requests[i] == RequestForward(old(requests[..])[i], d)
        invariant forall i :: id <= i < requests.Length ==> requests[i] == old(requests[..])[i]
      {
        var r := requests[id];
        if r.live {
          requests[id] := Request(true, Plus(r.until, d), if r.made != 0 then Plus(r.made, d) else 0);
        }
        id := id + 1;
      }
    }

    method ClockSteppedForward(d: nat)
      modifies this, requests
      ensures Now() == SteppedForward(old(Now()), d)
    {
      RequestsStepForward(d);
      if hadClients {
        lastClient := Plus(lastClient, d);
      }
      if hadAnomaly {
        lastAnomaly := Plus(lastAnomaly, d);
      }
      if inRun {
        runStart := Plus(runStart, d);
      }
      if lastTick != 0 {
        lastTick := Plus(lastTick, d);
      }
    }

    method SetClientCount(n: int)
      modifies this`clients
      ensures Now() == Applied(cfg, old(Now()), Clients(if n > 0 then n else 0))
    {
      clients := if n > 0 then n else 0;
    }
  }
}
