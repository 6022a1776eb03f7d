/** What the scheduler keeps over whole runs: its timers in order, and clock steps without effect. */
module SchedulerClock {
  import opened Common
  import opened Samples
  import opened Scheduler

  // ----- The timers stay in order -----

  /** escalated implies in a run, and a run lies between its start and the last tick. */
  ghost predicate AlarmInOrder(al: Alarm, lastTick: nat) {
    && (al.escalated ==> al.inRun)
    && (al.inRun ==> al.had && al.runStart <= al.last)
    && (al.had ==> al.last <= lastTick && lastTick > 0)
  }

  ghost predicate InOrder(st: State) {
    && AlarmInOrder(st.alarm, st.lastTick)
    && (st.watch.had ==> st.watch.last <= st.lastTick && st.lastTick > 0)
    && |st.requests| == MAX_LEVEL_ID + 1
    && (forall i :: 0 <= i <= MAX_LEVEL_ID && !st.requests[i].live ==> st.requests[i] == NO_REQUEST)
  }

  /** Ticks carry a stamp; the last tick, moved by a step forward, still fits 64 bits. */
  ghost predicate Fits(st: State, e: Event) {
    match e
    case Tick(s) => 0 < s.ts < U64
    case Forward(d) => st.lastTick + d < U64
    case _ => true
  }

  lemma BackKeepsOrder(st: State, now: nat)
    requires InOrder(st) && 0 < now
    ensures var back := SteppedBack(st, now); InOrder(back.(lastTick := now))
  {
  }

  lemma AlarmKeepsOrder(cfg: Config, al: Alarm, now: nat, a: Anomaly)
    requires AlarmInOrder(al, now) && 0 < now
    ensures AlarmInOrder(AlarmStepped(cfg, al, now, a), now)
  {
  }

  lemma TickKeepsOrder(cfg: Config, st: State, s: Sample)
    requires InOrder(st) && 0 < s.ts
    ensures InOrder(Ticked(cfg, st, s))
  {
    BackKeepsOrder(st, s.ts);
    AlarmKeepsOrder(cfg, SteppedBack(st, s.ts).alarm, s.ts, CheckAnomaly(cfg, st.alarm.state, s));
  }

  /** The one difference tick takes unguarded, now - anomaly_run_start_ns_, never wraps. */
  lemma NoWrap(st: State, now: nat)
    requires InOrder(st) && 0 < now
    ensures var al := SteppedBack(st, now).alarm; al.inRun ==> Minus(now, al.runStart) == now - al.runStart
  {
    BackKeepsOrder(st, now);
  }

  lemma AppliedKeepsOrder(cfg: Config, st: State, e: Event)
    requires InOrder(st) && Fits(st, e)
    ensures InOrder(Applied(cfg, st, e))
  {
    match e
    case Tick(s) => TickKeepsOrder(cfg, st, s);
    case _ =>
  }

  ghost predicate AllFit(cfg: Config, st: State, es: seq<Event>)
    decreases |es|
  {
    es == [] || (Fits(st, es[0]) && AllFit(cfg, Applied(cfg, st, es[0]), es[1..]))
  }

  lemma {:induction false} OrderKept(cfg: Config, st: State, es: seq<Event>)
    requires InOrder(st) && AllFit(cfg, st, es)
    ensures InOrder(Ran(cfg, st, es))
    decreases |es|
  {
    if es != [] {
      AppliedKeepsOrder(cfg, st, es[0]);
      OrderKept(cfg, Applied(cfg, st, es[0]), es[1..]);
    }
  }

  /** In every reachable state, through any clock steps. */
  lemma RunsKeepOrder(cfg: Config, es: seq<Event>)
    requires AllFit(cfg, Initial(), es)
    ensures InOrder(Ran(cfg, Initial(), es))
  {
    OrderKept(cfg, Initial(), es);
  }

  // ----- A step forward: the same run, later -----

  ghost predicate RequestLater(a: Request, b: Request, d: nat) {
    && a.live == b.live
    && (a.live ==> b.until == a.until + d && b.made == if a.made == 0 then 0 else a.made + d)
    && (!a.live ==> a == b == NO_REQUEST)
  }

  /** b's alarm is a's, d later; what is not live does not matter. */
  ghost predicate AlarmLater(a: Alarm, b: Alarm, d: nat) {
    && a.state == b.state && a.had == b.had && (a.had ==> b.last == a.last + d)
    && a.inRun == b.inRun && (a.inRun ==> b.runStart == a.runStart + d)
    && a.escalated == b.escalated && (a.escalated ==> a.had)
  }

  ghost predicate WatchLater(a: Watch, b: Watch, d: nat) {
    a.clients == b.clients && a.had == b.had && (a.had ==> b.last == a.last + d)
  }

  ghost predicate TimersLater(a: State, b: State, d: nat) {
    && AlarmLater(a.alarm, b.alarm, d) && WatchLater(a.watch, b.watch, d)
    && (a.lastTick == 0 <==> b.lastTick == 0) && (a.lastTick != 0 ==> b.lastTick == a.lastTick + d)
  }

  /** Deadlines d later, whenever they were made. */
  ghost predicate DeadlinesLater(a: seq<Request>, b: seq<Request>, d: nat) {
    |a| == |b| && forall i :: 0 <= i < |a| ==>
      a[i].live == b[i].live && (a[i].live ==> b[i].until == a[i].until + d)
  }

  ghost predicate RequestsLater(a: seq<Request>, b: seq<Request>, d: nat) {
    |a| == |b| && forall i :: 0 <= i < |a| ==> RequestLater(a[i], b[i], d)
  }

  /** b is a with every live instant d later. */
  ghost predicate Later(a: State, b: State, d: nat) {
    a.level == b.level && TimersLater(a, b, d) && RequestsLater(a.requests, b.requests, d)
  }

  /** The same but for when the requests were made. */
  ghost predicate DueLater(a: State, b: State, d: nat) {
    a.level == b.level && TimersLater(a, b, d) && DeadlinesLater(a.requests, b.requests, d)
  }

  /** Everything held fits 64 bits after the step. */
  ghost predicate CanMove(st: State, d: nat) {
    && st.lastTick + d < U64 && st.watch.last + d < U64 && st.alarm.last + d < U64 && st.alarm.runStart + d < U64
    && forall i :: 0 <= i < |st.requests| ==> st.requests[i].until + d < U64 && st.requests[i].made + d < U64
  }

  lemma ForwardIsLater(st: State, d: nat)
    requires InOrder(st) && CanMove(st, d)
    ensures Later(st, SteppedForward(st, d), d)
  {
  }

  /** A step back that reaches no instant's beginning of time. */
  ghost predicate NoneSaturates(st: State, now: nat) {
    st.lastTick != 0 && now < st.lastTick ==>
      var d := st.lastTick - now;
      && (st.watch.had ==> st.watch.last >= d) && (st.alarm.had ==> st.alarm.last >= d)
      && (st.alarm.inRun ==> st.alarm.runStart >= d)
      && forall i :: 0 <= i < |st.requests| && st.requests[i].live ==> st.requests[i].until >= d
  }

  lemma RequestedLater(a: State, b: State, d: nat, level: nat, now: nat)
    requires DeadlinesLater(a.requests, b.requests, d)
    ensures Requested(a, level, now) == Requested(b, level, now + d)
  {
  }

  lemma {:induction false} CustomsLater(cfg: Config, a: State, b: State, d: nat, now: nat, best: Choice, k: nat)
    requires k <= |cfg.customs| && DeadlinesLater(a.requests, b.requests, d)
    ensures ConsiderCustoms(cfg, a, now, best, k) == ConsiderCustoms(cfg, b, now + d, best, k)
    decreases |cfg.customs| - k
  {
    if k < |cfg.customs| {
      var c := cfg.customs[k];
      RequestedLater(a, b, d, c.id, now);
      CustomsLater(cfg, a, b, d, now, Consider(cfg, best, Requested(a, c.id, now), c.id, c.priority), k + 1);
    }
  }

  lemma SelectLater(cfg: Config, a: State, b: State, d: nat, now: nat)
    requires TimersLater(a, b, d) && DeadlinesLater(a.requests, b.requests, d)
    ensures Select(cfg, a, now) == Select(cfg, b, now + d)
  {
    RequestedLater(a, b, d, L2, now);
    RequestedLater(a, b, d, L3, now);
    var l1 := Choice(L1, PRIORITY_L1, cfg.IntervalMs(L1));
    var l2 := Consider(cfg, l1, ActiveL2(cfg, a, now), L2, PRIORITY_L2);
    var l3 := Consider(cfg, l2, ActiveL3(cfg, a, now), L3, PRIORITY_L3);
    CustomsLater(cfg, a, b, d, now, l3, 0);
  }

  lemma AlarmStepLater(cfg: Config, a: Alarm, b: Alarm, d: nat, now: nat, an: Anomaly)
    requires AlarmLater(a, b, d) && (a.inRun ==> a.runStart <= now)
    ensures AlarmLater(AlarmStepped(cfg, a, now, an), AlarmStepped(cfg, b, now + d, an), d)
  {
  }

  /** The two states the levels are selected in. */
  lemma SeenLater(cfg: Config, a: State, b: State, d: nat, now: nat, an: Anomaly)
    requires Later(a, b, d) && InOrder(a) && 0 < now && NoneSaturates(a, now)
    ensures var a', b' := Seen(cfg, a, now, an), Seen(cfg, b, now + d, an);
      TimersLater(a', b', d) && RequestsLater(a'.requests, b'.requests, d)
  {
    BackKeepsOrder(a, now);
    AlarmStepLater(cfg, SteppedBack(a, now).alarm, SteppedBack(b, now + d).alarm, d, now, an);
  }

  lemma TickLater(cfg: Config, a: State, b: State, d: nat, now: nat, an: Anomaly)
    requires Later(a, b, d) && InOrder(a) && 0 < now && NoneSaturates(a, now)
    ensures Later(TickedAs(cfg, a, now, an), TickedAs(cfg, b, now + d, an), d)
  {
    SeenLater(cfg, a, b, d, now, an);
    SelectLater(cfg, Seen(cfg, a, now, an), Seen(cfg, b, now + d, an), d, now);
  }

  lemma SameReading(cfg: Config, was: Anomaly, s: Sample, t: nat)
    ensures CheckAnomaly(cfg, was, s.(ts := t)) == CheckAnomaly(cfg, was, s)
  {
  }

  lemma SampleLater(cfg: Config, a: State, b: State, d: nat, s: Sample)
    requires Later(a, b, d) && InOrder(a) && 0 < s.ts && NoneSaturates(a, s.ts)
    ensures Later(Ticked(cfg, a, s), Ticked(cfg, b, s.(ts := s.ts + d)), d)
  {
    SameReading(cfg, a.alarm.state, s, s.ts + d);
    TickLater(cfg, a, b, d, s.ts, CheckAnomaly(cfg, a.alarm.state, s));
  }

  /** The event on the later clock. */
  function EventLater(e: Event, d: nat): Event {
    match e
    case Tick(s) => Tick(s.(ts := s.ts + d))
    case Ask(level, until, made) => Ask(level, until + d, if made == 0 then 0 else made + d)
    case _ => e
  }

  /** A tick reaches no instant's beginning of time, a further step forward no instant's end, on either clock. */
  ghost predicate Movable(st: State, e: Event, d: nat) {
    match e
    case Tick(s) => 0 < s.ts < U64 && NoneSaturates(st, s.ts)
    case Forward(f) => CanMove(st, d + f)
    case _ => true
  }

  lemma ForwardTwice(a: State, b: State, d: nat, f: nat)
    requires Later(a, b, d) && InOrder(a) && CanMove(a, d + f)
    ensures Later(SteppedForward(a, f), SteppedForward(b, f), d)
  {
    forall i | 0 <= i < |a.requests|
      ensures RequestLater(RequestForward(a.requests[i], f), RequestForward(b.requests[i], f), d)
    {
      assert RequestLater(a.requests[i], b.requests[i], d);
    }
  }

  lemma AskLater(cfg: Config, a: State, b: State, d: nat, level: nat, until: nat, made: nat)
    requires Later(a, b, d)
    ensures Later(Asked(cfg, a, level, until, made), Asked(cfg, b, level, until + d, if made == 0 then 0 else made + d), d)
  {
    if Known(cfg, level) && level < |a.requests| {
      assert RequestLater(a.requests[level], b.requests[level], d);
    }
  }

  lemma TickKeepsLater(cfg: Config, a: State, b: State, d: nat, e: Event)
    requires Later(a, b, d) && InOrder(a) && Movable(a, e, d) && e.Tick?
    ensures Later(Applied(cfg, a, e), Applied(cfg, b, EventLater(e, d)), d)
  {
    SampleLater(cfg, a, b, d, e.s);
  }

  lemma AskKeepsLater(cfg: Config, a: State, b: State, d: nat, e: Event)
    requires Later(a, b, d) && InOrder(a) && Movable(a, e, d) && e.Ask?
    ensures Later(Applied(cfg, a, e), Applied(cfg, b, EventLater(e, d)), d)
  {
    AskLater(cfg, a, b, d, e.level, e.until, e.made);
  }

  lemma EventKeepsLater(cfg: Config, a: State, b: State, d: nat, e: Event)
    requires Later(a, b, d) && InOrder(a) && Movable(a, e, d)
    ensures Later(Applied(cfg, a, e), Applied(cfg, b, EventLater(e, d)), d)
  {
    if e.Tick? {
      TickKeepsLater(cfg, a, b, d, e);
    } else if e.Ask? {
      AskKeepsLater(cfg, a, b, d, e);
    } else if e.Forward? {
      ForwardTwice(a, b, d, e.d);
    } else {
      ClientsLater(a, b, d, e.n);
    }
  }

  lemma ClientsLater(a: State, b: State, d: nat, n: nat)
    requires Later(a, b, d)
    ensures Later(a.(watch := a.watch.(clients := n)), b.(watch := b.watch.(clients := n)), d)
  {
  }

  ghost predicate AllMovable(cfg: Config, st: State, es: seq<Event>, d: nat)
    decreases |es|
  {
    es == [] || (Movable(st, es[0], d) && AllMovable(cfg, Applied(cfg, st, es[0]), es[1..], d))
  }

  function AllLater(es: seq<Event>, d: nat): seq<Event> {
    seq(|es|, i requires 0 <= i < |es| => EventLater(es[i], d))
  }

  /** The levels selected tick by tick along a run. */
  function Levels(cfg: Config, st: State, es: seq<Event>): seq<nat>
    decreases |es|
  {
    if es == [] then []
    else
      var next := Applied(cfg, st, es[0]);
      (if es[0].Tick? then [next.level] else []) + Levels(cfg, next, es[1..])
  }

  lemma {:induction false} RunKeepsLater(cfg: Config, a: State, b: State, d: nat, es: seq<Event>)
    requires Later(a, b, d) && InOrder(a) && AllMovable(cfg, a, es, d)
    ensures Levels(cfg, a, es) == Levels(cfg, b, AllLater(es, d))
    decreases |es|
  {
    if es != [] {
      EventKeepsLater(cfg, a, b, d, es[0]);
      AppliedKeepsOrder(cfg, a, es[0]);
      assert AllLater(es, d)[1..] == AllLater(es[1..], d);
      RunKeepsLater(cfg, Applied(cfg, a, es[0]), Applied(cfg, b, EventLater(es[0], d)), d, es[1..]);
    }
  }

  /** A step forward of d, then any run on the stepped clock, selects the levels of the run without it. */
  lemma StepForwardUnseen(cfg: Config, st: State, d: nat, es: seq<Event>)
    requires InOrder(st) && CanMove(st, d) && AllMovable(cfg, st, es, d)
    ensures Levels(cfg, SteppedForward(st, d), AllLater(es, d)) == Levels(cfg, st, es)
  {
    ForwardIsLater(st, d);
    RunKeepsLater(cfg, st, SteppedForward(st, d), d, es);
  }

  // ----- A step back: a tick with no time passed -----

  /** Each live request was made before the step, on the clock it stepped back from. */
  ghost predicate RequestsBefore(st: State, now: nat) {
    forall i :: 0 <= i < |st.requests| && st.requests[i].live ==>
      st.requests[i].made == 0 || st.requests[i].made > now
  }

  /** A tick seen at now < last is the tick at last, moved back as far: same level, same time left of everything. */
  lemma StepBackUnseen(cfg: Config, st: State, s: Sample)
    requires InOrder(st) && 0 < s.ts < st.lastTick
    requires NoneSaturates(st, s.ts) && RequestsBefore(st, s.ts)
    ensures DueLater(Ticked(cfg, st, s), Ticked(cfg, st, s.(ts := st.lastTick)), st.lastTick - s.ts)
  {
    var an := CheckAnomaly(cfg, st.alarm.state, s);
    SameReading(cfg, st.alarm.state, s, st.lastTick);
    SelectLater(cfg, Seen(cfg, st, s.ts, an), Seen(cfg, st, st.lastTick, an), st.lastTick - s.ts, s.ts);
  }

  // ----- What may follow a step back -----

  /** A step back moves the request's deadline. */
  predicate Moves(r: Request, now: nat) {
    r.made == 0 || r.made > now
  }

  /** On both clocks a further step back moves the same deadlines. */
  ghost predicate BackAgrees(a: State, b: State, d: nat, now: nat) {
    |a.requests| == |b.requests| && forall i :: 0 <= i < |a.requests| && a.requests[i].live ==>
      (Moves(a.requests[i], now) <==> Moves(b.requests[i], now + d))
  }

  /** The held request counts as made after the new one: a clock stepped back since. */
  predicate Stale(r: Request, made: nat) {
    made != 0 && r.made > made
  }

  function MadeLater(made: nat, d: nat): nat {
    if made == 0 then 0 else made + d
  }

  /**
   A request means the same on both clocks: for an unknown level or one not asked for, or with
   the held request stale on both or on neither, or with a deadline no earlier than the held one.
   */
  ghost predicate AskAgrees(cfg: Config, a: State, b: State, d: nat, level: nat, until: nat, made: nat) {
    !Known(cfg, level) || level >= |a.requests| || level >= |b.requests| || !a.requests[level].live ||
    (Stale(a.requests[level], made) <==> Stale(b.requests[level], MadeLater(made, d))) ||
    until >= a.requests[level].until
  }

  /** What may follow: any event that means the same on both clocks. */
  ghost predicate Onward(cfg: Config, a: State, b: State, d: nat, e: Event) {
    match e
    case Tick(s) =>
      0 < s.ts < U64 && NoneSaturates(a, s.ts) && (a.lastTick != 0 && s.ts < a.lastTick ==> BackAgrees(a, b, d, s.ts))
    case Ask(level, until, made) => AskAgrees(cfg, a, b, d, level, until, made)
    case Forward(f) => CanMove(a, d + f)
    case Clients(_) => true
  }

  lemma BackDue(a: State, b: State, d: nat, now: nat)
    requires DueLater(a, b, d) && NoneSaturates(a, now) && a.lastTick != 0 && now < a.lastTick && BackAgrees(a, b, d, now)
    ensures DeadlinesLater(SteppedBack(a, now).requests, SteppedBack(b, now + d).requests, d)
  {
  }

  lemma SeenDue(cfg: Config, a: State, b: State, d: nat, now: nat, an: Anomaly)
    requires DueLater(a, b, d) && InOrder(a) && 0 < now && NoneSaturates(a, now)
    requires a.lastTick != 0 && now < a.lastTick ==> BackAgrees(a, b, d, now)
    ensures var a', b' := Seen(cfg, a, now, an), Seen(cfg, b, now + d, an);
      TimersLater(a', b', d) && DeadlinesLater(a'.requests, b'.requests, d)
  {
    BackKeepsOrder(a, now);
    AlarmStepLater(cfg, SteppedBack(a, now).alarm, SteppedBack(b, now + d).alarm, d, now, an);
    if a.lastTick != 0 && now < a.lastTick {
      BackDue(a, b, d, now);
    }
  }

  lemma OnwardTick(cfg: Config, a: State, b: State, d: nat, now: nat, an: Anomaly)
    requires DueLater(a, b, d) && InOrder(a) && 0 < now && NoneSaturates(a, now)
    requires a.lastTick != 0 && now < a.lastTick ==> BackAgrees(a, b, d, now)
    ensures DueLater(TickedAs(cfg, a, now, an), TickedAs(cfg, b, now + d, an), d)
  {
    SeenDue(cfg, a, b, d, now, an);
    SelectLater(cfg, Seen(cfg, a, now, an), Seen(cfg, b, now + d, an), d, now);
  }

  lemma OnwardForward(a: State, b: State, d: nat, f: nat)
    requires DueLater(a, b, d) && InOrder(a) && CanMove(a, d + f)
    ensures DueLater(SteppedForward(a, f), SteppedForward(b, f), d)
  {
  }

  /**
   A request keeps the two runs together exactly when it means the same on both clocks: an old
   request that counts as stale on one clock only gives way there even to an earlier deadline.
   */
  lemma AskAfterBack(cfg: Config, a: State, b: State, d: nat, level: nat, until: nat, made: nat)
    requires DueLater(a, b, d)
    ensures DueLater(Asked(cfg, a, level, until, made), Asked(cfg, b, level, until + d, MadeLater(made, d)), d)
       <==> AskAgrees(cfg, a, b, d, level, until, made)
  {
    var a', b' := Asked(cfg, a, level, until, made), Asked(cfg, b, level, until + d, MadeLater(made, d));
    if Known(cfg, level) && level < |a.requests| {
      assert b.requests[level].live == a.requests[level].live;
      if DeadlinesLater(a'.requests, b'.requests, d) {
        assert b'.requests[level].until == a'.requests[level].until + d;
      }
    }
  }

  ghost predicate AllOnward(cfg: Config, a: State, b: State, d: nat, es: seq<Event>)
    decreases |es|
  {
    es == [] ||
    (Onward(cfg, a, b, d, es[0]) &&
     AllOnward(cfg, Applied(cfg, a, es[0]), Applied(cfg, b, EventLater(es[0], d)), d, es[1..]))
  }

  lemma OnwardSample(cfg: Config, a: State, b: State, d: nat, s: Sample)
    requires DueLater(a, b, d) && InOrder(a) && Onward(cfg, a, b, d, Tick(s))
    ensures DueLater(Ticked(cfg, a, s), Ticked(cfg, b, s.(ts := s.ts + d)), d)
  {
    SameReading(cfg, a.alarm.state, s, s.ts + d);
    OnwardTick(cfg, a, b, d, s.ts, CheckAnomaly(cfg, a.alarm.state, s));
  }

  lemma OnwardAsk(cfg: Config, a: State, b: State, d: nat, e: Event)
    requires DueLater(a, b, d) && e.Ask? && Onward(cfg, a, b, d, e)
    ensures DueLater(Applied(cfg, a, e), Applied(cfg, b, EventLater(e, d)), d)
  {
    AskAfterBack(cfg, a, b, d, e.level, e.until, e.made);
  }

  lemma OnwardClients(cfg: Config, a: State, b: State, d: nat, n: nat)
    requires DueLater(a, b, d)
    ensures DueLater(Applied(cfg, a, Clients(n)), Applied(cfg, b, Clients(n)), d)
  {
  }

  lemma OnwardKeepsTimers(cfg: Config, a: State, b: State, d: nat, e: Event)
    requires DueLater(a, b, d) && InOrder(a) && Onward(cfg, a, b, d, e)
    ensures DueLater(Applied(cfg, a, e), Applied(cfg, b, EventLater(e, d)), d)
  {
    match e
    case Tick(s) => OnwardSample(cfg, a, b, d, s);
    case Ask(_, _, _) => OnwardAsk(cfg, a, b, d, e);
    case Forward(f) => OnwardForward(a, b, d, f);
    case Clients(n) => OnwardClients(cfg, a, b, d, n);
  }

  /**
   After a step back the levels go on as if it had not happened, tick for tick, through further
   steps of the clock and requests, as long as each means the same on both clocks.
   */
  lemma {:induction false} OnwardAfterBack(cfg: Config, a: State, b: State, d: nat, es: seq<Event>)
    requires DueLater(a, b, d) && InOrder(a) && AllOnward(cfg, a, b, d, es)
    ensures Levels(cfg, a, es) == Levels(cfg, b, AllLater(es, d))
    decreases |es|
  {
    if es != [] {
      OnwardKeepsTimers(cfg, a, b, d, es[0]);
      AppliedKeepsOrder(cfg, a, es[0]);
      assert AllLater(es, d)[1..] == AllLater(es[1..], d);
      OnwardAfterBack(cfg, Applied(cfg, a, es[0]), Applied(cfg, b, EventLater(es[0], d)), d, es[1..]);
    }
  }

  // ----- The run that does not agree -----

  const PLAIN: Config := Config(Adaptive, 60, 10, 1, 0, 0, 0, false, 1.0, 1.0, 1.0, 2.0, 2.0, 2.0, [])

  function Bare(ts: nat): Sample {
    Sample(ts, L1, false, {}, {}, false, map[])
  }

  /** L3 held until the deadline by a request made at 90. */
  function Held(until: nat, made: nat, lastTick: nat): State {
    Initial().(requests := Initial().requests[L3 := Request(true, until, made)], lastTick := lastTick, level := L3)
  }

  /** Nothing else is going on: the request alone decides. */
  lemma HeldTick(until: nat, made: nat, was: nat, now: nat)
    requires 0 < was <= now
    ensures Ticked(PLAIN, Held(until, made, was), Bare(now)) ==
      Held(until, made, now).(level := if now <= until then L3 else L1)
  {
    var st := Held(until, made, was);
    assert Initial().requests[L2] == NO_REQUEST;
    assert Requested(st, L3, now) == (now <= until) && !Requested(st, L2, now);
    assert CheckAnomaly(PLAIN, Normal, Bare(now)) == Normal;
  }

  lemma HeldBack(until: nat, made: nat, was: nat, now: nat)
    requires 0 < now < was && made > now && until >= was
    ensures Ticked(PLAIN, Held(until, made, was), Bare(now)) == Held(until - (was - now), made, now)
  {
    var st, d := Held(until, made, was), was - now;
    var back := SteppedBack(st, now);
    assert back.requests == Held(until - d, made, was).requests;
    assert back == Held(until - d, made, was);
    assert Initial().requests[L2] == NO_REQUEST;
    assert Requested(back, L3, now) && !Requested(back, L2, now);
    assert CheckAnomaly(PLAIN, Normal, Bare(now)) == Normal;
  }

  lemma HeldAsk(until: nat, made: nat, lastTick: nat, u: nat, m: nat)
    requires m > 0
    ensures Asked(PLAIN, Held(until, made, lastTick), L3, u, m) ==
      if made <= m && until >= u then Held(until, made, lastTick) else Held(u, m, lastTick)
  {
    var st := Held(until, made, lastTick);
    assert st.requests[L3] == Request(true, until, made);
    assert st.requests[L3 := Request(true, u, m)] == Held(u, m, lastTick).requests;
  }

  /**
   L3 asked for at 90 until 200, the clock stepped back from 100 to 50, L3 asked for again until
   10 later: the stepped clock's scheduler leaves L3 then, the other stays.
   */
  lemma StaleRequestDiffers()
    ensures var st := Held(200, 90, 100);
      var a, b := Ticked(PLAIN, st, Bare(50)), Ticked(PLAIN, st, Bare(100));
      var es := [Ask(L3, 60, 51), Tick(Bare(70))];
      DueLater(a, b, 50) && Levels(PLAIN, a, es) == [L1] && Levels(PLAIN, b, AllLater(es, 50)) == [L3]
  {
    HeldBack(200, 90, 100, 50);
    HeldTick(200, 90, 100, 100);
    HeldAsk(150, 90, 50, 60, 51);
    HeldAsk(200, 90, 100, 110, 101);
    HeldTick(60, 51, 50, 70);
    HeldTick(200, 90, 100, 120);
    TwoEvents(Held(150, 90, 50), Ask(L3, 60, 51), Bare(70));
    TwoEvents(Held(200, 90, 100), Ask(L3, 110, 101), Bare(120));
    assert AllLater([Ask(L3, 60, 51), Tick(Bare(70))], 50) == [Ask(L3, 110, 101), Tick(Bare(120))];
  }

  lemma TwoEvents(st: State, e: Event, s: Sample)
    requires !e.Tick?
    ensures Levels(PLAIN, st, [e, Tick(s)]) == [Ticked(PLAIN, Applied(PLAIN, st, e), s).level]
  {
    var es := [e, Tick(s)];
    var next := Applied(PLAIN, st, e);
    assert es[1..] == [Tick(s)] && [Tick(s)][1..] == [];
    assert Levels(PLAIN, next, [Tick(s)]) == [Ticked(PLAIN, next, s).level] + Levels(PLAIN, Ticked(PLAIN, next, s), []);
  }
}
