/** TierAggregator: a window of finer samples folded into one coarse record. */
module Aggregator {
  import opened Samples

  /** How a reading is combined over the samples of a window that have its group. */
  datatype Kind =
    | Mean
    | RoundedMean     // a mean kept as an integer
    | Max             // never below 0
    | PresentMax      // over the samples that say the reading is present
    | PresentMin
    | PresentAbsMax   // the one furthest from 0
    | PresentMax0     // never below 0
    | Sum             // saturated at 32 bits
    | Last

  function GroupOf(f: Field): Group {
    match f
    case CpuTotal | CpuCount | CpuUser | CpuSystem | CpuIowait | CpuIrq | CpuSteal | CpuIdle => Cpu
    case MemTotal | MemAvailable | MemAvailablePercent => Mem
    case SwapTotal | SwapUsed | SwapUsedPercent => Swap
    case Load1m | Load5m | Load15m => Load
    case DiskRead | DiskWrite | DiskDevices => Disk
    case NetRx | NetTx | NetInterfaces => Net
    case ProcTotal | ProcRunning | ProcSleeping | ProcBlocked | ProcStopped | ProcZombie | ProcThreads => Proc
    case EntropyBits => Entropy
    case SelfRss | SelfPeakRss | SelfCpuUser | SelfCpuSystem => Self
    case ThermalMax | ThermalSensors => Thermal
    case FileEvents | FileWatched => FileWatch
    case UptimeSeconds => Uptime
    case TcpEstablished | TcpTimeWait | TcpActive | TcpPassive | TcpRetransmits | TcpIn | TcpOut | TcpErrors => Tcp
    case UdpIn | UdpOut | UdpNoPort | UdpErrors => Udp
    case FsCount | FsUsedPercent | FsInodesPercent => Fs
    case ClockOffset | ClockMaxError => Clock
    case IcmpIn | IcmpOut | IcmpErrors | IcmpUnreachable => Icmp
  }

  function KindOf(f: Field): Kind {
    match f
    case MemAvailable | SwapUsed | DiskRead | DiskWrite | NetRx | NetTx => RoundedMean
    case ProcTotal | ProcRunning | ProcSleeping | ProcBlocked | ProcStopped | ProcZombie | ProcThreads
       | TcpEstablished | TcpTimeWait | SelfRss | FsUsedPercent | FsInodesPercent => Max
    case ThermalMax => PresentMax
    case EntropyBits => PresentMin
    case ClockOffset => PresentAbsMax
    case ClockMaxError => PresentMax0
    case FileEvents => Sum
    case CpuCount | MemTotal | SwapTotal | DiskDevices | NetInterfaces | ThermalSensors | FsCount
       | FileWatched | UptimeSeconds | SelfPeakRss | SelfCpuUser | SelfCpuSystem => Last
    case _ => Mean
  }

  predicate Gated(k: Kind) {
    k.PresentMax? || k.PresentMin? || k.PresentAbsMax? || k.PresentMax0?
  }

  /** The groups that carry a present flag. */
  predicate Flagged(g: Group) {
    g in {Thermal, Entropy, FileWatch, Tcp, Udp, Icmp, Fs, Clock}
  }

  const U32_MAX: real := 4294967295.0

  function Abs(x: real): real { if x < 0.0 then -x else x }
  function RMax(x: real, y: real): real { if x < y then y else x }
  function RMin(x: real, y: real): real { if y < x then y else x }

  /** llround, of a value that is not negative. */
  function Round(x: real): real { (x + 0.5).Floor as real }

  /** The sample contributes to the field. */
  predicate Gives(s: Sample, f: Field) {
    GroupOf(f) in s.groups && (Gated(KindOf(f)) ==> GroupOf(f) in s.present)
  }

  // ----- The accumulators -----

  /** had: the fields some sample gave; acc: a sum, an extreme or the last value, by kind. */
  datatype Acc = Acc(
    n: nat, firstTs: nat, lastTs: nat, counts: map<Group, nat>,
    had: set<Field>, acc: map<Field, real>, present: set<Group>, synced: bool)

  function Count(a: Acc, g: Group): nat { if g in a.counts then a.counts[g] else 0 }
  function Value(a: Acc, f: Field): real { if f in a.acc then a.acc[f] else 0.0 }

  const EMPTY: Acc := Acc(0, 0, 0, map[], {}, map[], {}, true)

  /** One more value of a field. */
  function Combined(k: Kind, first: bool, was: real, x: real): real {
    match k
    case Mean | RoundedMean | Sum => was + x
    case Max | PresentMax0 => RMax(was, x)
    case PresentMax => if first then x else RMax(was, x)
    case PresentMin => if first then x else RMin(was, x)
    case PresentAbsMax => if first || Abs(x) > Abs(was) then x else was
    case Last => x
  }

  function Added(a: Acc, s: Sample): Acc {
    Acc(a.n + 1,
        if a.n == 0 then s.ts else a.firstTs,
        s.ts,
        map g: Group | g in a.counts || g in s.groups :: Count(a, g) + (if g in s.groups then 1 else 0),
        a.had + (set f: Field | Gives(s, f)),
        map f: Field | f in a.acc || Gives(s, f) ::
          if Gives(s, f) then Combined(KindOf(f), f !in a.had, Value(a, f), s.Val(f)) else a.acc[f],
        a.present + (set g: Group | g in s.groups && g in s.present && Flagged(g)),
        a.synced && (Clock in s.groups && Clock in s.present ==> s.synced))
  }

  /** The record of a window: means divided, counts rounded, the sum saturated. */
  function FieldOut(a: Acc, f: Field): real {
    var n := Count(a, GroupOf(f));
    match KindOf(f)
    case Mean => if n == 0 then 0.0 else Value(a, f) / n as real
    case RoundedMean => if n == 0 then 0.0 else Round(Value(a, f) / n as real)
    case Sum => RMin(Value(a, f), U32_MAX)
    case _ => Value(a, f)
  }

  function Folded(a: Acc, level: nat): Sample {
    Sample(a.lastTs, level, true,
           (set g: Group | Count(a, g) > 0),
           a.present,
           a.synced && Clock in a.present,
           map f: Field | f in a.had :: FieldOut(a, f))
  }

  // ----- The object -----

  class TierAggregator {
    const outLevel: nat
    var state: Acc
    ghost var window: seq<Sample>

    ghost predicate Valid()
      reads this
    {
      state == Accumulated(window)
    }

    constructor (level: nat)
      ensures Valid() && window == [] && outLevel == level
    {
      outLevel, state, window := level, EMPTY, [];
    }

    method Reset()
      modifies this
      ensures Valid() && window == []
    {
      state, window := EMPTY, [];
    }

    method Add(s: Sample)
      requires Valid()
      modifies this
      ensures Valid() && window == old(window) + [s]
    {
      assert (window + [s])[..|window|] == window;
      state := Added(state, s);
      window := window + [s];
    }

    function Size(): (n: nat)
      requires Valid()
      reads this
      ensures n == |window|
    {
      SizeIs(window);
      state.n
    }

    function FirstTimestamp(): (t: nat)
      requires Valid()
      reads this
      ensures t == if window == [] then 0 else window[0].ts
    {
      FirstIs(window);
      state.firstTs
    }

    /** Always a new window after it; nothing when the window was empty. */
    method Fold() returns (some: bool, out: Sample)
      requires Valid()
      modifies this
      ensures Valid() && window == [] && (some <==> old(window) != [])
      ensures out == Folded(Accumulated(old(window)), outLevel)
    {
      SizeIs(window);
      some := state.n > 0;
      out := Folded(state, outLevel);
      Reset();
    }
  }

  function Accumulated(ws: seq<Sample>): Acc {
    if ws == [] then EMPTY else Added(Accumulated(ws[..|ws| - 1]), ws[|ws| - 1])
  }

  lemma {:induction false} SizeIs(ws: seq<Sample>)
    ensures Accumulated(ws).n == |ws|
  {
    if ws != [] {
      SizeIs(ws[..|ws| - 1]);
    }
  }

  lemma {:induction false} FirstIs(ws: seq<Sample>)
    ensures Accumulated(ws).firstTs == if ws == [] then 0 else ws[0].ts
  {
    if ws != [] {
      SizeIs(ws[..|ws| - 1]);
      FirstIs(ws[..|ws| - 1]);
    }
  }

  // ----- The batch the accumulators stand for -----

  /** The values a window's samples give a field, in order. */
  function Given(ws: seq<Sample>, f: Field): seq<real> {
    if ws == [] then []
    else Given(ws[..|ws| - 1], f) + (if Gives(ws[|ws| - 1], f) then [ws[|ws| - 1].Val(f)] else [])
  }

  function SumOf(xs: seq<real>): real {
    if xs == [] then 0.0 else xs[0] + SumOf(xs[1..])
  }

  ghost predicate IsMax(xs: seq<real>, m: real) {
    m in xs && forall i :: 0 <= i < |xs| ==> xs[i] <= m
  }

  ghost predicate IsMin(xs: seq<real>, m: real) {
    m in xs && forall i :: 0 <= i < |xs| ==> m <= xs[i]
  }

  /** The first of the values furthest from 0. */
  ghost predicate IsFurthest(xs: seq<real>, m: real) {
    exists i :: 0 <= i < |xs| && xs[i] == m
      && (forall j :: 0 <= j < |xs| ==> Abs(xs[j]) <= Abs(m)) && (forall j :: 0 <= j < i ==> Abs(xs[j]) < Abs(m))
  }

  /** What a field of the folded record is of the values given. */
  ghost predicate Summarises(k: Kind, xs: seq<real>, m: real) {
    if xs == [] then m == 0.0
    else
      match k
      case Mean => m == SumOf(xs) / |xs| as real
      case RoundedMean => m == Round(SumOf(xs) / |xs| as real)
      case Max | PresentMax0 => (m == 0.0 || m in xs) && m >= 0.0 && forall i :: 0 <= i < |xs| ==> xs[i] <= m
      case PresentMax => IsMax(xs, m)
      case PresentMin => IsMin(xs, m)
      case PresentAbsMax => IsFurthest(xs, m)
      case Sum => m == RMin(SumOf(xs), U32_MAX)
      case Last => m == xs[|xs| - 1]
  }

  /** The accumulator of a field against the values given. */
  ghost predicate Tallies(k: Kind, xs: seq<real>, had: bool, m: real) {
    && had == (xs != [])
    && (xs == [] ==> m == 0.0)
    && (k.Mean? || k.RoundedMean? || k.Sum? ==> m == SumOf(xs))
    && (xs != [] && !k.Mean? && !k.RoundedMean? && !k.Sum? ==> Summarises(k, xs, m))
  }

  lemma {:induction false} SumAppend(xs: seq<real>, x: real)
    ensures SumOf(xs + [x]) == SumOf(xs) + x
  {
    if xs != [] {
      SumAppend(xs[1..], x);
      assert (xs + [x])[1..] == xs[1..] + [x];
    }
  }

  lemma ExtremeStep(k: Kind, xs: seq<real>, m: real, x: real)
    requires (k.Max? || k.PresentMax0? || k.PresentMax? || k.PresentMin? || k.Last?) && Tallies(k, xs, xs != [], m)
    ensures Summarises(k, xs + [x], Combined(k, xs == [], m, x))
  {
    var ys := xs + [x];
    assert ys[|xs|] == x;
    assert forall y :: y in xs ==> y in ys;
  }

  lemma FurthestStep(xs: seq<real>, m: real, x: real)
    requires Tallies(PresentAbsMax, xs, xs != [], m)
    ensures IsFurthest(xs + [x], Combined(PresentAbsMax, xs == [], m, x))
  {
    var ys := xs + [x];
    if xs == [] || Abs(x) > Abs(m) {
      assert ys[|xs|] == x;
      forall j | 0 <= j < |xs|
        ensures Abs(ys[j]) < Abs(x)
      {
        assert Abs(xs[j]) <= Abs(m);
      }
    } else {
      var i :| 0 <= i < |xs| && xs[i] == m
        && (forall j :: 0 <= j < |xs| ==> Abs(xs[j]) <= Abs(m)) && (forall j :: 0 <= j < i ==> Abs(xs[j]) < Abs(m));
      assert ys[i] == m;
    }
  }

  lemma TallyStep(k: Kind, xs: seq<real>, m: real, x: real)
    requires Tallies(k, xs, xs != [], m)
    ensures Tallies(k, xs + [x], true, Combined(k, xs == [], m, x))
  {
    SumAppend(xs, x);
    if k.PresentAbsMax? {
      FurthestStep(xs, m, x);
    } else if !k.Mean? && !k.RoundedMean? && !k.Sum? {
      ExtremeStep(k, xs, m, x);
    }
  }

  lemma AddedField(a: Acc, s: Sample, f: Field)
    ensures var b := Added(a, s);
      && (f in b.had <==> f in a.had || Gives(s, f))
      && (f in b.acc <==> f in a.acc || Gives(s, f))
      && Value(b, f) == if Gives(s, f) then Combined(KindOf(f), f !in a.had, Value(a, f), s.Val(f)) else Value(a, f)
  {
  }

  lemma {:induction false} AccTallies(ws: seq<Sample>, f: Field)
    ensures var a := Accumulated(ws);
      Tallies(KindOf(f), Given(ws, f), f in a.had, Value(a, f)) && (f in a.had ==> f in a.acc)
  {
    if ws != [] {
      var before, s := ws[..|ws| - 1], ws[|ws| - 1];
      AccTallies(before, f);
      AddedField(Accumulated(before), s, f);
      if Gives(s, f) {
        TallyStep(KindOf(f), Given(before, f), Value(Accumulated(before), f), s.Val(f));
      } else {
        assert Given(ws, f) == Given(before, f);
      }
    }
  }

  lemma {:induction false} CountIs(ws: seq<Sample>, f: Field)
    requires !Gated(KindOf(f))
    ensures Count(Accumulated(ws), GroupOf(f)) == |Given(ws, f)|
  {
    if ws != [] {
      CountIs(ws[..|ws| - 1], f);
    }
  }

  /** Every field of the folded record summarises, by its kind, what the window's samples gave it. */
  lemma FoldIsBatch(ws: seq<Sample>, level: nat, f: Field)
    ensures Summarises(KindOf(f), Given(ws, f), Folded(Accumulated(ws), level).Val(f))
  {
    AccTallies(ws, f);
    if !Gated(KindOf(f)) {
      CountIs(ws, f);
    }
  }

  lemma {:induction false} SumBetween(xs: seq<real>, lo: real, hi: real)
    requires forall i :: 0 <= i < |xs| ==> lo <= xs[i] <= hi
    ensures lo * |xs| as real <= SumOf(xs) <= hi * |xs| as real
  {
    if xs != [] {
      SumBetween(xs[1..], lo, hi);
    }
  }

  lemma DivideBetween(s: real, n: real, lo: real, hi: real)
    requires n > 0.0 && lo * n <= s <= hi * n
    ensures lo <= s / n <= hi
  {
    var m := s / n;
    assert m * n == s;
    assert (m - lo) * n >= 0.0 && (hi - m) * n >= 0.0;
  }

  /** A mean lies between the least and the greatest value it is of. */
  lemma MeanBetween(xs: seq<real>, lo: real, hi: real)
    requires xs != [] && forall i :: 0 <= i < |xs| ==> lo <= xs[i] <= hi
    ensures lo <= SumOf(xs) / |xs| as real <= hi
  {
    SumBetween(xs, lo, hi);
    DivideBetween(SumOf(xs), |xs| as real, lo, hi);
  }

  /** Some sample of the window has the group. */
  ghost predicate AnyHas(ws: seq<Sample>, g: Group) {
    exists i :: 0 <= i < |ws| && g in ws[i].groups
  }

  ghost predicate AnyPresent(ws: seq<Sample>, g: Group) {
    exists i :: 0 <= i < |ws| && g in ws[i].groups && g in ws[i].present
  }

  lemma AnyOneMore(before: seq<Sample>, s: Sample, g: Group)
    ensures AnyHas(before + [s], g) <==> AnyHas(before, g) || g in s.groups
    ensures AnyPresent(before + [s], g) <==> AnyPresent(before, g) || (g in s.groups && g in s.present)
  {
    var ws := before + [s];
    assert ws[|before|] == s;
    assert forall i :: 0 <= i < |before| ==> ws[i] == before[i];
  }

  lemma {:induction false} FoldGroups(ws: seq<Sample>, g: Group)
    ensures Count(Accumulated(ws), g) > 0 <==> AnyHas(ws, g)
    ensures g in Accumulated(ws).present <==> Flagged(g) && AnyPresent(ws, g)
  {
    if ws != [] {
      var before, s := ws[..|ws| - 1], ws[|ws| - 1];
      FoldGroups(before, g);
      assert ws == before + [s];
      AnyOneMore(before, s, g);
    }
  }

  /** Every sample that read the clock found it synced. */
  ghost predicate AllSynced(ws: seq<Sample>) {
    forall i :: 0 <= i < |ws| && Clock in ws[i].groups && Clock in ws[i].present ==> ws[i].synced
  }

  lemma {:induction false} FoldSynced(ws: seq<Sample>)
    ensures Accumulated(ws).synced <==> AllSynced(ws)
  {
    if ws != [] {
      var before, s := ws[..|ws| - 1], ws[|ws| - 1];
      FoldSynced(before);
      assert ws == before + [s];
    }
  }

  /** The record has every group some sample had, the present flags of any, and synced of all that read the clock. */
  lemma FoldFlags(ws: seq<Sample>, level: nat)
    requires ws != []
    ensures var r := Folded(Accumulated(ws), level);
      && (forall g :: g in r.groups <==> AnyHas(ws, g))
      && (forall g :: g in r.present <==> Flagged(g) && AnyPresent(ws, g))
      && (r.synced <==> AllSynced(ws) && AnyPresent(ws, Clock))
      && r.folded && r.level == level && r.ts == ws[|ws| - 1].ts
  {
    FoldSynced(ws);
    forall g: Group
      ensures Count(Accumulated(ws), g) > 0 <==> AnyHas(ws, g)
      ensures g in Accumulated(ws).present <==> Flagged(g) && AnyPresent(ws, g)
    {
      FoldGroups(ws, g);
    }
  }
}
