/** What every field of a folded record is of the samples of its window, field by field. */
module FoldMeaning {
  import opened Samples
  import opened Aggregator

  /** The readings of a field in the samples that have the group and, where asked, say that it is present. */
  function Readings(ws: seq<Sample>, g: Group, f: Field, present: bool): seq<real> {
    if ws == [] then []
    else
      var before, s := Readings(ws[..|ws| - 1], g, f, present), ws[|ws| - 1];
      if g in s.groups && (present ==> g in s.present) then before + [s.Val(f)] else before
  }

  function Average(xs: seq<real>): real {
    if xs == [] then 0.0 else SumOf(xs) / |xs| as real
  }

  // ----- Which fields are folded how, by their group -----

  predicate Averaged(g: Group, f: Field) {
    match g
    case Cpu => f in {CpuTotal, CpuUser, CpuSystem, CpuIowait, CpuIrq, CpuSteal, CpuIdle}
    case Mem => f == MemAvailablePercent
    case Swap => f == SwapUsedPercent
    case Load => f in {Load1m, Load5m, Load15m}
    case Tcp => f in {TcpActive, TcpPassive, TcpRetransmits, TcpIn, TcpOut, TcpErrors}
    case Udp => f in {UdpIn, UdpOut, UdpNoPort, UdpErrors}
    case Icmp => f in {IcmpIn, IcmpOut, IcmpErrors, IcmpUnreachable}
    case _ => false
  }

  predicate AveragedToWhole(g: Group, f: Field) {
    match g
    case Mem => f == MemAvailable
    case Swap => f == SwapUsed
    case Disk => f in {DiskRead, DiskWrite}
    case Net => f in {NetRx, NetTx}
    case _ => false
  }

  predicate Largest(g: Group, f: Field) {
    match g
    case Proc => f in {ProcTotal, ProcRunning, ProcSleeping, ProcBlocked, ProcStopped, ProcZombie, ProcThreads}
    case Tcp => f in {TcpEstablished, TcpTimeWait}
    case Self => f == SelfRss
    case Fs => f in {FsUsedPercent, FsInodesPercent}
    case _ => false
  }

  predicate LastOne(g: Group, f: Field) {
    match g
    case Cpu => f == CpuCount
    case Mem => f == MemTotal
    case Swap => f == SwapTotal
    case Disk => f == DiskDevices
    case Net => f == NetInterfaces
    case Thermal => f == ThermalSensors
    case Fs => f == FsCount
    case FileWatch => f == FileWatched
    case Uptime => f == UptimeSeconds
    case Self => f in {SelfPeakRss, SelfCpuUser, SelfCpuSystem}
    case _ => false
  }

  /** The five that are folded each in its own way: the hottest, the least entropy, the worst clock, all file events. */
  predicate ItsOwn(g: Group, f: Field) {
    || (g == Thermal && f == ThermalMax) || (g == Entropy && f == EntropyBits) || (g == FileWatch && f == FileEvents)
    || (g == Clock && (f == ClockOffset || f == ClockMaxError))
  }

  /** Every field is folded in one of these ways, under one group. */
  lemma EveryFieldIs(f: Field) returns (g: Group)
    ensures Averaged(g, f) || AveragedToWhole(g, f) || Largest(g, f) || LastOne(g, f) || ItsOwn(g, f)
  {
    g := GroupOf(f);
  }

  // ----- What the record then holds -----

  /** The whole number nearest to x, of two the larger. */
  ghost predicate IsNearest(n: real, x: real) {
    n.Floor as real == n && x - 0.5 < n <= x + 0.5
  }

  /** The largest of the values, but at least 0. */
  ghost predicate IsLargest(m: real, xs: seq<real>) {
    m >= 0.0 && (m == 0.0 || m in xs) && forall i :: 0 <= i < |xs| ==> xs[i] <= m
  }

  lemma {:induction false} GivenAre(ws: seq<Sample>, f: Field)
    ensures Given(ws, f) == Readings(ws, GroupOf(f), f, Gated(KindOf(f)))
  {
    if ws != [] {
      GivenAre(ws[..|ws| - 1], f);
    }
  }

  lemma RoundIsNearest(x: real)
    ensures IsNearest(Round(x), x)
  {
    var k := (x + 0.5).Floor;
    assert Round(x) == k as real;
  }

  lemma AveragedKind(g: Group, f: Field)
    requires Averaged(g, f)
    ensures GroupOf(f) == g && KindOf(f) == Mean
  {
  }

  lemma WholeKind(g: Group, f: Field)
    requires AveragedToWhole(g, f)
    ensures GroupOf(f) == g && KindOf(f) == RoundedMean
  {
  }

  lemma LargestKind(g: Group, f: Field)
    requires Largest(g, f)
    ensures GroupOf(f) == g && KindOf(f) == Max
  {
  }

  lemma LastKind(g: Group, f: Field)
    requires LastOne(g, f)
    ensures GroupOf(f) == g && KindOf(f) == Last
  {
  }

  ghost predicate KindFits(g: Group, f: Field) {
    && (Averaged(g, f) ==> KindOf(f) == Mean) && (AveragedToWhole(g, f) ==> KindOf(f) == RoundedMean)
    && (Largest(g, f) ==> KindOf(f) == Max) && (LastOne(g, f) ==> KindOf(f) == Last)
  }

  lemma KindIs(g: Group, f: Field)
    ensures KindFits(g, f) && (Averaged(g, f) || AveragedToWhole(g, f) || Largest(g, f) || LastOne(g, f) ==> GroupOf(f) == g)
  {
    if Averaged(g, f) {
      AveragedKind(g, f);
    }
    if AveragedToWhole(g, f) {
      WholeKind(g, f);
    }
    if Largest(g, f) {
      LargestKind(g, f);
    }
    if LastOne(g, f) {
      LastKind(g, f);
    }
  }

  lemma ThermalKind()
    ensures KindOf(ThermalMax) == PresentMax && GroupOf(ThermalMax) == Thermal
  {
  }

  lemma EntropyKind()
    ensures KindOf(EntropyBits) == PresentMin && GroupOf(EntropyBits) == Entropy
  {
  }

  lemma ClockKinds()
    ensures KindOf(ClockOffset) == PresentAbsMax && GroupOf(ClockOffset) == Clock
    ensures KindOf(ClockMaxError) == PresentMax0 && GroupOf(ClockMaxError) == Clock
  {
  }

  lemma EventsKind()
    ensures KindOf(FileEvents) == Sum && GroupOf(FileEvents) == FileWatch
  {
  }

  /** The field of the record folded from a window. */
  function FoldedField(ws: seq<Sample>, level: nat, f: Field): real {
    Folded(Accumulated(ws), level).Val(f)
  }

  lemma FoldBy(ws: seq<Sample>, level: nat, g: Group, f: Field, k: Kind, xs: seq<real>, m: real)
    requires GroupOf(f) == g && KindOf(f) == k && m == FoldedField(ws, level, f) && xs == Readings(ws, g, f, Gated(k))
    ensures Summarises(k, xs, m)
  {
    FoldIsBatch(ws, level, f);
    GivenAre(ws, f);
  }

  /** A record's mean, nearest whole mean, largest or last reading, over the samples that have the field's group. */
  ghost predicate IsSummary(g: Group, f: Field, xs: seq<real>, m: real) {
    && (Averaged(g, f) ==> m == Average(xs))
    && (AveragedToWhole(g, f) ==> IsNearest(m, Average(xs)))
    && (Largest(g, f) ==> IsLargest(m, xs))
    && (LastOne(g, f) ==> m == if xs == [] then 0.0 else xs[|xs| - 1])
  }

  lemma SummaryIs(g: Group, f: Field, xs: seq<real>, m: real)
    requires KindFits(g, f) && Summarises(KindOf(f), xs, m)
    ensures IsSummary(g, f, xs, m)
  {
    RoundIsNearest(Average(xs));
  }

  /** Every field but the five. */
  lemma FieldIs(ws: seq<Sample>, level: nat, g: Group, f: Field)
    requires Averaged(g, f) || AveragedToWhole(g, f) || Largest(g, f) || LastOne(g, f)
    ensures IsSummary(g, f, Readings(ws, g, f, false), FoldedField(ws, level, f))
  {
    KindIs(g, f);
    FieldFrom(ws, level, g, f, KindOf(f));
  }

  lemma FieldFrom(ws: seq<Sample>, level: nat, g: Group, f: Field, k: Kind)
    requires KindFits(g, f) && GroupOf(f) == g && KindOf(f) == k && !Gated(k)
    ensures IsSummary(g, f, Readings(ws, g, f, false), FoldedField(ws, level, f))
  {
    var xs, m := Readings(ws, g, f, false), FoldedField(ws, level, f);
    FoldBy(ws, level, g, f, k, xs, m);
    SummaryIs(g, f, xs, m);
  }

  /** The hottest reading of the samples that have one. */
  lemma ThermalIs(ws: seq<Sample>, level: nat)
    ensures var xs, m := Readings(ws, Thermal, ThermalMax, true), FoldedField(ws, level, ThermalMax);
      if xs == [] then m == 0.0 else m in xs && forall i :: 0 <= i < |xs| ==> xs[i] <= m
  {
    ThermalKind();
    FoldBy(ws, level, Thermal, ThermalMax, PresentMax, Readings(ws, Thermal, ThermalMax, true), FoldedField(ws, level, ThermalMax));
  }

  /** The least entropy. */
  lemma EntropyIs(ws: seq<Sample>, level: nat)
    ensures var xs, m := Readings(ws, Entropy, EntropyBits, true), FoldedField(ws, level, EntropyBits);
      if xs == [] then m == 0.0 else m in xs && forall i :: 0 <= i < |xs| ==> m <= xs[i]
  {
    EntropyKind();
    FoldBy(ws, level, Entropy, EntropyBits, PresentMin, Readings(ws, Entropy, EntropyBits, true), FoldedField(ws, level, EntropyBits));
  }

  function Size(x: real): real {
    if x >= 0.0 then x else 0.0 - x
  }

  lemma FurthestIs(xs: seq<real>, m: real)
    requires IsFurthest(xs, m)
    ensures m in xs && forall i :: 0 <= i < |xs| ==> Size(xs[i]) <= Size(m)
  {
  }

  /** The clock's offset furthest from 0, on either side. */
  lemma OffsetIs(ws: seq<Sample>, level: nat)
    ensures var xs, m := Readings(ws, Clock, ClockOffset, true), FoldedField(ws, level, ClockOffset);
      if xs == [] then m == 0.0 else m in xs && forall i :: 0 <= i < |xs| ==> Size(xs[i]) <= Size(m)
  {
    ClockKinds();
    var xs, m := Readings(ws, Clock, ClockOffset, true), FoldedField(ws, level, ClockOffset);
    FoldBy(ws, level, Clock, ClockOffset, PresentAbsMax, xs, m);
    if xs != [] {
      FurthestIs(xs, m);
    }
  }

  /** And its largest error. */
  lemma MaxErrorIs(ws: seq<Sample>, level: nat)
    ensures IsLargest(FoldedField(ws, level, ClockMaxError), Readings(ws, Clock, ClockMaxError, true))
  {
    ClockKinds();
    FoldBy(ws, level, Clock, ClockMaxError, PresentMax0, Readings(ws, Clock, ClockMaxError, true), FoldedField(ws, level, ClockMaxError));
  }

  /** All file events, up to the largest 32-bit number. */
  lemma EventsAre(ws: seq<Sample>, level: nat)
    ensures var n := SumOf(Readings(ws, FileWatch, FileEvents, false));
      FoldedField(ws, level, FileEvents) == if n <= 4294967295.0 then n else 4294967295.0
  {
    EventsKind();
    FoldBy(ws, level, FileWatch, FileEvents, Sum, Readings(ws, FileWatch, FileEvents, false), FoldedField(ws, level, FileEvents));
  }

  /** The groups whose samples say whether the host has the reading at all. */
  lemma FlaggedAre(g: Group)
    ensures Flagged(g) <==> !(g in {Cpu, Mem, Swap, Load, Disk, Net, Proc, Self, Uptime})
  {
  }
}
