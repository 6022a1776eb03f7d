/** The total rates' counters: what every device moved since the last read, found by a rotating search. */
module Counted {
  import Arith

  const MAX_COUNTED: nat := 1024
  const NAME_ROOM: nat := 31

  datatype Device = Device(name: string, a: nat, b: nat)

  /** snprintf with %.31s into the 32 bytes of a name. */
  function Short(name: string): (r: string)
    ensures |r| <= NAME_ROOM
  {
    if |name| <= NAME_ROOM then name else name[..NAME_ROOM]
  }

  // ----- By name -----

  function Find(prev: seq<Device>, name: string): (r: int)
    ensures -1 <= r < |prev|
    ensures r >= 0 ==> prev[r].name == name
    ensures r == -1 ==> forall i :: 0 <= i < |prev| ==> prev[i].name != name
  {
    if prev == [] then -1
    else if prev[|prev| - 1].name == name then |prev| - 1
    else Find(prev[..|prev| - 1], name)
  }

  /** What a counter has moved: nothing when it went back. */
  function Moved(now: nat, before: nat): nat {
    if now >= before then now - before else 0
  }

  /** What a device has moved since the last read, by its name; nothing when it is new. */
  function MovedA(prev: seq<Device>, d: Device): nat {
    var i := Find(prev, d.name);
    if i < 0 then 0 else Moved(d.a, prev[i].a)
  }

  function MovedB(prev: seq<Device>, d: Device): nat {
    var i := Find(prev, d.name);
    if i < 0 then 0 else Moved(d.b, prev[i].b)
  }

  predicate Unique(prev: seq<Device>) {
    forall i, j :: 0 <= i < j < |prev| ==> prev[i].name != prev[j].name
  }

  /** A read's devices as kept for the next one. */
  function Kept(ds: seq<Device>): (r: seq<Device>)
    ensures |r| == if |ds| < MAX_COUNTED then |ds| else MAX_COUNTED
  {
    if ds == [] then []
    else
      var r := Kept(ds[..|ds| - 1]);
      var d := ds[|ds| - 1];
      if |r| < MAX_COUNTED then r + [d.(name := Short(d.name))] else r
  }

  function TotalA(prev: seq<Device>, ds: seq<Device>): nat {
    if ds == [] then 0 else TotalA(prev, ds[..|ds| - 1]) + MovedA(prev, ds[|ds| - 1])
  }

  function TotalB(prev: seq<Device>, ds: seq<Device>): nat {
    if ds == [] then 0 else TotalB(prev, ds[..|ds| - 1]) + MovedB(prev, ds[|ds| - 1])
  }

  // ----- The rotating search -----

  lemma RoundTheList(pos: nat, k: nat, n: nat)
    requires k < n
    ensures (pos + k) % n == if pos % n + k < n then pos % n + k else pos % n + k - n
  {
    var p := pos % n;
    assert pos == (pos / n) * n + p;
    if p + k < n {
      Arith.QuotientUnique(pos + k, n, pos / n, p + k);
    } else {
      assert pos + k == (pos / n + 1) * n + (p + k - n);
      Arith.QuotientUnique(pos + k, n, pos / n + 1, p + k - n);
    }
  }

  /** The first k places from p on, round a list of n. */
  predicate Searched(p: nat, k: nat, n: nat, j: nat) {
    p <= j < p + k || j + n < p + k
  }

  /** What a search from pos finds that has k entries behind it; -1 for nothing. */
  function SearchFrom(prev: seq<Device>, pos: nat, name: string, k: nat): (at: int)
    requires k <= |prev|
    ensures -1 <= at < |prev| && (at >= 0 ==> prev[at].name == name)
    decreases |prev| - k
  {
    if k == |prev| then -1
    else
      var i := (pos + k) % |prev|;
      if prev[i].name == name then i else SearchFrom(prev, pos, name, k + 1)
  }

  lemma {:induction false} NotFoundNowhere(prev: seq<Device>, pos: nat, name: string, k: nat)
    requires k <= |prev| && SearchFrom(prev, pos, name, k) == -1
    ensures forall j: nat :: j < |prev| && !Searched(pos % |prev|, k, |prev|, j) ==> prev[j].name != name
    decreases |prev| - k
  {
    if k < |prev| {
      NotFoundNowhere(prev, pos, name, k + 1);
      RoundTheList(pos, k, |prev|);
    }
  }

  lemma MissedIsAbsent(prev: seq<Device>, pos: nat, name: string)
    requires SearchFrom(prev, pos, name, 0) == -1
    ensures forall j :: 0 <= j < |prev| ==> prev[j].name != name
  {
    if prev != [] {
      NotFoundNowhere(prev, pos, name, 0);
    }
  }

  /** The search of budyk_counted_add: from where the last device was found, round the list. */
  method Search(prev: seq<Device>, pos: nat, name: string) returns (at: int)
    ensures at == SearchFrom(prev, pos, name, 0)
    ensures at == -1 ==> forall j :: 0 <= j < |prev| ==> prev[j].name != name
    ensures Unique(prev) ==> at == Find(prev, name)
  {
    var n, k := |prev|, 0;
    at := -1;
    while k < n
      invariant 0 <= k <= n && at == -1 && SearchFrom(prev, pos, name, 0) == SearchFrom(prev, pos, name, k)
    {
      var i := (pos + k) % n;
      if prev[i].name == name {
        return i;
      }
      k := k + 1;
    }
    MissedIsAbsent(prev, pos, name);
  }

  class Counters {
    var pos: nat
    var next: seq<Device>
    var movedA: nat
    var movedB: nat

    constructor ()
      ensures pos == 0 && next == [] && movedA == 0 && movedB == 0
    {
      pos, next, movedA, movedB := 0, [], 0, 0;
    }

    /** budyk_counted_add. */
    method Add(prev: seq<Device>, d: Device)
      modifies this
      ensures var at := SearchFrom(prev, old(pos), d.name, 0);
        && movedA == old(movedA) + (if at < 0 then 0 else Moved(d.a, prev[at].a))
        && movedB == old(movedB) + (if at < 0 then 0 else Moved(d.b, prev[at].b))
        && pos == (if at < 0 then old(pos) else at + 1)
      ensures Unique(prev) ==> movedA == old(movedA) + MovedA(prev, d) && movedB == old(movedB) + MovedB(prev, d)
      ensures next == if |old(next)| < MAX_COUNTED then old(next) + [d.(name := Short(d.name))] else old(next)
    {
      var i := Search(prev, pos, d.name);
      if i >= 0 {
        if d.a >= prev[i].a {
          movedA := movedA + (d.a - prev[i].a);
        }
        if d.b >= prev[i].b {
          movedB := movedB + (d.b - prev[i].b);
        }
        pos := i + 1;
      }
      if |next| < MAX_COUNTED {
        next := next + [d.(name := Short(d.name))];
      }
    }
  }

  /** A read: every device added in turn gives the totals of a search by name. */
  method ReadAll(prev: seq<Device>, ds: seq<Device>) returns (next: seq<Device>, movedA: nat, movedB: nat)
    ensures next == Kept(ds)
    ensures Unique(prev) ==> movedA == TotalA(prev, ds) && movedB == TotalB(prev, ds)
  {
    var c := new Counters();
    var k := 0;
    while k < |ds|
      invariant 0 <= k <= |ds| && c.next == Kept(ds[..k])
      invariant Unique(prev) ==> c.movedA == TotalA(prev, ds[..k]) && c.movedB == TotalB(prev, ds[..k])
    {
      assert ds[..k + 1][..k] == ds[..k];
      c.Add(prev, ds[k]);
      k := k + 1;
    }
    assert ds[..k] == ds;
    next, movedA, movedB := c.next, c.movedA, c.movedB;
  }

  // ----- Whatever the order -----

  lemma {:induction false} TotalsJoin(prev: seq<Device>, x: seq<Device>, y: seq<Device>)
    ensures TotalA(prev, x + y) == TotalA(prev, x) + TotalA(prev, y)
    ensures TotalB(prev, x + y) == TotalB(prev, x) + TotalB(prev, y)
  {
    if y == [] {
      assert x + y == x;
    } else {
      var init := y[..|y| - 1];
      assert (x + y)[..|x + y| - 1] == x + init;
      TotalsJoin(prev, x, init);
    }
  }

  lemma TakenOut(s: seq<Device>, d: Device, x: seq<Device>, y: seq<Device>)
    requires multiset(s + [d]) == multiset(x + [d] + y)
    ensures multiset(s) == multiset(x + y)
  {
    assert multiset(s + [d]) == multiset(s) + multiset{d};
    assert multiset(x + [d] + y) == multiset(x) + multiset{d} + multiset(y);
    assert multiset(x + y) == multiset(x) + multiset(y);
    assert multiset(s) == multiset(s + [d]) - multiset{d};
    assert multiset(x + y) == multiset(x + [d] + y) - multiset{d};
  }

  /** The order the kernel lists the devices in does not matter. */
  lemma {:induction false} TotalsAnyOrder(prev: seq<Device>, ds: seq<Device>, es: seq<Device>)
    requires multiset(ds) == multiset(es)
    ensures TotalA(prev, ds) == TotalA(prev, es) && TotalB(prev, ds) == TotalB(prev, es)
    decreases |ds|
  {
    if ds == [] {
      assert |es| == |multiset(es)| == 0;
    } else {
      var init, d := ds[..|ds| - 1], ds[|ds| - 1];
      assert ds == init + [d];
      assert d in multiset(ds);
      var i :| 0 <= i < |es| && es[i] == d;
      var x, y := es[..i], es[i + 1..];
      assert es == x + [d] + y;
      TakenOut(init, d, x, y);
      TotalsAnyOrder(prev, init, x + y);
      TotalsJoin(prev, x + [d], y);
      TotalsJoin(prev, x, [d]);
      TotalsJoin(prev, x, y);
      TotalsJoin(prev, init, [d]);
    }
  }

  lemma {:induction false} KeptAt(ds: seq<Device>, i: nat)
    requires i < |Kept(ds)|
    ensures i < |ds| && Kept(ds)[i] == ds[i].(name := Short(ds[i].name))
  {
    if i < |Kept(ds[..|ds| - 1])| {
      KeptAt(ds[..|ds| - 1], i);
    }
  }

  /** A longer name's first 31 bytes are all that is kept of it. */
  predicate CutTo(name: string, to: string) {
    name == to || (|name| > 31 && name[..31] == to)
  }

  /** The device is among those kept, its name is kept whole, and no other's is cut to it. */
  ghost predicate KeepsItsName(ds: seq<Device>, i: nat)
    requires i < |ds|
  {
    && i < 1024 && |ds[i].name| < 32
    && forall j :: 0 <= j < |ds| && j < 1024 && j != i ==> !CutTo(ds[j].name, ds[i].name)
  }

  /** Wherever it starts, the next read's search for the device finds the device's own entry. */
  ghost predicate FindsItself(ds: seq<Device>, i: nat)
    requires i < |ds|
  {
    forall pos: nat :: SearchFrom(Kept(ds), pos, ds[i].name, 0) == i
  }

  /** It does exactly when the device is among the first 1024, its name is under 32 bytes, and no other name collides with it. */
  lemma FoundIff(ds: seq<Device>, i: nat)
    requires i < |ds|
    ensures FindsItself(ds, i) <==> KeepsItsName(ds, i)
  {
    var prev, name := Kept(ds), ds[i].name;
    forall j: nat | j < |prev|
      ensures prev[j].name == Short(ds[j].name)
    {
      KeptAt(ds, j);
    }
    if FindsItself(ds, i) {
      assert SearchFrom(prev, 0, name, 0) == i;
      forall j: nat | j < |prev| && j != i
        ensures Short(ds[j].name) != name
      {
        assert SearchFrom(prev, j, name, 0) == i;
        Arith.ModSmall(j, |prev|);
      }
    }
    if KeepsItsName(ds, i) {
      forall pos: nat
        ensures SearchFrom(prev, pos, name, 0) == i
      {
        if SearchFrom(prev, pos, name, 0) == -1 {
          MissedIsAbsent(prev, pos, name);
        }
      }
    }
  }

  lemma OwnFound(ds: seq<Device>, i: nat)
    requires i < |ds| && KeepsItsName(ds, i)
    ensures i < |Kept(ds)| && Find(Kept(ds), ds[i].name) == i && Kept(ds)[i] == ds[i]
  {
    KeptAt(ds, i);
    var at := Find(Kept(ds), ds[i].name);
    if at >= 0 {
      KeptAt(ds, at);
    }
  }

  /** Then the next read moves its totals by exactly what its own counters moved. */
  lemma OwnCounters(ds: seq<Device>, i: nat, d: Device)
    requires i < |ds| && KeepsItsName(ds, i) && d.name == ds[i].name
    ensures MovedA(Kept(ds), d) == if d.a < ds[i].a then 0 else d.a - ds[i].a
    ensures MovedB(Kept(ds), d) == if d.b < ds[i].b then 0 else d.b - ds[i].b
  {
    OwnFound(ds, i);
  }

  // ----- Over many reads -----

  /** Two reads of the same devices, counters not having fallen. */
  ghost predicate GoesOn(ds: seq<Device>, es: seq<Device>) {
    |es| == |ds| && forall i :: 0 <= i < |ds| ==> es[i].name == ds[i].name && es[i].a >= ds[i].a && es[i].b >= ds[i].b
  }

  function SumA(ds: seq<Device>): nat {
    if ds == [] then 0 else SumA(ds[..|ds| - 1]) + ds[|ds| - 1].a
  }

  function SumB(ds: seq<Device>): nat {
    if ds == [] then 0 else SumB(ds[..|ds| - 1]) + ds[|ds| - 1].b
  }

  ghost predicate AllKeepNames(ds: seq<Device>) {
    forall i: nat :: i < |ds| ==> KeepsItsName(ds, i)
  }

  lemma {:induction false} ReadMoves(ds: seq<Device>, es: seq<Device>, n: nat)
    requires AllKeepNames(ds) && GoesOn(ds, es) && n <= |ds|
    ensures TotalA(Kept(ds), es[..n]) + SumA(ds[..n]) == SumA(es[..n])
    ensures TotalB(Kept(ds), es[..n]) + SumB(ds[..n]) == SumB(es[..n])
  {
    if n > 0 {
      ReadMoves(ds, es, n - 1);
      assert KeepsItsName(ds, n - 1);
      OwnCounters(ds, n - 1, es[n - 1]);
      assert es[..n][..n - 1] == es[..n - 1] && ds[..n][..n - 1] == ds[..n - 1];
    }
  }

  /** What the reads after the first, up to the n-th, add to the totals. */
  function RunA(rs: seq<seq<Device>>, n: nat): nat
    requires n < |rs|
  {
    if n == 0 then 0 else RunA(rs, n - 1) + TotalA(Kept(rs[n - 1]), rs[n])
  }

  function RunB(rs: seq<seq<Device>>, n: nat): nat
    requires n < |rs|
  {
    if n == 0 then 0 else RunB(rs, n - 1) + TotalB(Kept(rs[n - 1]), rs[n])
  }

  /** The k-th read after one of the same devices, none of whose names is lost. */
  ghost predicate FollowsOn(rs: seq<seq<Device>>, k: nat)
    requires 0 < k < |rs|
  {
    AllKeepNames(rs[k - 1]) && GoesOn(rs[k - 1], rs[k])
  }

  /** Over any number of reads the totals move by what all counters moved from the first read to the last. */
  lemma {:induction false} NothingLost(rs: seq<seq<Device>>, n: nat)
    requires n < |rs| && forall k: nat :: 0 < k <= n ==> FollowsOn(rs, k)
    ensures RunA(rs, n) + SumA(rs[0]) == SumA(rs[n]) && RunB(rs, n) + SumB(rs[0]) == SumB(rs[n])
  {
    if n > 0 {
      NothingLost(rs, n - 1);
      assert FollowsOn(rs, n);
      WholeRead(rs[n - 1], rs[n]);
    }
  }

  lemma WholeRead(ds: seq<Device>, es: seq<Device>)
    requires AllKeepNames(ds) && GoesOn(ds, es)
    ensures TotalA(Kept(ds), es) + SumA(ds) == SumA(es) && TotalB(Kept(ds), es) + SumB(ds) == SumB(es)
  {
    ReadMoves(ds, es, |ds|);
    assert ds[..|ds|] == ds && es[..|ds|] == es;
  }

  /** A name of 32 bytes or more is cut when kept, and never found again. */
  lemma LongNameLost(ds: seq<Device>, d: Device, pos: nat)
    requires |d.name| >= 32
    ensures SearchFrom(Kept(ds), pos, d.name, 0) == -1
  {
    var at := SearchFrom(Kept(ds), pos, d.name, 0);
    if at >= 0 {
      KeptAt(ds, at);
    }
  }

  /** A longer name listed first that is cut to the device's own name takes its place: its counters are found for it. */
  lemma NameCollides(x: Device, a: nat, b: nat)
    requires |x.name| == 31
    ensures var y := Device(x.name + "+", a, b);
      Unique([y, x]) && SearchFrom(Kept([y, x]), 0, x.name, 0) == 0 && Kept([y, x])[0].a == a && Kept([y, x])[0].b == b
  {
    var y := Device(x.name + "+", a, b);
    var prev := Kept([y, x]);
    assert Short(y.name) == x.name;
    KeptAt([y, x], 0);
    KeptAt([y, x], 1);
    assert |y.name| != |x.name|;
    Arith.ModSmall(0, 2);
  }
}
