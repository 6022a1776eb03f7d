/** The process tracker: its top lists, the search of the previous read and the list of a read. */
module Detail {

  const TOP_EACH: nat := 10

  datatype Process = Process(pid: int, name: string, state: char, threads: nat, cpu: real, rss: nat)

  type Key = Process -> real

  // ----- offer -----

  /** Where p goes: after every entry not smaller, seen from the end. */
  function Place(s: seq<Process>, key: Key, p: Process, at: nat): (r: nat)
    requires at <= |s|
    ensures r <= at && (forall k :: r <= k < at ==> key(s[k]) < key(p)) && (r > 0 ==> key(s[r - 1]) >= key(p))
  {
    if at > 0 && key(s[at - 1]) < key(p) then Place(s, key, p, at - 1) else at
  }

  function Inserted(s: seq<Process>, at: nat, p: Process): (r: seq<Process>)
    requires at <= |s|
    ensures |r| == |s| + 1
  {
    s[..at] + [p] + s[at..]
  }

  function Take<T>(s: seq<T>, n: nat): (r: seq<T>)
    ensures |r| == if |s| < n then |s| else n
  {
    if |s| <= n then s else s[..n]
  }

  /** The top list after one more offer. */
  function Offered(s: seq<Process>, key: Key, p: Process): (r: seq<Process>)
    ensures |s| <= TOP_EACH ==> |r| <= TOP_EACH
  {
    Take(Inserted(s, Place(s, key, p, |s|), p), TOP_EACH)
  }

  /** The entries from at on moved down by one, the one at last overwritten, and p put in the gap. */
  method MoveDown(top: array<Process>, at: nat, last: nat, p: Process)
    requires at <= last < top.Length
    modifies top
    ensures top[..] == old(top[..at]) + [p] + old(top[at..last]) + old(top[last + 1..])
  {
    ghost var was := top[..];
    var k := last;
    while k > at
      invariant at <= k <= last
      invariant forall j :: 0 <= j < k ==> top[j] == was[j]
      invariant forall j :: last < j < top.Length ==> top[j] == was[j]
      invariant forall j :: k < j <= last ==> top[j] == was[j - 1]
    {
      top[k] := top[k - 1];
      k := k - 1;
    }
    top[at] := p;
    MovedDown(was, top[..], at, last, p);
    assert was[..at] == old(top[..at]) && was[at..last] == old(top[at..last]) && was[last + 1..] == old(top[last + 1..]);
  }

  lemma MovedDown(was: seq<Process>, now: seq<Process>, at: nat, last: nat, p: Process)
    requires at <= last < |was| == |now| && now[at] == p
    requires forall j :: 0 <= j < at ==> now[j] == was[j]
    requires forall j :: at < j <= last ==> now[j] == was[j - 1]
    requires forall j :: last < j < |was| ==> now[j] == was[j]
    ensures now == was[..at] + [p] + was[at..last] + was[last + 1..]
  {
  }

  /** offer, in place: the last entry of a full list falls off its end. */
  method Offer(top: array<Process>, n: nat, p: Process, key: Key) returns (m: nat)
    requires top.Length == TOP_EACH && n <= TOP_EACH
    modifies top
    ensures m <= TOP_EACH && top[..m] == Offered(old(top[..n]), key, p)
  {
    ghost var was := top[..n];
    var at := n;
    while at > 0 && key(top[at - 1]) < key(p)
      invariant 0 <= at <= n && Place(was, key, p, at) == Place(was, key, p, n)
    {
      at := at - 1;
    }
    if at >= TOP_EACH {
      assert Inserted(was, at, p)[..n] == was;
      return n;
    }
    var last := if n < TOP_EACH then n else TOP_EACH - 1;
    m := last + 1;
    OfferedIs(top[..], n, at, p, last);
    MoveDown(top, at, last, p);
    assert top[..m] == top[..][..m];
  }

  lemma OfferedIs(all: seq<Process>, n: nat, at: nat, p: Process, last: nat)
    requires |all| == TOP_EACH && at <= n <= TOP_EACH && at <= last && last == if n < TOP_EACH then n else TOP_EACH - 1
    ensures (all[..at] + [p] + all[at..last] + all[last + 1..])[..last + 1] == Take(Inserted(all[..n], at, p), TOP_EACH)
  {
    var x, y := (all[..at] + [p] + all[at..last] + all[last + 1..])[..last + 1], Inserted(all[..n], at, p);
    assert x == all[..at] + [p] + all[at..last];
    assert y == all[..at] + [p] + all[at..n];
  }

  function Tops(ps: seq<Process>, key: Key): (r: seq<Process>)
    ensures |r| <= TOP_EACH
  {
    if ps == [] then [] else Offered(Tops(ps[..|ps| - 1], key), key, ps[|ps| - 1])
  }

  // ----- The stable order of all offers -----

  /** Offer i stands ahead of offer j: larger, or as large and earlier. */
  predicate Ahead(ps: seq<Process>, key: Key, i: nat, j: nat)
    requires i < |ps| && j < |ps|
  {
    key(ps[i]) > key(ps[j]) || (key(ps[i]) == key(ps[j]) && i < j)
  }

  /** How many offers stand ahead of offer i. */
  function Rank(ps: seq<Process>, key: Key, i: nat): nat
    requires i < |ps|
  {
    |set j: nat | j < |ps| && Ahead(ps, key, j, i)|
  }

  /** The offers' numbers in that order. */
  ghost predicate IsOrder(ps: seq<Process>, key: Key, order: seq<nat>) {
    |order| == |ps| && (forall k :: 0 <= k < |order| ==> order[k] < |ps|) &&
    (forall i: nat :: i < |ps| ==> i in order) &&
    forall a, b :: 0 <= a < b < |order| ==> Ahead(ps, key, order[a], order[b])
  }

  function Listed(ps: seq<Process>, order: seq<nat>): (r: seq<Process>)
    requires forall k :: 0 <= k < |order| ==> order[k] < |ps|
    ensures |r| == |order| && forall k :: 0 <= k < |order| ==> r[k] == ps[order[k]]
  {
    seq(|order|, k requires 0 <= k < |order| => ps[order[k]])
  }

  /** Offer n put at a place of the order. */
  function With(order: seq<nat>, at: nat, n: nat): (r: seq<nat>)
    requires at <= |order|
    ensures |r| == |order| + 1
    ensures forall k :: 0 <= k < |r| ==> r[k] == if k < at then order[k] else if k == at then n else order[k - 1]
  {
    order[..at] + [n] + order[at..]
  }

  /** At its place nothing before the new offer is smaller, and everything after it is. */
  ghost predicate Fits(ps: seq<Process>, key: Key, order: seq<nat>, p: Process, at: nat)
    requires forall k :: 0 <= k < |order| ==> order[k] < |ps|
  {
    && at <= |order| && (forall k :: at <= k < |order| ==> key(ps[order[k]]) < key(p))
    && (at > 0 ==> key(ps[order[at - 1]]) >= key(p))
  }

  lemma NextInOrder(ps: seq<Process>, key: Key, order: seq<nat>, p: Process, at: nat)
    requires IsOrder(ps, key, order) && Fits(ps, key, order, p, at)
    ensures IsOrder(ps + [p], key, With(order, at, |ps|))
  {
    var next := With(order, at, |ps|);
    forall i: nat | i < |ps| + 1
      ensures i in next
    {
      AllIn(order, at, |ps|, i);
    }
    forall a, b | 0 <= a < b < |next|
      ensures next[a] <= |ps| && next[b] <= |ps| && Ahead(ps + [p], key, next[a], next[b])
    {
      NextAhead(ps, key, order, p, at, a, b);
    }
  }

  /** A new offer takes its place after all that are not smaller. */
  lemma OrderNext(ps: seq<Process>, key: Key, order: seq<nat>, p: Process)
    requires IsOrder(ps, key, order)
    ensures IsOrder(ps + [p], key, With(order, Place(Listed(ps, order), key, p, |order|), |ps|))
  {
    NextInOrder(ps, key, order, p, Place(Listed(ps, order), key, p, |order|));
  }

  lemma AllIn(order: seq<nat>, at: nat, n: nat, i: nat)
    requires at <= |order| && i <= n && (i < n ==> i in order)
    ensures i in With(order, at, n)
  {
    var r := With(order, at, n);
    if i == n {
      assert r[at] == n;
    } else {
      var k :| 0 <= k < |order| && order[k] == i;
      assert r[if k < at then k else k + 1] == i;
    }
  }

  lemma NextAhead(ps: seq<Process>, key: Key, order: seq<nat>, p: Process, at: nat, a: nat, b: nat)
    requires IsOrder(ps, key, order) && Fits(ps, key, order, p, at) && a < b <= |order|
    ensures var qs, next := ps + [p], With(order, at, |ps|);
      next[a] < |qs| && next[b] < |qs| && Ahead(qs, key, next[a], next[b])
  {
    if b == at {
      assert a < at - 1 ==> Ahead(ps, key, order[a], order[at - 1]);
    } else if a != at {
      var x, y := if a < at then a else a - 1, if b < at then b else b - 1;
      assert Ahead(ps, key, order[x], order[y]);
    }
  }

  /** The place in the whole order and in its first entries. */
  lemma SamePlace(s: seq<Process>, key: Key, p: Process)
    requires forall a, b :: 0 <= a < b < |s| ==> key(s[a]) >= key(s[b])
    ensures Offered(Take(s, TOP_EACH), key, p) == Take(Inserted(s, Place(s, key, p, |s|), p), TOP_EACH)
  {
    var t := Take(s, TOP_EACH);
    var x, y := Place(s, key, p, |s|), Place(t, key, p, |t|);
    assert y == if x < |t| then x else |t|;
    TakeInserted(s, x, y, p);
  }

  lemma TakeInserted(s: seq<Process>, x: nat, y: nat, p: Process)
    requires x <= |s| && var n := |Take(s, TOP_EACH)|; y == if x < n then x else n
    ensures Take(Inserted(Take(s, TOP_EACH), y, p), TOP_EACH) == Take(Inserted(s, x, p), TOP_EACH)
  {
  }

  lemma {:induction false} TopsAreFirst(ps: seq<Process>, key: Key) returns (order: seq<nat>)
    ensures IsOrder(ps, key, order) && Tops(ps, key) == Take(Listed(ps, order), TOP_EACH)
  {
    if ps == [] {
      order := [];
    } else {
      var init, p := ps[..|ps| - 1], ps[|ps| - 1];
      var before := TopsAreFirst(init, key);
      var s := Listed(init, before);
      var at := Place(s, key, p, |s|);
      order := With(before, at, |init|);
      assert ps == init + [p];
      OrderNext(init, key, before, p);
      Falling(init, key, before);
      SamePlace(s, key, p);
      ListedNext(init, before, at, p);
    }
  }

  lemma Falling(ps: seq<Process>, key: Key, order: seq<nat>)
    requires IsOrder(ps, key, order)
    ensures var s := Listed(ps, order); forall a, b :: 0 <= a < b < |s| ==> key(s[a]) >= key(s[b])
  {
    var s := Listed(ps, order);
    forall a, b | 0 <= a < b < |s|
      ensures key(s[a]) >= key(s[b])
    {
      assert Ahead(ps, key, order[a], order[b]);
    }
  }

  lemma ListedNext(ps: seq<Process>, order: seq<nat>, at: nat, p: Process)
    requires at <= |order| && forall k :: 0 <= k < |order| ==> order[k] < |ps|
    ensures forall k :: 0 <= k <= |order| ==> With(order, at, |ps|)[k] < |ps + [p]|
    ensures Listed(ps + [p], With(order, at, |ps|)) == Inserted(Listed(ps, order), at, p)
  {
  }

  /** In an order, an offer stands where its rank says. */
  lemma RankIsPlace(ps: seq<Process>, key: Key, order: seq<nat>, k: nat)
    requires IsOrder(ps, key, order) && k < |order|
    ensures Rank(ps, key, order[k]) == k
  {
    var ahead := set j: nat | j < |ps| && Ahead(ps, key, j, order[k]);
    forall j: nat | j < |ps|
      ensures Ahead(ps, key, j, order[k]) <==> j in order[..k]
    {
      assert j in order;
      var i :| 0 <= i < |order| && order[i] == j;
      if i < k {
        assert Ahead(ps, key, order[i], order[k]) && order[..k][i] == j;
      } else if i > k {
        assert Ahead(ps, key, order[k], order[i]);
        NotIn(ps, key, order, k, i);
      } else {
        NotIn(ps, key, order, k, i);
      }
    }
    assert ahead == Elements(order[..k]);
    forall a, b | 0 <= a < b < k
      ensures order[..k][a] != order[..k][b]
    {
      assert Ahead(ps, key, order[a], order[b]);
    }
    CountDistinct(order[..k]);
  }

  lemma NotIn(ps: seq<Process>, key: Key, order: seq<nat>, k: nat, i: nat)
    requires IsOrder(ps, key, order) && k <= i < |order|
    ensures order[i] !in order[..k]
  {
    forall a | 0 <= a < k
      ensures order[a] != order[i]
    {
      assert Ahead(ps, key, order[a], order[i]);
    }
  }

  function Elements(s: seq<nat>): (r: set<nat>)
    ensures forall x :: x in r <==> x in s
  {
    set x | x in s
  }

  lemma {:induction false} CountDistinct(s: seq<nat>)
    requires forall a, b :: 0 <= a < b < |s| ==> s[a] != s[b]
    ensures |Elements(s)| == |s|
  {
    if s != [] {
      var init, x := s[..|s| - 1], s[|s| - 1];
      CountDistinct(init);
      assert s == init + [x];
      assert Elements(s) == Elements(init) + {x};
    }
  }

  /** Some offer has k others ahead of it. */
  ghost predicate Ranked(ps: seq<Process>, key: Key, k: nat) {
    exists i: nat :: i < |ps| && Rank(ps, key, i) == k
  }

  lemma TopAtRank(ps: seq<Process>, key: Key, order: seq<nat>, i: nat)
    requires IsOrder(ps, key, order) && Tops(ps, key) == Take(Listed(ps, order), TOP_EACH)
    requires i < |ps| && Rank(ps, key, i) < TOP_EACH
    ensures Rank(ps, key, i) < |Tops(ps, key)| && Tops(ps, key)[Rank(ps, key, i)] == ps[i]
  {
    assert i in order;
    var k :| 0 <= k < |order| && order[k] == i;
    RankIsPlace(ps, key, order, k);
  }

  /**
   * After any offers the list has the first ten of all of them in stable descending order:
   * at place k stands the offer that k others are ahead of.
   */
  lemma TopsRanked(ps: seq<Process>, key: Key)
    ensures |Tops(ps, key)| == if |ps| < 10 then |ps| else 10
    ensures forall i: nat :: i < |ps| && Rank(ps, key, i) < 10 ==>
      Rank(ps, key, i) < |Tops(ps, key)| && Tops(ps, key)[Rank(ps, key, i)] == ps[i]
    ensures forall k: nat :: k < |Tops(ps, key)| ==> Ranked(ps, key, k)
  {
    var order := TopsAreFirst(ps, key);
    forall i: nat | i < |ps| && Rank(ps, key, i) < TOP_EACH
      ensures Rank(ps, key, i) < |Tops(ps, key)| && Tops(ps, key)[Rank(ps, key, i)] == ps[i]
    {
      TopAtRank(ps, key, order, i);
    }
    forall k: nat | k < |order|
      ensures Ranked(ps, key, k)
    {
      RankIsPlace(ps, key, order, k);
    }
  }

  // ----- The previous read -----

  /** A process of the previous read. */
  datatype Seen = Seen(pid: int, start: nat, cpu: nat)

  predicate ByPid(v: seq<Seen>) {
    forall i, j :: 0 <= i < j < |v| ==> v[i].pid <= v[j].pid
  }

  /** find_proc: the first entry of the pid, if it is the same process. */
  method FindProc(v: seq<Seen>, pid: int, start: nat) returns (at: int)
    requires ByPid(v)
    ensures -1 <= at < |v|
    ensures at >= 0 ==> v[at].pid == pid && v[at].start == start && forall i :: 0 <= i < at ==> v[i].pid < pid
    ensures at == -1 ==> forall i :: 0 <= i < |v| && v[i].pid == pid && v[i].start == start ==>
      i > 0 && v[i - 1].pid == pid
  {
    var lo, hi := 0, |v|;
    while lo < hi
      invariant 0 <= lo <= hi <= |v|
      invariant forall i :: 0 <= i < lo ==> v[i].pid < pid
      invariant forall i :: hi <= i < |v| ==> v[i].pid >= pid
    {
      var mid := lo + (hi - lo) / 2;
      if v[mid].pid < pid {
        lo := mid + 1;
      } else {
        hi := mid;
      }
    }
    if lo < |v| && v[lo].pid == pid && v[lo].start == start {
      return lo;
    }
    at := -1;
  }

  // ----- The list of a read -----

  /** cmp_top: by CPU, then by memory, the larger first, then by pid. */
  predicate NotAfter(x: Process, y: Process) {
    x.cpu > y.cpu || (x.cpu == y.cpu && (x.rss > y.rss || (x.rss == y.rss && x.pid <= y.pid)))
  }

  predicate InOrder(s: seq<Process>) {
    forall i, j :: 0 <= i < j < |s| ==> NotAfter(s[i], s[j])
  }

  /** In such a list the CPU never rises; among equals in it the memory never does, and among equals in both the pid never falls. */
  lemma OrderIs(s: seq<Process>)
    ensures InOrder(s) <==> forall i, j :: 0 <= i < j < |s| ==>
      s[i].cpu >= s[j].cpu
      && (s[i].cpu == s[j].cpu ==> s[i].rss >= s[j].rss)
      && (s[i].cpu == s[j].cpu && s[i].rss == s[j].rss ==> s[i].pid <= s[j].pid)
  {
    forall i, j | 0 <= i < j < |s|
      ensures NotAfter(s[i], s[j]) <==>
        s[i].cpu >= s[j].cpu
        && (s[i].cpu == s[j].cpu ==> s[i].rss >= s[j].rss)
        && (s[i].cpu == s[j].cpu && s[i].rss == s[j].rss ==> s[i].pid <= s[j].pid)
    {
    }
  }

  function Insert(s: seq<Process>, p: Process): (r: seq<Process>)
    requires InOrder(s)
    ensures InOrder(r) && multiset(r) == multiset(s) + multiset{p}
  {
    if s == [] || NotAfter(p, s[0]) then Front(p, s); [p] + s
    else
      var rest := Insert(s[1..], p);
      InsertNext(s, p, rest);
      [s[0]] + rest
  }

  lemma Front(p: Process, s: seq<Process>)
    requires InOrder(s) && (s == [] || NotAfter(p, s[0]))
    ensures InOrder([p] + s)
  {
    forall i, j | 0 <= i < j < |s| + 1
      ensures NotAfter(([p] + s)[i], ([p] + s)[j])
    {
      if i == 0 && j > 1 {
        assert NotAfter(s[0], s[j - 1]);
      }
    }
  }

  lemma InsertNext(s: seq<Process>, p: Process, rest: seq<Process>)
    requires InOrder(s) && s != [] && !NotAfter(p, s[0]) && InOrder(rest)
    requires multiset(rest) == multiset(s[1..]) + multiset{p}
    ensures InOrder([s[0]] + rest) && multiset([s[0]] + rest) == multiset(s) + multiset{p}
  {
    assert s == [s[0]] + s[1..];
    if rest != [] {
      assert rest[0] in multiset(rest);
      assert rest[0] == p || rest[0] in s[1..];
    }
    Front(s[0], rest);
  }

  /** qsort with cmp_top, which orders all there is to order. */
  function Sorted(s: seq<Process>): (r: seq<Process>)
    ensures InOrder(r) && multiset(r) == multiset(s)
  {
    if s == [] then []
    else
      assert s == s[..|s| - 1] + [s[|s| - 1]];
      Insert(Sorted(s[..|s| - 1]), s[|s| - 1])
  }

  predicate HasPid(s: seq<Process>, pid: int) {
    exists i :: 0 <= i < |s| && s[i].pid == pid
  }

  predicate OncePerPid(s: seq<Process>) {
    forall i, j :: 0 <= i < j < |s| ==> s[i].pid != s[j].pid
  }

  /** The list before it is sorted: the top by CPU, then those by memory that are not among them. */
  function Union(cpu: seq<Process>, rss: seq<Process>): (r: seq<Process>)
    ensures cpu <= r
    ensures forall p :: p in r <==> p in cpu || (p in rss && !HasPid(cpu, p.pid))
    ensures OncePerPid(cpu) && OncePerPid(rss) ==> OncePerPid(r)
  {
    if rss == [] then cpu
    else
      var r, p := Union(cpu, rss[..|rss| - 1]), rss[|rss| - 1];
      assert rss == rss[..|rss| - 1] + [p];
      if HasPid(cpu, p.pid) then r else r + [p]
  }

  lemma FirstIsLeast(s: seq<Process>, p: Process)
    requires InOrder(s) && p in s
    ensures NotAfter(s[0], p)
  {
  }

  lemma WithoutFirst(s: seq<Process>)
    requires s != []
    ensures s == [s[0]] + s[1..] && multiset(s[1..]) == multiset(s) - multiset{s[0]}
  {
    assert s == [s[0]] + s[1..];
  }

  /** Different processes that cmp_top calls equal. */
  predicate Tied(x: Process, y: Process) {
    x != y && x.cpu == y.cpu && x.rss == y.rss && x.pid == y.pid
  }

  predicate NoTies(s: seq<Process>) {
    forall i, j :: 0 <= i < j < |s| ==> !Tied(s[i], s[j])
  }

  lemma NoneTied(s: seq<Process>, x: Process, y: Process)
    requires NoTies(s) && x in s && y in s
    ensures !Tied(x, y)
  {
    var i :| 0 <= i < |s| && s[i] == x;
    var j :| 0 <= j < |s| && s[j] == y;
    if i < j {
      assert !Tied(s[i], s[j]);
    } else if j < i {
      assert !Tied(s[j], s[i]);
    }
  }

  lemma {:induction false} OneOrder(r: seq<Process>, q: seq<Process>)
    requires InOrder(r) && InOrder(q) && multiset(r) == multiset(q) && NoTies(r)
    ensures r == q
  {
    assert |r| == |multiset(r)| == |multiset(q)| == |q|;
    if r != [] {
      assert r[0] in multiset(q) && q[0] in multiset(r);
      FirstIsLeast(r, q[0]);
      FirstIsLeast(q, r[0]);
      NoneTied(r, r[0], q[0]);
      WithoutFirst(r);
      WithoutFirst(q);
      OneOrder(r[1..], q[1..]);
    }
  }

  function Swapped(s: seq<Process>, i: nat, j: nat): (r: seq<Process>)
    requires i < j < |s|
    ensures |r| == |s| && multiset(r) == multiset(s)
  {
    s[i := s[j]][j := s[i]]
  }

  lemma TiedSwap(s: seq<Process>, i: nat, j: nat)
    requires InOrder(s) && i < j < |s| && Tied(s[i], s[j])
    ensures InOrder(Swapped(s, i, j)) && Swapped(s, i, j) != s
  {
    var q := Swapped(s, i, j);
    assert q[i] != s[i];
    forall a, b | 0 <= a < b < |q|
      ensures NotAfter(q[a], q[b])
    {
      assert NotAfter(s[a], s[b]);
    }
  }

  /** q is a list a sort of the same processes may leave. */
  predicate SortOf(s: seq<Process>, q: seq<Process>) {
    InOrder(q) && multiset(q) == multiset(s)
  }

  /**
   * qsort does not say what it does with entries that compare equal. It leaves it no choice
   * if and only if no two different processes share CPU, memory and pid.
   */
  lemma OneOrderIff(s: seq<Process>)
    ensures (forall q :: SortOf(s, q) ==> q == Sorted(s)) <==> NoTies(s)
  {
    var r := Sorted(s);
    if NoTies(s) {
      SameTies(s, r);
      forall q | SortOf(s, q)
        ensures q == r
      {
        OneOrder(r, q);
      }
    } else {
      if NoTies(r) {
        SameTies(r, s);
        assert false;
      }
      var i, j :| 0 <= i < j < |r| && Tied(r[i], r[j]);
      TiedSwap(r, i, j);
      assert SortOf(s, Swapped(r, i, j));
    }
  }

  lemma SameTies(s: seq<Process>, r: seq<Process>)
    requires multiset(s) == multiset(r) && NoTies(s)
    ensures NoTies(r)
  {
    forall i, j | 0 <= i < j < |r|
      ensures !Tied(r[i], r[j])
    {
      assert r[i] in multiset(s) && r[j] in multiset(s);
      NoneTied(s, r[i], r[j]);
    }
  }

  /** Two entries of pid 7 that differ in their threads alone: either may come first. */
  lemma TiedEntries()
    ensures var x, y := Process(7, "a", 'R', 1, 1.0, 1), Process(7, "a", 'R', 2, 1.0, 1);
      SortOf([x, y], [x, y]) && SortOf([x, y], [y, x]) && [x, y] != [y, x]
  {
    var x, y := Process(7, "a", 'R', 1, 1.0, 1), Process(7, "a", 'R', 2, 1.0, 1);
    assert [x, y][0] != [y, x][0];
    assert multiset([x, y]) == multiset{x, y} == multiset([y, x]);
  }

  /** With each pid once in either top list, the list of a read is the same whatever qsort does. */
  lemma ListIsDetermined(cpu: seq<Process>, rss: seq<Process>, q: seq<Process>)
    requires OncePerPid(cpu) && OncePerPid(rss) && SortOf(Union(cpu, rss), q)
    ensures q == Sorted(Union(cpu, rss))
  {
    var u := Union(cpu, rss);
    assert NoTies(u);
    OneOrderIff(u);
  }

  /** Whether the pid is already in the list. */
  method Duplicate(cpu: seq<Process>, pid: int) returns (dup: bool)
    ensures dup == HasPid(cpu, pid)
  {
    dup := false;
    var k := 0;
    while k < |cpu| && !dup
      invariant 0 <= k <= |cpu|
      invariant dup ==> HasPid(cpu, pid)
      invariant !dup ==> forall j :: 0 <= j < k ==> cpu[j].pid != pid
    {
      dup := cpu[k].pid == pid;
      k := k + 1;
    }
  }

  /** The end of budyk_procs_end: every process of either list once, sorted. */
  method ListProcs(cpu: seq<Process>, rss: seq<Process>) returns (procs: seq<Process>)
    ensures procs == Sorted(Union(cpu, rss))
  {
    procs := [];
    var i := 0;
    while i < |cpu|
      invariant 0 <= i <= |cpu| && procs == cpu[..i]
    {
      procs := procs + [cpu[i]];
      i := i + 1;
    }
    assert cpu[..i] == cpu;
    i := 0;
    while i < |rss|
      invariant 0 <= i <= |rss| && procs == Union(cpu, rss[..i])
    {
      var dup := Duplicate(cpu, rss[i].pid);
      assert rss[..i + 1][..i] == rss[..i];
      if !dup {
        procs := procs + [rss[i]];
      }
      i := i + 1;
    }
    assert rss[..i] == rss;
    procs := Sorted(procs);
  }
}
