/**
 * The file watcher's bookkeeping against a kernel that may answer anything: paths and
 * watch ids in two maps, lost paths waiting to exist again.
 */
module FileWatcher {

  type Path = string

  const ENOENT: int := 2
  const EBADF: int := 9
  const EBUSY: int := 16

  datatype Kind = Modified | Deleted | Created
  datatype Change = Change(path: Path, kind: Kind)

  /** One inotify event: its watch id and the bits of its mask that matter. */
  datatype Event = Event(wd: int, overflow: bool, gone: bool, attrib: bool)

  // ----- The two maps and the waiting set -----

  datatype Book = Book(ids: map<Path, int>, paths: map<int, seq<Path>>, pending: set<Path>)

  /** path_to_id_ and id_to_paths_ say the same, no id without a path, no path twice. */
  predicate Inverse(b: Book) {
    (forall p :: p in b.ids ==> b.ids[p] in b.paths && p in b.paths[b.ids[p]]) &&
    (forall id :: id in b.paths ==> b.paths[id] != [] && NoTwice(b.paths[id])) &&
    (forall id, p :: id in b.paths && p in b.paths[id] ==> p in b.ids && b.ids[p] == id)
  }

  predicate NoTwice<T(==)>(s: seq<T>) {
    forall i, j :: 0 <= i < j < |s| ==> s[i] != s[j]
  }

  predicate Apart(b: Book) {
    b.ids.Keys !! b.pending
  }

  function Wanted(b: Book): set<Path> {
    b.ids.Keys + b.pending
  }

  function Bound(b: Book, path: Path, id: int): Book {
    var paths := if id in b.paths then b.paths[id] else [];
    b.(ids := b.ids[path := id], paths := b.paths[id := if path in paths then paths else paths + [path]])
  }

  function Without(s: seq<Path>, path: Path): (r: seq<Path>)
    ensures forall p :: p in r <==> p in s && p != path
  {
    if s == [] then [] else if s[0] == path then Without(s[1..], path) else [s[0]] + Without(s[1..], path)
  }

  /** The id let go when the path is unbound: the one it was the last path of. */
  function LetGo(b: Book, path: Path): set<int> {
    if path in b.ids && b.ids[path] in b.paths && Without(b.paths[b.ids[path]], path) == [] then {b.ids[path]} else {}
  }

  function Unbound(b: Book, path: Path): Book {
    if path !in b.ids then b
    else
      var id := b.ids[path];
      var ids := b.ids - {path};
      if id !in b.paths then b.(ids := ids)
      else
        var rest := Without(b.paths[id], path);
        b.(ids := ids, paths := if rest == [] then b.paths - {id} else b.paths[id := rest])
  }

  lemma {:induction false} WithoutNoTwice(s: seq<Path>, path: Path)
    requires NoTwice(s)
    ensures NoTwice(Without(s, path))
  {
    if s != [] {
      WithoutNoTwice(s[1..], path);
      var r := Without(s[1..], path);
      if s[0] != path {
        assert s[0] !in s[1..];
        assert s[0] !in r;
      }
    }
  }

  lemma NoTwiceMore(s: seq<Path>, path: Path)
    requires NoTwice(s) && path !in s
    ensures NoTwice(s + [path])
  {
  }

  lemma BoundPaths(b: Book, path: Path, id: int, i: int, p: Path)
    requires Inverse(b) && path !in b.ids && i in Bound(b, path, id).paths && p in Bound(b, path, id).paths[i]
    ensures p in Bound(b, path, id).ids && Bound(b, path, id).ids[p] == i
  {
  }

  lemma BoundKeeps(b: Book, path: Path, id: int)
    requires Inverse(b) && path !in b.ids
    ensures Inverse(Bound(b, path, id))
    ensures Bound(b, path, id).ids.Keys == b.ids.Keys + {path}
    ensures Bound(b, path, id).paths.Keys == b.paths.Keys + {id}
  {
    var c := Bound(b, path, id);
    var was := if id in b.paths then b.paths[id] else [];
    NoTwiceMore(was, path);
    assert c.paths[id] == was + [path];
    forall i, p | i in c.paths && p in c.paths[i]
      ensures p in c.ids && c.ids[p] == i
    {
      BoundPaths(b, path, id, i, p);
    }
    forall p | p in c.ids
      ensures c.ids[p] in c.paths && p in c.paths[c.ids[p]]
    {
      if p != path {
        assert p in b.ids;
      }
    }
  }

  lemma UnboundKeeps(b: Book, path: Path)
    requires Inverse(b)
    ensures Inverse(Unbound(b, path))
    ensures Unbound(b, path).ids == b.ids - {path}
    ensures Unbound(b, path).paths.Keys == b.paths.Keys - LetGo(b, path)
  {
    if path in b.ids {
      var id := b.ids[path];
      assert id in b.paths && b.paths[id] != [] && NoTwice(b.paths[id]);
      WithoutNoTwice(b.paths[id], path);
    }
  }

  // ----- One poll's changes -----

  class Batch {
    var out: seq<Change>
    var seen: set<Change>

    ghost predicate Valid()
      reads this
    {
      NoTwice(out) && seen == set c | c in out
    }

    constructor ()
      ensures Valid() && out == [] && seen == {}
    {
      out, seen := [], {};
    }

    /** emit. */
    method Emit(path: Path, kind: Kind)
      requires Valid()
      modifies this
      ensures Valid() && seen == old(seen) + {Change(path, kind)}
    {
      var c := Change(path, kind);
      if c in seen {
        return;
      }
      seen := seen + {c};
      out := out + [c];
    }
  }

  function All(paths: set<Path>, kind: Kind): set<Change> {
    set p | p in paths :: Change(p, kind)
  }

  ghost predicate Reported(seen: set<Change>, p: Path) {
    exists kind :: Change(p, kind) in seen
  }

  // ----- The watcher -----

  class Watcher {
    var open: bool
    var ids: map<Path, int>
    var paths: map<int, seq<Path>>
    var pending: set<Path>
    var overflowed: bool

    /** What the kernel answers to the n-th request for a watch: any number at all. */
    const kernel: nat -> int
    var calls: nat

    /** The watch ids handed out and not let go. */
    ghost var live: set<int>

    ghost function Held(): Book
      reads this
    {
      Book(ids, paths, pending)
    }

    ghost function Now(b: Batch): View
      reads this, b
    {
      View(ids, pending, b.seen)
    }

    /** No live id without a path, no path both bound and waiting. */
    ghost predicate Valid()
      reads this
    {
      Inverse(Held()) && Apart(Held()) && live <= paths.Keys
    }

    /** The same in the middle of a call, but for ids just handed out. */
    ghost predicate ValidBut(extra: set<int>)
      reads this
    {
      Inverse(Held()) && Apart(Held()) && live <= paths.Keys + extra
    }

    constructor (answers: nat -> int)
      ensures Valid() && !open && Held() == Book(map[], map[], {}) && kernel == answers
    {
      open, overflowed, ids, paths, pending := false, false, map[], map[], {};
      kernel, calls, live := answers, 0, {};
    }

    /** init: handle is the descriptor the kernel gives, or -errno. */
    method Init(handle: int) returns (r: int)
      modifies this`open
      ensures open == (old(open) || handle >= 0)
      ensures r == if old(open) then -EBUSY else if handle < 0 then handle else 0
    {
      if open {
        return -EBUSY;
      }
      if handle < 0 {
        return handle;
      }
      open := true;
      r := 0;
    }

    /** shutdown lets every watch go: those of the ids with paths are all there are. */
    method Shutdown()
      requires Valid()
      modifies this
      ensures Valid() && !open
      ensures old(open) ==> Held() == Book(map[], map[], {}) && live == {}
      ensures !old(open) ==> Held() == old(Held())
    {
      if !open {
        return;
      }
      live := live - paths.Keys;   // sys_unwatch of every id with a path
      open, overflowed, ids, paths, pending := false, false, map[], map[], {};
    }

    method SysWatch(path: Path) returns (id: int)
      modifies this`calls, this`live
      ensures calls == old(calls) + 1 && id == kernel(old(calls))
      ensures live == if id >= 0 then old(live) + {id} else old(live)
    {
      id := kernel(calls);
      calls := calls + 1;
      if id >= 0 {
        live := live + {id};
      }
    }

    method SysUnwatch(id: int)
      modifies this`live
      ensures live == old(live) - {id}
    {
      live := live - {id};
    }

    method Bind(path: Path, id: int)
      modifies this`ids, this`paths
      ensures Held() == Bound(old(Held()), path, id)
    {
      ids := ids[path := id];
      var there := if id in paths then paths[id] else [];
      if path !in there {
        there := there + [path];
      }
      paths := paths[id := there];
    }

    method Unbind(path: Path)
      modifies this`ids, this`paths, this`live
      ensures Held() == Unbound(old(Held()), path)
      ensures live == old(live) - LetGo(old(Held()), path)
    {
      if path !in ids {
        return;
      }
      var id := ids[path];
      ids := ids - {path};
      if id !in paths {
        return;
      }
      var rest := Without(paths[id], path);
      if rest == [] {
        paths := paths - {id};
        SysUnwatch(id);
      } else {
        paths := paths[id := rest];
      }
    }

    /** lost. */
    method Lose(path: Path, ghost extra: set<int>)
      requires ValidBut(extra)
      modifies this`ids, this`paths, this`live, this`pending
      ensures ValidBut(extra)
      ensures ids == old(ids) - {path} && pending == old(pending) + {path}
    {
      Unbind(path);
      UnboundKeeps(old(Held()), path);
      pending := pending + {path};
    }

    /** add: refused without a handle; a path not there yet waits. */
    method Add(path: Path) returns (r: int)
      requires Valid()
      modifies this
      ensures Valid() && open == old(open)
      ensures !open ==> r == -EBADF
      ensures open && path in old(ids) ==> r == old(ids)[path]
      ensures open && path !in old(ids) ==> r == if kernel(old(calls)) == -ENOENT then 0 else kernel(old(calls))
      ensures Wanted(Held()) == if r >= 0 || path in old(ids) then Wanted(old(Held())) + {path} else Wanted(old(Held()))
      ensures path in pending ==> path in old(pending) || r == 0
      ensures ids == if open && path !in old(ids) && kernel(old(calls)) >= 0 then old(ids)[path := r] else old(ids)
    {
      if !open {
        return -EBADF;
      }
      if path in ids {
        return ids[path];
      }
      var id := SysWatch(path);
      if id == -ENOENT {
        pending := pending + {path};
        return 0;
      }
      if id < 0 {
        return id;
      }
      BoundKeeps(Held(), path, id);
      Bind(path, id);
      pending := pending - {path};
      r := id;
    }

    /** remove. */
    method Remove(path: Path)
      requires Valid()
      modifies this
      ensures Valid() && open == old(open)
      ensures ids == old(ids) - {path} && pending == old(pending) - {path}
    {
      pending := pending - {path};
      UnboundKeeps(Held(), path);
      Unbind(path);
    }

    /** One round of retry_pending. */
    method RetryOne(p: Path, b: Batch)
      requires Valid() && b.Valid() && p in pending
      modifies this`ids, this`paths, this`pending, this`calls, this`live, b
      ensures Valid() && b.Valid()
      ensures var id := kernel(old(calls));
        if id < 0 then ids == old(ids) && pending == old(pending) && b.seen == old(b.seen)
        else ids == old(ids)[p := id] && pending == old(pending) - {p} && b.seen == old(b.seen) + {Change(p, Created)}
    {
      var id := SysWatch(p);
      if id >= 0 {
        BoundKeeps(Held(), p, id);
        Bind(p, id);
        b.Emit(p, Created);
        pending := pending - {p};
      }
    }

    /** retry_pending: the paths that exist again are bound and reported, the others wait on. */
    method RetryPending(b: Batch)
      requires Valid() && b.Valid()
      modifies this`ids, this`paths, this`pending, this`calls, this`live, b
      ensures Valid() && b.Valid()
      ensures pending <= old(pending) && ids.Keys == old(ids).Keys + (old(pending) - pending)
      ensures forall p :: p in old(ids) ==> p in ids && ids[p] == old(ids)[p]
      ensures b.seen == old(b.seen) + All(old(pending) - pending, Created)
    {
      var todo := pending;
      while todo != {}
        invariant Valid() && b.Valid()
        invariant todo <= pending <= old(pending) && ids.Keys == old(ids).Keys + (old(pending) - pending)
        invariant forall p :: p in old(ids) ==> p in ids && ids[p] == old(ids)[p]
        invariant b.seen == old(b.seen) + All(old(pending) - pending, Created)
        decreases |todo|
      {
        var p :| p in todo;
        todo := todo - {p};
        RetryOne(p, b);
      }
    }

    /** A path whose watch has an event: asked again after a change of attributes, lost or still there. */
    method PathChanged(path: Path, ev: Event, b: Batch) returns (off: bool)
      requires Valid() && b.Valid() && path in ids && ids[path] == ev.wd
      modifies this`ids, this`paths, this`pending, this`calls, this`live, b
      ensures Valid() && b.Valid()
      ensures off == (ev.gone || (ev.attrib && kernel(old(calls)) != ev.wd))
      ensures Now(b) == LookedAt(old(Now(b)), path, off)
    {
      off := ev.gone;
      if !off && ev.attrib {
        var wd := SysWatch(path);
        off := wd != ev.wd;
        if off && wd >= 0 && wd !in paths {
          SysUnwatch(wd);
        }
      }
      b.Emit(path, if off then Deleted else Modified);
      if off {
        Lose(path, {});
      }
    }

    /** One event: every path of its watch is reported, and lost if its file is not the one watched. */
    method HandleEvent(ev: Event, b: Batch) returns (ghost moved: set<Path>)
      requires Valid() && b.Valid() && !ev.overflow
      modifies this`ids, this`paths, this`pending, this`calls, this`live, b
      ensures Valid() && b.Valid()
      ensures var there := if ev.wd in old(paths) then Elements(old(paths)[ev.wd]) else {};
        moved <= there && (ev.gone ==> moved == there) && (!ev.gone && !ev.attrib ==> moved == {}) &&
        Now(b) == Moved(old(Now(b)), there, moved)
    {
      moved := {};
      ghost var start := Now(b);
      MovedNone(start);
      if ev.wd !in paths {
        return;
      }
      var there := paths[ev.wd];
      assert there != [] && NoTwice(there);
      var k := 0;
      ghost var looked: set<Path> := {};
      while k < |there|
        invariant 0 <= k <= |there| && looked == Elements(there[..k]) && Valid() && b.Valid()
        invariant moved <= looked && (ev.gone ==> moved == looked) && (!ev.gone && !ev.attrib ==> moved == {})
        invariant Now(b) == Moved(start, looked, moved)
      {
        var p := there[k];
        NotBefore(there, k);
        assert p in there && p in start.ids && start.ids[p] == ev.wd;
        var off := PathChanged(p, ev, b);
        MovedOne(start, looked, moved, p, off);
        if off {
          moved := moved + {p};
        }
        looked := looked + {p};
        k := k + 1;
      }
      assert there[..k] == there;
    }

    /** After an overflow: every watch is checked against what its path names now. */
    method CheckOne(p: Path, b: Batch) returns (off: bool)
      requires Valid() && b.Valid() && p in ids
      modifies this`ids, this`paths, this`pending, this`calls, this`live, b
      ensures Valid() && b.Valid()
      ensures off == (kernel(old(calls)) != old(ids)[p])
      ensures Now(b) == LookedAt(old(Now(b)), p, off)
    {
      var wd := SysWatch(p);
      if wd == ids[p] {
        b.Emit(p, Modified);
        return false;
      }
      b.Emit(p, Deleted);
      Lose(p, if wd >= 0 then {wd} else {});
      if wd >= 0 && wd !in paths {
        SysUnwatch(wd);
      }
      off := true;
    }

    method CheckAll(b: Batch) returns (ghost moved: set<Path>)
      requires Valid() && b.Valid()
      modifies this`ids, this`paths, this`pending, this`calls, this`live, b
      ensures Valid() && b.Valid() && moved <= old(ids).Keys
      ensures Now(b) == Moved(old(Now(b)), old(ids).Keys, moved)
    {
      moved := {};
      ghost var start := Now(b);
      MovedNone(start);
      var all, done := ids.Keys, {};
      while done != all
        invariant Valid() && b.Valid() && moved <= done <= all
        invariant Now(b) == Moved(start, done, moved)
        decreases all - done
      {
        var p :| p in all && p !in done;
        var off := CheckOne(p, b);
        MovedOne(start, done, moved, p, off);
        done := done + {p};
        if off {
          moved := moved + {p};
        }
      }
    }

    method RetryAll(b: Batch, ghost start: map<Path, int>, ghost wanted: set<Path>)
      requires Valid() && b.Valid() && Following(start, wanted, Now(b))
      modifies this`ids, this`paths, this`pending, this`calls, this`live, b
      ensures Valid() && b.Valid() && Following(start, wanted, Now(b)) && old(b.seen) <= b.seen
    {
      RetryPending(b);
    }

    /** The events of one read. */
    method HandleEvents(evs: seq<Event>, b: Batch, ghost start: map<Path, int>, ghost wanted: set<Path>)
      returns (overflow: bool)
      requires Valid() && b.Valid() && Following(start, wanted, Now(b))
      modifies this`ids, this`paths, this`pending, this`calls, this`live, b
      ensures Valid() && b.Valid() && Following(start, wanted, Now(b)) && old(b.seen) <= b.seen
      ensures overflow == Overflows(evs) && AllReported(start, b.seen, evs)
    {
      overflow := false;
      var k := 0;
      while k < |evs|
        invariant 0 <= k <= |evs| && Valid() && b.Valid() && Following(start, wanted, Now(b)) && old(b.seen) <= b.seen
        invariant overflow == Overflows(evs[..k]) && AllReported(start, b.seen, evs[..k])
      {
        var ev := evs[k];
        assert evs[..k + 1] == evs[..k] + [ev];
        k := k + 1;
        if ev.overflow {
          overflow := true;
          continue;
        }
        HandleOne(ev, b, start, wanted);
      }
      assert evs[..k] == evs;
    }

    method HandleOne(ev: Event, b: Batch, ghost start: map<Path, int>, ghost wanted: set<Path>)
      requires Valid() && b.Valid() && Following(start, wanted, Now(b)) && !ev.overflow
      modifies this`ids, this`paths, this`pending, this`calls, this`live, b
      ensures Valid() && b.Valid() && Following(start, wanted, Now(b)) && old(b.seen) <= b.seen
      ensures EventReported(start, b.seen, ev)
    {
      ghost var was := Now(b);
      ghost var there := if ev.wd in paths then Elements(paths[ev.wd]) else {};
      assert forall p :: p in ids && ids[p] == ev.wd ==> p in there;
      assert forall p :: p in there ==> p in ids;
      ghost var moved := HandleEvent(ev, b);
      MovedFollows(start, wanted, was, there, moved);
    }

    /** The reads of a poll, to the first that has nothing more. */
    method Drain(input: seq<Read>, b: Batch, ghost start: map<Path, int>, ghost wanted: set<Path>)
      returns (err: int, overflow: bool)
      requires Valid() && b.Valid() && Following(start, wanted, Now(b))
      modifies this`ids, this`paths, this`pending, this`calls, this`live, b
      ensures Valid() && b.Valid() && Following(start, wanted, Now(b))
      ensures err == Outcome(input) && overflow == Overflows(Drained(input)) && AllReported(start, b.seen, Drained(input))
    {
      err, overflow := 0, false;
      var k, more := 0, true;
      ghost var handled: seq<Event> := [];
      while more && k < |input| && input[k].Events?
        invariant 0 <= k <= |input| && Valid() && b.Valid() && Following(start, wanted, Now(b))
        invariant overflow == Overflows(handled) && AllReported(start, b.seen, handled)
        invariant ReadTo(input, k, more, handled)
        decreases |input| - k
      {
        var evs := input[k].evs;
        var full := HandleRead(evs, b, handled, start, wanted);
        overflow := overflow || full;
        ReadNext(input, k, handled);
        more := evs != [];
        handled := handled + evs;
        k := k + 1;
      }
      ReadEnd(input, k, more, handled);
      if more && k < |input| && input[k].Failed? {
        err := -input[k].errno;
      }
    }

    method HandleRead(evs: seq<Event>, b: Batch, ghost handled: seq<Event>, ghost start: map<Path, int>, ghost wanted: set<Path>)
      returns (full: bool)
      requires Valid() && b.Valid() && Following(start, wanted, Now(b)) && AllReported(start, b.seen, handled)
      modifies this`ids, this`paths, this`pending, this`calls, this`live, b
      ensures Valid() && b.Valid() && Following(start, wanted, Now(b))
      ensures AllReported(start, b.seen, handled + evs)
      ensures (Overflows(handled) || full) == Overflows(handled + evs)
    {
      full := HandleEvents(evs, b, start, wanted);
      OverflowsJoin(handled, evs);
    }

    /**
     * poll on Linux: ready is what poll(2) answers, input what each read gives. Nothing is
     * reported twice or unasked for, no path is forgotten, and no change the kernel tells of,
     * or may have dropped, goes unreported.
     */
    method Poll(ready: int, input: seq<Read>) returns (r: int, changes: seq<Change>)
      requires Valid()
      modifies this
      ensures Valid() && Wanted(Held()) == Wanted(old(Held())) && open == old(open)
      ensures NoTwice(changes) && forall c :: c in changes ==> c.path in Wanted(old(Held()))
      ensures !open ==> r == -EBADF && Held() == old(Held()) && changes == []
      ensures open && ready < 0 ==> r == ready
      ensures open && ready > 0 && Outcome(input) != 0 ==> r == Outcome(input)
      ensures open && ready >= 0 && (ready == 0 || Outcome(input) == 0) ==> r == |changes|
      ensures open && ready > 0 ==> AllReported(old(ids), ToSet(changes), Drained(input))
      ensures open && ready > 0 && Outcome(input) == 0 && Overflows(Drained(input)) ==>
        forall p :: p in old(ids) ==> Reported(ToSet(changes), p)
    {
      if !open {
        return -EBADF, [];
      }
      var b := new Batch();
      ghost var start, wanted := ids, Wanted(Held());
      RetryAll(b, start, wanted);
      if ready < 0 {
        return ready, b.out;
      }
      var overflow := false;
      if ready > 0 {
        var err;
        err, overflow := Drain(input, b, start, wanted);
        if err != 0 {
          return err, b.out;
        }
      }
      if overflow {
        overflowed := true;
        ghost var was := Now(b);
        ghost var moved := CheckAll(b);
        MovedFollows(start, wanted, was, was.ids.Keys, moved);
      }
      RetryAll(b, start, wanted);
      r, changes := |b.out|, b.out;
    }
  }

  function Elements(s: seq<Path>): set<Path> {
    set p | p in s
  }

  lemma NotBefore(s: seq<Path>, k: nat)
    requires NoTwice(s) && k < |s|
    ensures s[k] !in Elements(s[..k]) && Elements(s[..k + 1]) == Elements(s[..k]) + {s[k]}
  {
    assert s[..k + 1] == s[..k] + [s[k]];
  }

  /** What a poll has changed so far: the bound paths, the waiting ones, the changes reported. */
  datatype View = View(ids: map<Path, int>, pending: set<Path>, seen: set<Change>)

  /** One path looked at: gone, it is unbound, waits and is reported so; else it only changed. */
  function LookedAt(v: View, p: Path, off: bool): View {
    if off then View(v.ids - {p}, v.pending + {p}, v.seen + {Change(p, Deleted)})
    else v.(seen := v.seen + {Change(p, Modified)})
  }

  /** Many paths looked at, those in moved gone. */
  function Moved(v: View, looked: set<Path>, moved: set<Path>): View {
    View(v.ids - moved, v.pending + moved, v.seen + All(moved, Deleted) + All(looked - moved, Modified))
  }

  lemma MovedNone(v: View)
    ensures Moved(v, {}, {}) == v
  {
  }

  lemma MovedOne(v: View, looked: set<Path>, moved: set<Path>, p: Path, off: bool)
    requires p !in looked && moved <= looked
    ensures Moved(v, looked + {p}, if off then moved + {p} else moved) == LookedAt(Moved(v, looked, moved), p, off)
  {
    if off {
      assert (looked + {p}) - (moved + {p}) == looked - moved;
      assert (v.ids - moved) - {p} == v.ids - (moved + {p});
    } else {
      assert (looked + {p}) - moved == (looked - moved) + {p};
    }
  }

  // ----- What a poll keeps -----

  /** A read of the event queue: events, nothing there for now, or an error. */
  datatype Read = Events(evs: seq<Event>) | Again | Failed(errno: int)

  function Drained(input: seq<Read>): seq<Event> {
    if input == [] || !input[0].Events? || input[0].evs == [] then [] else input[0].evs + Drained(input[1..])
  }

  function Outcome(input: seq<Read>): int {
    if input == [] || input[0].Again? then 0
    else if input[0].Failed? then -input[0].errno
    else if input[0].evs == [] then 0
    else Outcome(input[1..])
  }

  /** The first k reads have been handled; more says whether to go on. */
  predicate ReadTo(input: seq<Read>, k: nat, more: bool, handled: seq<Event>) {
    k <= |input| &&
    Drained(input) == (if more then handled + Drained(input[k..]) else handled) &&
    Outcome(input) == (if more then Outcome(input[k..]) else 0)
  }

  lemma ReadNext(input: seq<Read>, k: nat, handled: seq<Event>)
    requires k < |input| && input[k].Events? && ReadTo(input, k, true, handled)
    ensures ReadTo(input, k + 1, input[k].evs != [], handled + input[k].evs)
  {
    var evs := input[k].evs;
    assert input[k..][1..] == input[k + 1..] && input[k..][0] == input[k];
    if evs != [] {
      assert handled + (evs + Drained(input[k + 1..])) == (handled + evs) + Drained(input[k + 1..]);
    }
  }

  lemma ReadEnd(input: seq<Read>, k: nat, more: bool, handled: seq<Event>)
    requires ReadTo(input, k, more, handled) && !(more && k < |input| && input[k].Events?)
    ensures Drained(input) == handled
    ensures Outcome(input) == if more && k < |input| && input[k].Failed? then -input[k].errno else 0
  {
  }

  lemma OverflowsJoin(a: seq<Event>, b: seq<Event>)
    ensures Overflows(a + b) == (Overflows(a) || Overflows(b))
  {
    if Overflows(a) {
      var i :| 0 <= i < |a| && a[i].overflow;
      assert (a + b)[i].overflow;
    } else if Overflows(b) {
      var i :| 0 <= i < |b| && b[i].overflow;
      assert (a + b)[|a| + i].overflow;
    }
  }

  predicate Overflows(evs: seq<Event>) {
    exists i :: 0 <= i < |evs| && evs[i].overflow
  }

  function ToSet(changes: seq<Change>): set<Change> {
    set c | c in changes
  }

  /** Every path bound at the start to the event's watch is reported. */
  ghost predicate EventReported(start: map<Path, int>, seen: set<Change>, ev: Event) {
    ev.overflow || forall p :: p in start && start[p] == ev.wd ==> Reported(seen, p)
  }

  ghost predicate AllReported(start: map<Path, int>, seen: set<Change>, evs: seq<Event>) {
    forall i :: 0 <= i < |evs| ==> EventReported(start, seen, evs[i])
  }

  /** The wanted paths are still bound or waiting, those bound at the start still are or were reported gone. */
  ghost predicate Following(start: map<Path, int>, wanted: set<Path>, v: View) {
    v.ids.Keys + v.pending == wanted && (forall c :: c in v.seen ==> c.path in wanted) &&
    forall p :: p in start ==> (p in v.ids && v.ids[p] == start[p]) || Change(p, Deleted) in v.seen
  }

  lemma MovedFollows(start: map<Path, int>, wanted: set<Path>, v: View, looked: set<Path>, moved: set<Path>)
    requires Following(start, wanted, v) && moved <= looked <= v.ids.Keys
    ensures var w := Moved(v, looked, moved);
      Following(start, wanted, w) && v.seen <= w.seen && forall p :: p in looked ==> Reported(w.seen, p)
  {
    var w := Moved(v, looked, moved);
    forall p | p in looked
      ensures Reported(w.seen, p)
    {
      assert Change(p, if p in moved then Deleted else Modified) in w.seen;
    }
  }
}
