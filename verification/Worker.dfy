/** The background worker: one thread, a bounded queue, posters and one stopping thread. */
module Workers {

  /** The fields the lock guards; a job is known by what it is. */
  datatype Vars<J> = Vars(
    queue: seq<J>, busy: bool, stopping: bool, started: bool, cancel: bool, completed: nat, dropped: nat)

  // ----- The locked sections -----

  predicate Refuses<J>(capacity: nat, v: Vars<J>, canStart: bool) {
    v.stopping || |v.queue| >= capacity || (!v.started && !canStart)
  }

  function Posted<J>(capacity: nat, v: Vars<J>, job: J, canStart: bool): Vars<J> {
    if Refuses(capacity, v, canStart) then v.(dropped := v.dropped + 1)
    else v.(started := true, queue := v.queue + [job])
  }

  /** The thread may go on: there is a job or the end. */
  predicate Awaited<J>(v: Vars<J>) {
    v.queue != [] || v.stopping
  }

  predicate Quits<J>(v: Vars<J>) {
    v.stopping && (v.queue == [] || v.cancel)
  }

  function Quit<J>(v: Vars<J>): Vars<J> {
    v.(dropped := v.dropped + |v.queue|, queue := [])
  }

  function Taken<J>(v: Vars<J>): Vars<J>
    requires v.queue != []
  {
    v.(queue := v.queue[1..], busy := true)
  }

  function Finished<J>(v: Vars<J>): Vars<J> {
    v.(busy := false, completed := v.completed + 1)
  }

  predicate Idle<J>(v: Vars<J>) {
    v.queue == [] && !v.busy
  }

  /** The second section of stop: jobs are cancelled only when some are left. */
  function Raised<J>(v: Vars<J>): Vars<J> {
    v.(stopping := true, cancel := v.cancel || !Idle(v))
  }

  class Worker<J> {
    const capacity: nat
    var queue: seq<J>
    var busy: bool
    var stopping: bool
    var started: bool
    var cancel: bool
    var completed: nat
    var dropped: nat

    ghost function Fields(): Vars<J>
      reads this
    {
      Vars(queue, busy, stopping, started, cancel, completed, dropped)
    }

    constructor (size: nat)
      ensures capacity == if size > 0 then size else 1
      ensures Fields() == Vars([], false, false, false, false, 0, 0)
    {
      capacity := if size > 0 then size else 1;
      queue, busy, stopping, started, cancel, completed, dropped := [], false, false, false, false, 0, 0;
    }

    /** post: canStart says whether pthread_create would succeed. */
    method Post(job: J, canStart: bool) returns (ok: bool)
      modifies this
      ensures Fields() == Posted(capacity, old(Fields()), job, canStart)
      ensures ok == !Refuses(capacity, old(Fields()), canStart)
    {
      if stopping || |queue| >= capacity {
        dropped := dropped + 1;
        return false;
      }
      if !started {
        if !canStart {
          dropped := dropped + 1;
          return false;
        }
        started := true;
      }
      queue := queue + [job];
      ok := true;
    }

    /** run, from the end of the wait to the end of the section: a job to run, or the thread's end. */
    method TakeOrQuit() returns (jobs: seq<J>)
      requires Awaited(Fields())
      modifies this
      ensures if Quits(old(Fields())) then jobs == [] && Fields() == Quit(old(Fields()))
              else jobs == [old(queue)[0]] && Fields() == Taken(old(Fields()))
    {
      if stopping && (queue == [] || cancel) {
        dropped := dropped + |queue|;
        queue := [];
        return [];
      }
      jobs := [queue[0]];
      queue := queue[1..];
      busy := true;
    }

    method Finish()
      modifies this
      ensures Fields() == Finished(old(Fields()))
    {
      busy := false;
      completed := completed + 1;
    }

    /** The first section of stop: whether there is a thread to wait for. */
    method StopBegin() returns (goOn: bool)
      modifies this
      ensures goOn == (old(started) && !old(stopping))
      ensures Fields() == if old(started) then old(Fields()) else old(Fields()).(stopping := true)
    {
      if !started {
        stopping := true;
        return false;
      }
      goOn := !stopping;
    }

    /** The second: how many jobs are left unfinished. */
    method Raise() returns (left: nat)
      modifies this
      ensures Fields() == Raised(old(Fields()))
      ensures left == |old(queue)| + if old(busy) then 1 else 0
    {
      stopping := true;
      left := |queue| + if busy then 1 else 0;
      if left > 0 {
        cancel := true;
      }
    }
  }

  // ----- All threads together -----

  /** Where the worker's thread is: awake before the section, in the wait, in a job, gone. */
  datatype Thread = NotMade | Awake | Asleep | Running | Gone

  /** Where the stopping thread is. */
  datatype Stopper = Free | Grace | Raising | Joining | Returned

  /** What has happened: every post call, and the jobs accepted, begun and thrown away, in order. */
  datatype Log<J> = Log(posts: nat, accepted: seq<J>, begun: seq<J>, lost: seq<J>)

  datatype System<J> = System(capacity: nat, v: Vars<J>, thread: Thread, stopper: Stopper, log: Log<J>)

  datatype Step<J> = Post(job: J, canStart: bool)
    | Sleep | Wake | Take | Leave | Finish
    | StopBegin | Raise | Notify | Join

  predicate Enabled<J>(s: System<J>, t: Step<J>) {
    match t
    case Post(_, _) => true
    case Sleep => s.thread.Awake? && !Awaited(s.v)
    case Wake => s.thread.Asleep?
    case Take => s.thread.Awake? && Awaited(s.v) && !Quits(s.v)
    case Leave => s.thread.Awake? && Awaited(s.v) && Quits(s.v)
    case Finish => s.thread.Running?
    case StopBegin => s.stopper.Free? || s.stopper.Returned?
    case Raise => s.stopper.Grace?
    case Notify => s.stopper.Raising?
    case Join => s.stopper.Joining? && s.thread.Gone?
  }

  function Notified(t: Thread): Thread {
    if t.Asleep? then Awake else t
  }

  function AfterPost<J>(s: System<J>, job: J, canStart: bool): System<J> {
    var log := s.log.(posts := s.log.posts + 1);
    if Refuses(s.capacity, s.v, canStart) then s.(v := Posted(s.capacity, s.v, job, canStart), log := log)
    else s.(v := Posted(s.capacity, s.v, job, canStart), log := log.(accepted := log.accepted + [job]),
            thread := if s.thread.NotMade? then Awake else Notified(s.thread))
  }

  function AfterStopBegin<J>(s: System<J>): System<J> {
    if !s.v.started then s.(v := s.v.(stopping := true), stopper := Returned)
    else if s.v.stopping then s.(stopper := Returned)
    else s.(stopper := Grace)
  }

  function Do<J>(s: System<J>, t: Step<J>): System<J>
    requires Enabled(s, t)
  {
    match t
    case Post(job, canStart) => AfterPost(s, job, canStart)
    case Sleep => s.(thread := Asleep)
    case Wake => s.(thread := Awake)
    case Take => s.(v := Taken(s.v), thread := Running, log := s.log.(begun := s.log.begun + [s.v.queue[0]]))
    case Leave => s.(v := Quit(s.v), thread := Gone, log := s.log.(lost := s.v.queue))
    case Finish => s.(v := Finished(s.v), thread := Awake)
    case StopBegin => AfterStopBegin(s)
    case Raise => s.(v := Raised(s.v), stopper := Raising)
    case Notify => s.(thread := Notified(s.thread), stopper := Joining)
    case Join => s.(stopper := Returned)
  }

  function Start<J>(capacity: nat): System<J> {
    System(capacity, Vars([], false, false, false, false, 0, 0), NotMade, Free, Log(0, [], [], []))
  }

  ghost predicate IsRun<J>(s: System<J>, run: seq<Step<J>>)
    decreases |run|
  {
    run == [] || (Enabled(s, run[0]) && IsRun(Do(s, run[0]), run[1..]))
  }

  function After<J>(s: System<J>, run: seq<Step<J>>): System<J>
    requires IsRun(s, run)
    decreases |run|
  {
    if run == [] then s else After(Do(s, run[0]), run[1..])
  }

  // ----- What every step keeps -----

  function One(b: bool): nat {
    if b then 1 else 0
  }

  /** Every posted job is somewhere. */
  predicate Conserved<J>(s: System<J>) {
    s.log.posts == s.v.completed + s.v.dropped + |s.v.queue| + One(s.v.busy) &&
    |s.log.begun| == s.v.completed + One(s.v.busy) &&
    |s.v.queue| <= s.capacity
  }

  /** Jobs begin in the order they were accepted. */
  ghost predicate InOrder<J>(s: System<J>) {
    s.log.accepted == s.log.begun + s.log.lost + s.v.queue && (s.log.lost != [] ==> s.thread.Gone?)
  }

  /** The flags say where the threads are. */
  predicate Placed<J>(s: System<J>) {
    s.v.busy == s.thread.Running? && s.v.started == !s.thread.NotMade? &&
    (s.thread.NotMade? ==> s.v.queue == []) &&
    (s.thread.Gone? ==> s.v.queue == [] && s.v.stopping) &&
    (s.v.stopping <==> s.stopper in {Raising, Joining, Returned}) &&
    (s.stopper.Returned? ==> s.thread.NotMade? || s.thread.Gone?) &&
    (s.stopper in {Grace, Raising, Joining} ==> s.v.started)
  }

  /** Once stopping, jobs left over have been cancelled. */
  predicate Cancelled<J>(s: System<J>) {
    s.v.stopping && !Idle(s.v) ==> s.v.cancel
  }

  /** The thread sleeps only while there is nothing to do, or its wake-up is on the way. */
  predicate NoLostWakeUp<J>(s: System<J>) {
    s.thread.Asleep? && Awaited(s.v) ==> s.stopper.Raising?
  }

  ghost predicate Sound<J>(s: System<J>) {
    s.capacity > 0 && Conserved(s) && InOrder(s) && Placed(s) && Cancelled(s) && NoLostWakeUp(s)
  }

  /** At first nothing is queued, running, stopping or counted, and there is no thread. */
  lemma StartIs<J>(capacity: nat)
    ensures var s := Start<J>(capacity);
      && s.capacity == capacity && s.v.queue == [] && !s.v.busy && !s.v.stopping && !s.v.started && !s.v.cancel
      && s.v.completed == 0 && s.v.dropped == 0 && s.thread == NotMade && s.stopper == Free
      && s.log.posts == 0 && s.log.accepted == [] && s.log.begun == [] && s.log.lost == []
  {
  }

  /** A job may be posted at any time, and stop called whenever no other call of it is under way. */
  lemma AnyTime<J>(s: System<J>, job: J, canStart: bool)
    ensures Enabled(s, Post(job, canStart))
    ensures Enabled(s, StopBegin) <==> s.stopper !in {Grace, Raising, Joining}
  {
  }

  /** A posted job is refused exactly when the worker is stopping, its queue is full, or there is no thread and none can be made. */
  lemma PostIs<J>(s: System<J>, job: J, canStart: bool)
    ensures var t := Do(s, Post(job, canStart));
      if s.v.stopping || |s.v.queue| >= s.capacity || (!s.v.started && !canStart)
      then t.v == s.v.(dropped := s.v.dropped + 1) && t.log.accepted == s.log.accepted && t.thread == s.thread
      else t.v.queue == s.v.queue + [job] && t.v.dropped == s.v.dropped && t.log.accepted == s.log.accepted + [job] && t.v.started
  {
  }

  /** While jobs are queued and nobody stops the worker, its thread can take one or is in one. */
  lemma WorkProceeds<J>(s: System<J>)
    requires Sound(s) && s.v.queue != [] && !s.v.stopping
    ensures Enabled(s, Take) || Enabled(s, Finish)
  {
  }

  lemma StartSound<J>(capacity: nat)
    requires capacity > 0
    ensures Sound(Start<J>(capacity))
  {
  }

  lemma PostKeeps<J>(s: System<J>, job: J, canStart: bool)
    requires Sound(s)
    ensures Sound(AfterPost(s, job, canStart))
  {
    var log := s.log;
    assert log.begun + log.lost + (s.v.queue + [job]) == (log.begun + log.lost + s.v.queue) + [job];
  }

  lemma TakeKeeps<J>(s: System<J>)
    requires Sound(s) && Enabled(s, Step<J>.Take)
    ensures Sound(Do(s, Step<J>.Take))
  {
    var log, q := s.log, s.v.queue;
    assert log.lost == [];
    assert q == [q[0]] + q[1..];
    assert log.begun + [q[0]] + [] + q[1..] == log.begun + [] + q;
  }

  lemma LeaveKeeps<J>(s: System<J>)
    requires Sound(s) && Enabled(s, Step<J>.Leave)
    ensures Sound(Do(s, Step<J>.Leave))
  {
    var log, q := s.log, s.v.queue;
    assert log.lost == [];
    assert log.begun + [] + q == log.begun + q + [];
  }

  lemma StepKeepsSound<J>(s: System<J>, t: Step<J>)
    requires Sound(s) && Enabled(s, t)
    ensures Sound(Do(s, t))
  {
    match t
    case Post(job, canStart) => PostKeeps(s, job, canStart);
    case Take => TakeKeeps(s);
    case Leave => LeaveKeeps(s);
    case _ =>
  }

  /** In every interleaving. */
  lemma {:induction false} RunsKeepSound<J>(s: System<J>, run: seq<Step<J>>)
    requires Sound(s) && IsRun(s, run)
    ensures Sound(After(s, run))
    decreases |run|
  {
    if run != [] {
      StepKeepsSound(s, run[0]);
      RunsKeepSound(Do(s, run[0]), run[1..]);
    }
  }

  /** From the start: the counts add up, the queue is bounded, and jobs begin in post order. */
  lemma EveryJobCounted<J>(capacity: nat, run: seq<Step<J>>)
    requires capacity > 0 && IsRun(Start(capacity), run)
    ensures var s := After(Start(capacity), run);
      s.log.posts == s.v.completed + s.v.dropped + |s.v.queue| + One(s.v.busy) &&
      |s.v.queue| <= capacity && s.log.begun <= s.log.accepted
  {
    StartSound<J>(capacity);
    RunsKeepSound(Start(capacity), run);
    CapacityKept(Start(capacity), run);
    var s := After(Start(capacity), run);
    assert s.log.begun + s.log.lost + s.v.queue == s.log.begun + (s.log.lost + s.v.queue);
  }

  lemma {:induction false} CapacityKept<J>(s: System<J>, run: seq<Step<J>>)
    requires IsRun(s, run)
    ensures After(s, run).capacity == s.capacity
    decreases |run|
  {
    if run != [] {
      CapacityKept(Do(s, run[0]), run[1..]);
    }
  }

  // ----- Stopping -----

  /** Once stopping is set, no job begins, whatever the threads do. */
  lemma {:induction false} NoneBeginsAfterStop<J>(s: System<J>, run: seq<Step<J>>)
    requires Sound(s) && s.v.stopping && IsRun(s, run)
    ensures After(s, run).v.stopping && After(s, run).log.begun == s.log.begun
    ensures After(s, run).log.accepted == s.log.accepted
    decreases |run|
  {
    if run != [] {
      StepKeepsSound(s, run[0]);
      NoneBeginsAfterStop(Do(s, run[0]), run[1..]);
    }
  }

  /** When stop returns nothing is queued or running, and every post is completed or dropped. */
  lemma StoppedIsEmpty<J>(s: System<J>)
    requires Sound(s) && s.stopper.Returned?
    ensures Idle(s.v) && s.log.posts == s.v.completed + s.v.dropped && s.log.accepted == s.log.begun + s.log.lost
  {
  }

  /** When the worker is idle, every job accepted so far has run to its end. */
  lemma IdleMeansDone<J>(s: System<J>)
    requires Sound(s) && Idle(s.v) && !s.thread.Gone?
    ensures s.log.accepted == s.log.begun && |s.log.accepted| == s.v.completed
  {
  }

  /** Steps the worker's thread still takes before stop can join it. */
  function StepsLeft<J>(s: System<J>): nat {
    match s.thread
    case Gone => 0
    case Awake => 1
    case Asleep => 2
    case Running => 2
    case NotMade => 3
  }

  /** Some thread can always move a stop on, and no other step puts it back. */
  lemma StopProceeds<J>(s: System<J>) returns (t: Step<J>)
    requires Sound(s) && s.stopper in {Grace, Raising, Joining}
    ensures Enabled(s, t)
    ensures s.stopper.Joining? ==> Do(s, t).stopper.Returned? || (Do(s, t).stopper.Joining? && StepsLeft(Do(s, t)) < StepsLeft(s))
    ensures s.stopper.Grace? ==> Do(s, t).stopper.Raising?
    ensures s.stopper.Raising? ==> Do(s, t).stopper.Joining?
  {
    t := if s.stopper.Grace? then Step<J>.Raise
         else if s.stopper.Raising? then Step<J>.Notify
         else if s.thread.Gone? then Step<J>.Join
         else if s.thread.Running? then Step<J>.Finish
         else Step<J>.Leave;
  }

  lemma NothingHoldsTheJoinBack<J>(s: System<J>, t: Step<J>)
    requires Sound(s) && s.stopper.Joining? && Enabled(s, t)
    ensures StepsLeft(Do(s, t)) <= StepsLeft(s)
    ensures !t.Post? && !t.Join? ==> StepsLeft(Do(s, t)) < StepsLeft(s)
  {
  }
}
