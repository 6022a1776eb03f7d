/**
 The on-disk ring as shared memory: the slots and the header's write index survive a
 crash, the two atomics do not. Append is cut into the steps a reader on another
 thread, or a crash, can fall between.
 */
module Rings {
  import opened Samples

  /** What pread and record_decode make of one slot. */
  datatype Slot = Undecodable | Holds(rec: Sample)

  /** Where append() stands; the record is the one being written. */
  datatype Phase =
    | Idle
    | Begun(rec: Sample)      // begun_ stored, slot untouched
    | Tearing(rec: Sample)    // pwrite under way: part of the slot written
    | Placed(rec: Sample)     // the whole record in its slot
    | Indexed(rec: Sample)    // header write_idx stored, widx_ not yet

  datatype Ring = Ring(
    tier: nat, slots: seq<Slot>, header: nat, widx: nat, begun: nat, phase: Phase)
  {
    function Cap(): nat { |slots| }

    function Slot(logical: nat): Slot
      requires Cap() > 0
    {
      slots[logical % Cap()]
    }

    /** Records still live: the last Cap() of widx. */
    function Live(): nat {
      if widx < Cap() then widx else Cap()
    }

    function Oldest(): nat {
      widx - Live()
    }

    function Put(logical: nat, s: Slot): Ring
      requires Cap() > 0
    {
      this.(slots := slots[logical % Cap() := s])
    }
  }

  /** The steps of one append, in the order the writer takes them. */
  datatype WriterStep =
    | BeginAppend(rec: Sample)
    | Tear
    | Place
    | FailWrite
    | StoreHeader
    | StoreIndex

  predicate Enabled(r: Ring, step: WriterStep) {
    r.Cap() > 0 &&
    match step
    case BeginAppend(_) => r.phase.Idle?
    case Tear => r.phase.Begun? || r.phase.Tearing?
    case Place => r.phase.Begun? || r.phase.Tearing?
    case FailWrite => r.phase.Begun? || r.phase.Tearing?
    case StoreHeader => r.phase.Placed?
    case StoreIndex => r.phase.Indexed?
  }

  function Apply(r: Ring, step: WriterStep): Ring
    requires Enabled(r, step)
  {
    match step
    case BeginAppend(rec) => r.(begun := r.widx + 1, phase := Begun(rec))
    case Tear => r.Put(r.widx, Undecodable).(phase := Tearing(r.phase.rec))
    case Place => r.Put(r.widx, Holds(r.phase.rec)).(phase := Placed(r.phase.rec))
    case FailWrite => r.(begun := r.widx, phase := Idle)
    case StoreHeader => r.(header := r.widx + 1, phase := Indexed(r.phase.rec))
    case StoreIndex => r.(widx := r.widx + 1, phase := Idle)
  }

  predicate LevelFits(tier: nat, level: nat) {
    if tier == 1 then level == L3
    else if tier == 2 then level == L2
    else if tier == 3 then level == L1
    else if tier == CUSTOM_RING_TIER then FIRST_CUSTOM_LEVEL <= level <= MAX_LEVEL_ID
    else false
  }

  /** How a pwrite ends: all of it, none of it, or a part that leaves the slot torn. */
  datatype WriteFate = Whole | Nothing | Part

  /** A whole append, as the steps a reader may fall between. */
  function Appended(r: Ring, rec: Sample, fate: WriteFate): Ring
    requires r.Cap() > 0 && r.phase.Idle?
  {
    var begun := Apply(r, BeginAppend(rec));
    match fate
    case Whole => Apply(Apply(Apply(begun, Place), StoreHeader), StoreIndex)
    case Nothing => Apply(begun, FailWrite)
    case Part => Apply(Apply(begun, Tear), FailWrite)
  }

  /** RingFile of ring_file.cpp, open for writing. */
  class RingFile {
    const tier: nat
    const slots: array<Slot>
    var header: nat
    var widx: nat
    var begun: nat

    /** Between calls no append is under way. */
    ghost function State(): Ring
      reads this, slots
    {
      Ring(tier, slots[..], header, widx, begun, Idle)
    }

    /** open_impl: a ring on disk, or a new one of blank slots (blank bytes do not decode). */
    constructor Open(tier: nat, disk: seq<Slot>, writeIdx: nat)
      ensures State() == Ring(tier, disk, writeIdx, writeIdx, writeIdx, Idle)
      ensures fresh(slots) && slots.Length == |disk|
    {
      this.tier := tier;
      this.header, this.widx, this.begun := writeIdx, writeIdx, writeIdx;
      this.slots := new Slot[|disk|](i requires 0 <= i < |disk| => disk[i]);
    }

    method Append(rec: Sample, fate: WriteFate) returns (rc: int)
      requires slots.Length > 0
      modifies this`header, this`widx, this`begun, slots
      ensures rc == if fate.Whole? then 0 else -3
      ensures State() == Appended(old(State()), rec, fate)
    {
      var idx := widx;
      var slot := idx % slots.Length;
      begun := idx + 1;
      if !fate.Whole? {
        if fate.Part? {
          slots[slot] := Undecodable;
        }
        begun := idx;
        return -3;
      }
      slots[slot] := Holds(rec);
      header := idx + 1;
      widx := idx + 1;
      return 0;
    }

    method AdvanceWriteIndex(n: nat)
      modifies this`header, this`widx, this`begun
      ensures State() == Reindexed(old(State()), n)
    {
      var idx := widx + n;
      header := idx;
      begun := idx;
      widx := idx;
    }
  }

  /** The ring with n more records counted as written. */
  function Reindexed(r: Ring, n: nat): Ring {
    r.(header := r.widx + n, begun := r.widx + n, widx := r.widx + n)
  }
}
