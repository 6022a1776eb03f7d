/**
 Opening a ring file: its 64-byte header made, checked or refused, byte for byte, under
 whatever the system calls answer.
 */
module RingOpen {
  import opened Common
  import opened Crc
  import opened Record
  import opened Rings
  import RingRuns

  const HEADER_SIZE: nat := 64
  const VERSION: nat := 1
  const MAGIC: Bytes := [0x42, 0x44, 0x59, 0x4B, 0x52, 0x42, 0, 1]   // "BDYKRB\0\x01"

  /** What a ring is opened as. */
  datatype Shape = Shape(tier: nat, recordSize: nat, capacity: nat)

  predicate Fits(sh: Shape) {
    sh.tier < BYTE && sh.recordSize < Power(4) && sh.capacity < Power(8)
  }

  function NoBytes(n: nat): (b: Bytes)
    ensures |b| == n && forall i :: 0 <= i < n ==> b[i] == 0
  {
    seq(n, _ => 0)
  }

  predicate Blank(b: Bytes) {
    forall i :: 0 <= i < |b| ==> b[i] == 0
  }

  /** The header of a ring with so many records written. */
  function Header(sh: Shape, writeIdx: nat): (h: Bytes)
    ensures |h| == HEADER_SIZE
  {
    MAGIC + LePut(VERSION, 4) + [sh.tier, 0, 0, 0] + LePut(sh.recordSize, 4) + LePut(sh.capacity, 8) +
    LePut(writeIdx, 8) + NoBytes(28)
  }

  /** Byte i of x, the least first. */
  predicate ByteOf(x: nat, i: nat, b: nat) {
    Power(i) > 0 && b == x / Power(i) % 256
  }

  lemma BytesAre(x: nat, n: nat)
    ensures |LePut(x, n)| == n && forall i: nat :: i < n ==> ByteOf(x, i, LePut(x, n)[i])
  {
    forall i: nat | i < n
      ensures ByteOf(x, i, LePut(x, n)[i])
    {
      LePutAt(x, n, i);
    }
  }

  /** The numbers of a header and where they stand. */
  lemma NumbersAre(sh: Shape, writeIdx: nat)
    ensures var h := Header(sh, writeIdx);
      && (forall i: nat :: i < 4 ==> ByteOf(1, i, h[8..12][i])) && (forall i: nat :: i < 4 ==> ByteOf(sh.recordSize, i, h[16..20][i]))
      && (forall i: nat :: i < 8 ==> ByteOf(sh.capacity, i, h[20..28][i])) && (forall i: nat :: i < 8 ==> ByteOf(writeIdx, i, h[28..36][i]))
  {
    HeaderParts(sh, writeIdx);
    BytesAre(1, 4);
    BytesAre(sh.recordSize, 4);
    BytesAre(sh.capacity, 8);
    BytesAre(writeIdx, 8);
  }

  lemma MagicIs(h: Bytes)
    requires |h| >= 8 && h[..8] == MAGIC
    ensures h[0] as char == 'B' && h[1] as char == 'D' && h[2] as char == 'Y' && h[3] as char == 'K'
    ensures h[4] as char == 'R' && h[5] as char == 'B' && h[6] == 0 && h[7] == 1
  {
    assert forall i :: 0 <= i < 8 ==> h[i] == h[..8][i];
  }

  /** Where the rest stands: the magic, the tier, and zeros. */
  lemma HeaderLayoutIs(sh: Shape, writeIdx: nat)
    ensures var h := Header(sh, writeIdx);
      && h[0] as char == 'B' && h[1] as char == 'D' && h[2] as char == 'Y' && h[3] as char == 'K'
      && h[4] as char == 'R' && h[5] as char == 'B' && h[6] == 0 && h[7] == 1
      && h[12] == sh.tier && (forall i :: 12 < i < 16 || 36 <= i < 64 ==> h[i] == 0)
  {
    HeaderParts(sh, writeIdx);
    var h := Header(sh, writeIdx);
    MagicIs(h);
    assert forall i :: 36 <= i < 64 ==> h[i] == h[36..][i - 36];
  }

  function FileBytes(sh: Shape): nat {
    HEADER_SIZE + sh.recordSize * sh.capacity
  }

  /** A file on disk; size 0 is an empty one. */
  datatype File = File(size: nat, header: Bytes, slots: seq<Slot>)

  /** A file of the shape's size has a whole header and the shape's slots. */
  predicate IsFile(f: File, sh: Shape) {
    f.size == FileBytes(sh) ==> |f.header| == HEADER_SIZE && |f.slots| == sh.capacity
  }

  const EMPTY_FILE: File := File(0, [], [])

  /** ftruncate to the ring's size, or a file that died there: zero bytes, which do not decode. */
  function Sized(sh: Shape): File {
    File(FileBytes(sh), NoBytes(HEADER_SIZE), seq(sh.capacity, _ => Undecodable))
  }

  /** What the header check answers: 0, or the first thing that does not agree. */
  function Refusal(h: Bytes, sh: Shape): int
    requires |h| == HEADER_SIZE
  {
    if h[..8] != MAGIC then -8
    else if LeGet(h[8..12]) != VERSION then -9
    else if h[12] != sh.tier then -10
    else if LeGet(h[16..20]) != sh.recordSize then -11
    else if LeGet(h[20..28]) != sh.capacity then -12
    else 0
  }

  function IndexOf(h: Bytes): nat
    requires |h| == HEADER_SIZE
  {
    LeGet(h[28..36])
  }

  /** How the system calls answer; written is how much of a new header reaches the file. */
  datatype Io = Io(opens: bool, stats: bool, sizes: bool, written: nat, undone: bool, maps: bool)

  const GOOD: Io := Io(true, true, true, HEADER_SIZE, true, true)

  datatype Opened = Opened(rc: int, file: File)

  /** The file is made anew: it is empty, or of its size and never given a header. */
  predicate MadeAnew(f: File, sh: Shape, readOnly: bool) {
    !readOnly && (f.size == 0 || (f.size == FileBytes(sh) && Blank(f.header)))
  }

  /** The file once its first n header bytes are written. */
  function HeaderTo(f: File, sh: Shape, n: nat): File
    requires |f.header| == HEADER_SIZE && n <= HEADER_SIZE
  {
    f.(header := Header(sh, 0)[..n] + f.header[n..])
  }

  /** The new header written, or what a failed write leaves. */
  function Made(f: File, sh: Shape, io: Io): Opened
    requires |f.header| == HEADER_SIZE && io.written <= HEADER_SIZE
  {
    var g := HeaderTo(f, sh, io.written);
    if io.written < HEADER_SIZE then Opened(-14, if io.undone then EMPTY_FILE else g)
    else Opened(if io.maps then 0 else -7, g)
  }

  /** open_impl on a RingFile that is not open. */
  function Open(f: File, sh: Shape, readOnly: bool, io: Io): (r: Opened)
    requires IsFile(f, sh) && io.written <= HEADER_SIZE
    ensures r.rc == 0 ==> sh.capacity > 0 && r.file.size == FileBytes(sh) && IsFile(r.file, sh)
  {
    if sh.recordSize == 0 || sh.capacity == 0 then Opened(-2, f)
    else if !io.opens then Opened(-3, f)
    else if !io.stats then Opened(-4, f)
    else if MadeAnew(f, sh, readOnly) then
      if f.size == 0 then if io.sizes then Made(Sized(sh), sh, io) else Opened(-5, f) else Made(f, sh, io)
    else if f.size != FileBytes(sh) then Opened(-6, f)
    else if !io.maps then Opened(-7, f)
    else Opened(Refusal(f.header, sh), f)
  }

  method WriteHeader(f: File, sh: Shape, io: Io) returns (rc: int, g: File)
    requires |f.header| == HEADER_SIZE && io.written <= HEADER_SIZE
    ensures g == Made(f, sh, io.(maps := true)).file && rc == Made(f, sh, io.(maps := true)).rc
  {
    g := HeaderTo(f, sh, io.written);
    if io.written != HEADER_SIZE {
      if io.undone {
        g := EMPTY_FILE;
      }
      return -14, g;
    }
    rc := 0;
  }

  /** The checks of a header that was there before. */
  method CheckHeader(h: Bytes, sh: Shape) returns (rc: int)
    requires |h| == HEADER_SIZE
    ensures rc == Refusal(h, sh)
  {
    if h[..8] != MAGIC {
      return -8;
    }
    if LeGet(h[8..12]) != VERSION {
      return -9;
    }
    if h[12] != sh.tier {
      return -10;
    }
    if LeGet(h[16..20]) != sh.recordSize {
      return -11;
    }
    if LeGet(h[20..28]) != sh.capacity {
      return -12;
    }
    return 0;
  }

  /** header_is_blank. */
  method HeaderIsBlank(h: Bytes) returns (b: bool)
    ensures b == Blank(h)
  {
    var i := 0;
    while i < |h|
      invariant 0 <= i <= |h| && forall j :: 0 <= j < i ==> h[j] == 0
    {
      if h[i] != 0 {
        return false;
      }
      i := i + 1;
    }
    return true;
  }

  /** open_impl: the file as it is afterwards and, opened, the ring on it. */
  method OpenImpl(file: File, sh: Shape, readOnly: bool, io: Io) returns (rc: int, after: File, ring: RingFile?)
    requires IsFile(file, sh) && io.written <= HEADER_SIZE
    ensures Opened(rc, after) == Open(file, sh, readOnly, io)
    ensures rc == 0 <==> ring != null
    ensures ring != null ==> fresh(ring) && var i := IndexOf(after.header);
      ring.State() == Ring(sh.tier, after.slots, i, i, i, Idle)
  {
    after, ring := file, null;
    if sh.recordSize == 0 || sh.capacity == 0 {
      return -2, after, ring;
    }
    if !io.opens {
      return -3, after, ring;
    }
    if !io.stats {
      return -4, after, ring;
    }
    var anew := file.size == 0;
    if anew && readOnly {
      return -6, after, ring;
    }
    if anew {
      if !io.sizes {
        return -5, after, ring;
      }
      after := Sized(sh);
    } else if file.size != FileBytes(sh) {
      return -6, after, ring;
    } else if !readOnly {
      anew := HeaderIsBlank(file.header);
    }
    if anew {
      rc, after := WriteHeader(after, sh, io);
      if rc != 0 {
        return rc, after, ring;
      }
    }
    if !io.maps {
      return -7, after, ring;
    }
    rc := 0;
    if !anew {
      rc := CheckHeader(after.header, sh);
    }
    if rc == 0 {
      ring := new RingFile.Open(sh.tier, after.slots, IndexOf(after.header));
    }
  }

  // ----- What the header says -----

  lemma HeaderParts(sh: Shape, i: nat)
    ensures var h := Header(sh, i);
      && h[..8] == MAGIC && h[8..12] == LePut(VERSION, 4) && h[12] == sh.tier && h[16..20] == LePut(sh.recordSize, 4)
      && h[20..28] == LePut(sh.capacity, 8) && h[28..36] == LePut(i, 8)
      && h[13] == h[14] == h[15] == 0 && Blank(h[36..])
  {
  }

  /** A header says its ring's shape and index. */
  predicate Says(h: Bytes, sh: Shape, i: nat)
    requires |h| == HEADER_SIZE
  {
    && h[..8] == MAGIC && LeGet(h[8..12]) == VERSION && h[12] == sh.tier && LeGet(h[16..20]) == sh.recordSize
    && LeGet(h[20..28]) == sh.capacity && IndexOf(h) == i
  }

  lemma HeaderSays(sh: Shape, i: nat)
    requires Fits(sh) && i < Power(8)
    ensures Says(Header(sh, i), sh, i)
  {
    HeaderParts(sh, i);
    assert Power(4) > VERSION;
    LeRoundTrip(VERSION, 4);
    LeRoundTrip(sh.recordSize, 4);
    LeRoundTrip(sh.capacity, 8);
    LeRoundTrip(i, 8);
  }

  lemma AcceptedFor(h: Bytes, sh: Shape, i: nat, other: Shape)
    requires |h| == HEADER_SIZE && Says(h, sh, i)
    ensures Refusal(h, other) == 0 <==> other == sh
    ensures other.tier != sh.tier ==> Refusal(h, other) == -10
    ensures other.tier == sh.tier && other.recordSize != sh.recordSize ==> Refusal(h, other) == -11
    ensures other.tier == sh.tier && other.recordSize == sh.recordSize && other.capacity != sh.capacity ==> Refusal(h, other) == -12
  {
  }

  /** Bytes that do not begin as a ring, and a ring of another version, are refused as such. */
  lemma ForeignRefused(h: Bytes, sh: Shape)
    requires |h| == HEADER_SIZE
    ensures h[..8] != [0x42, 0x44, 0x59, 0x4B, 0x52, 0x42, 0, 1] <==> Refusal(h, sh) == -8
    ensures Refusal(h, sh) != -8 ==> (LeGet(h[8..12]) != 1 <==> Refusal(h, sh) == -9)
  {
  }

  /** The header of a ring is accepted for its own shape and no other, and gives its index back; what differs first is named. */
  lemma HeaderAccepted(sh: Shape, i: nat, other: Shape)
    requires Fits(sh) && i < Power(8)
    ensures Refusal(Header(sh, i), other) == 0 <==> other == sh
    ensures other.tier != sh.tier ==> Refusal(Header(sh, i), other) == -10
    ensures other.tier == sh.tier && other.recordSize != sh.recordSize ==> Refusal(Header(sh, i), other) == -11
    ensures other.tier == sh.tier && other.recordSize == sh.recordSize && other.capacity != sh.capacity ==>
      Refusal(Header(sh, i), other) == -12
    ensures IndexOf(Header(sh, i)) == i
  {
    HeaderSays(sh, i);
    AcceptedFor(Header(sh, i), sh, i, other);
  }

  lemma {:induction false} SameNumber(a: Bytes, b: Bytes)
    requires |a| == |b| && AreBytes(a) && AreBytes(b) && LeGet(a) == LeGet(b)
    ensures a == b
  {
    if a != [] {
      assert a == [a[0]] + a[1..] && b == [b[0]] + b[1..];
      SameNumber(a[1..], b[1..]);
    }
  }

  // ----- What opening promises -----

  /** An open that is refused for what the file is, or fails before it writes, leaves it alone. */
  lemma RefusedUntouched(f: File, sh: Shape, readOnly: bool, io: Io)
    requires IsFile(f, sh) && io.written <= HEADER_SIZE
    ensures var r := Open(f, sh, readOnly, io);
      r.file != f ==> MadeAnew(f, sh, readOnly) && (r.rc == 0 || r.rc == -7 || r.rc == -14)
  {
  }

  lemma HeaderWhole(f: File, sh: Shape)
    requires |f.header| == HEADER_SIZE
    ensures HeaderTo(f, sh, HEADER_SIZE).header == Header(sh, 0)
  {
  }

  lemma NotBlank(sh: Shape, i: nat)
    ensures !Blank(Header(sh, i))
  {
    HeaderParts(sh, i);
    assert Header(sh, i)[0] == Header(sh, i)[..8][0];
  }

  /** A file of a ring's size with a header that is accepted opens as it is. */
  lemma OpensAsIs(g: File, sh: Shape, later: bool)
    requires sh.recordSize > 0 && sh.capacity > 0 && g.size == FileBytes(sh) && IsFile(g, sh)
    requires !Blank(g.header) && Refusal(g.header, sh) == 0
    ensures Open(g, sh, later, GOOD) == Opened(0, g)
  {
  }

  lemma MadeOpens(f: File, sh: Shape, later: bool)
    requires Fits(sh) && sh.recordSize > 0 && sh.capacity > 0 && f.size == FileBytes(sh) && |f.header| == HEADER_SIZE && IsFile(f, sh)
    ensures var g := HeaderTo(f, sh, HEADER_SIZE); g.size == FileBytes(sh) && IsFile(g, sh) && Open(g, sh, later, GOOD) == Opened(0, g)
  {
    var g := HeaderTo(f, sh, HEADER_SIZE);
    HeaderWhole(f, sh);
    HeaderAccepted(sh, 0, sh);
    NotBlank(sh, 0);
    OpensAsIs(g, sh, later);
  }

  /** A ring that was opened opens again, to read or to write, as the same ring and as it is. */
  lemma OpensAgain(f: File, sh: Shape, readOnly: bool, io: Io, later: bool)
    requires IsFile(f, sh) && Fits(sh) && io.written <= HEADER_SIZE
    requires Open(f, sh, readOnly, io).rc == 0
    ensures var r := Open(f, sh, readOnly, io); Open(r.file, sh, later, GOOD) == r
  {
    if MadeAnew(f, sh, readOnly) {
      MadeOpens(if f.size == 0 then Sized(sh) else f, sh, later);
    } else {
      MagicNotBlank(f.header);
      OpensAsIs(f, sh, later);
    }
  }

  lemma MagicNotBlank(h: Bytes)
    requires |h| == HEADER_SIZE && h[..8] == MAGIC
    ensures !Blank(h)
  {
    assert h[0] == h[..8][0];
  }

  /** A new ring is one the runs of RingRuns start from. */
  lemma NewIsNew(sh: Shape)
    requires Fits(sh) && sh.recordSize > 0 && sh.capacity > 0
    ensures var o := Open(EMPTY_FILE, sh, false, GOOD); o.rc == 0 && RingRuns.Sound(OnFile(o.file, sh))
  {
    HeaderWhole(Sized(sh), sh);
    HeaderAccepted(sh, 0, sh);
    RingRuns.NewRingIsSound(OnFile(HeaderTo(Sized(sh), sh, HEADER_SIZE), sh));
  }

  /** The ring opened on a file, with nothing in its log. */
  ghost function OnFile(f: File, sh: Shape): RingRuns.System
    requires |f.header| == HEADER_SIZE
  {
    var i := IndexOf(f.header);
    RingRuns.System(Ring(sh.tier, f.slots, i, i, i, Idle), [], RingRuns.Resting)
  }

  // ----- A header write that fails -----

  /** What a short write of n bytes leaves of a blank header, if the file cannot be emptied again. */
  function Short(sh: Shape, n: nat): (h: Bytes)
    requires n <= HEADER_SIZE
    ensures |h| == HEADER_SIZE
  {
    Header(sh, 0)[..n] + NoBytes(HEADER_SIZE)[n..]
  }

  /** All of the header that is not zero lies in its first n bytes. */
  predicate AllWritten(sh: Shape, n: nat)
    requires n <= HEADER_SIZE
  {
    Blank(Header(sh, 0)[n..])
  }

  lemma ShortAt(sh: Shape, n: nat, i: nat)
    requires n <= HEADER_SIZE && i < HEADER_SIZE
    ensures Short(sh, n)[i] == if i < n then Header(sh, 0)[i] else 0
  {
  }

  lemma ShortIsHeader(sh: Shape, n: nat)
    requires n <= HEADER_SIZE
    ensures AllWritten(sh, n) <==> Short(sh, n) == Header(sh, 0)
  {
    var h := Header(sh, 0);
    if AllWritten(sh, n) {
      forall i | 0 <= i < HEADER_SIZE
        ensures Short(sh, n)[i] == h[i]
      {
        ShortAt(sh, n, i);
        assert i >= n ==> h[n..][i - n] == h[i];
      }
    } else {
      var i :| 0 <= i < |h[n..]| && h[n..][i] != 0;
      ShortAt(sh, n, n + i);
    }
  }

  lemma HeaderBytes(sh: Shape, i: nat)
    requires sh.tier < BYTE
    ensures AreBytes(Header(sh, i))
  {
  }

  /** Headers accepted for one shape differ at most past what is checked. */
  lemma SameHeader(h: Bytes, s: Bytes, sh: Shape)
    requires |h| == |s| == HEADER_SIZE && AreBytes(h) && AreBytes(s) && Refusal(h, sh) == 0 && Refusal(s, sh) == 0
    requires s[13..16] == h[13..16] && s[28..] == h[28..]
    ensures s == h
  {
    SameNumber(s[8..12], h[8..12]);
    SameNumber(s[16..20], h[16..20]);
    SameNumber(s[20..28], h[20..28]);
    SevenParts(s);
    SevenParts(h);
  }

  lemma SevenParts(h: Bytes)
    requires |h| == HEADER_SIZE
    ensures h == h[..8] + h[8..12] + [h[12]] + h[13..16] + h[16..20] + h[20..28] + h[28..]
  {
  }

  lemma ShortBytes(sh: Shape, n: nat)
    requires sh.tier < BYTE && n <= HEADER_SIZE
    ensures AreBytes(Short(sh, n))
  {
    HeaderBytes(sh, 0);
    forall i | 0 <= i < HEADER_SIZE
      ensures Short(sh, n)[i] < BYTE
    {
      ShortAt(sh, n, i);
    }
  }

  /** A short header is accepted exactly when what is missing of it is zero. */
  lemma ShortAccepted(sh: Shape, n: nat)
    requires Fits(sh) && n <= HEADER_SIZE
    ensures Refusal(Short(sh, n), sh) == 0 <==> AllWritten(sh, n)
  {
    HeaderAccepted(sh, 0, sh);
    ShortIsHeader(sh, n);
    if Refusal(Short(sh, n), sh) == 0 {
      HeaderBytes(sh, 0);
      ShortBytes(sh, n);
      RestIsZero(sh, n);
      SameHeader(Header(sh, 0), Short(sh, n), sh);
    }
  }

  lemma {:induction false} NoNumber(n: nat)
    ensures Blank(LePut(0, n))
  {
    if n > 0 {
      NoNumber(n - 1);
    }
  }

  lemma RestIsZero(sh: Shape, n: nat)
    requires n <= HEADER_SIZE
    ensures var h, s := Header(sh, 0), Short(sh, n); s[13..16] == h[13..16] && s[28..] == h[28..]
  {
    var h, s := Header(sh, 0), Short(sh, n);
    HeaderParts(sh, 0);
    NoNumber(8);
    forall i | 13 <= i < 16 || 28 <= i < HEADER_SIZE
      ensures s[i] == h[i] == 0
    {
      ShortAt(sh, n, i);
      if 28 <= i < 36 {
        assert h[28..36][i - 28] == h[i];
      } else if i >= 36 {
        assert h[36..][i - 36] == h[i];
      }
    }
  }

  lemma ShortNotBlank(sh: Shape, n: nat)
    requires 0 < n <= HEADER_SIZE
    ensures !Blank(Short(sh, n))
  {
    ShortAt(sh, n, 0);
    HeaderParts(sh, 0);
    assert Header(sh, 0)[0] == Header(sh, 0)[..8][0];
  }

  /** What the next start makes of a file of the right size. */
  lemma NextStart(f: File, sh: Shape)
    requires sh.recordSize > 0 && sh.capacity > 0 && f.size == FileBytes(sh) && IsFile(f, sh)
    ensures Open(f, sh, false, GOOD).rc == if Blank(f.header) then 0 else Refusal(f.header, sh)
  {
  }

  lemma NextStartOnEmpty(sh: Shape)
    requires sh.recordSize > 0 && sh.capacity > 0
    ensures Open(EMPTY_FILE, sh, false, GOOD).rc == 0
  {
  }

  /**
   After a header write that failed, the next start opens the ring if and only if the file was
   emptied again, nothing of the header was written, or all of it that is not zero was. A
   shorter write that stays is taken for a damaged ring at every start.
   */
  lemma RetryIff(f: File, sh: Shape, io: Io)
    requires IsFile(f, sh) && Fits(sh) && io.written <= HEADER_SIZE && Open(f, sh, false, io).rc == -14
    ensures IsFile(Open(f, sh, false, io).file, sh)
    ensures Open(Open(f, sh, false, io).file, sh, false, GOOD).rc == 0
       <==> io.undone || io.written == 0 || AllWritten(sh, io.written)
  {
    var left := Open(f, sh, false, io).file;
    FailedIs(f, sh, io);
    if io.undone {
      NextStartOnEmpty(sh);
    } else {
      NextStart(left, sh);
      if io.written == 0 {
        assert forall i :: 0 <= i < HEADER_SIZE ==> left.header[i] == 0;
      } else {
        ShortNotBlank(sh, io.written);
        ShortAccepted(sh, io.written);
      }
    }
  }

  /** The file a failed header write leaves. */
  ghost predicate Left(left: File, sh: Shape, io: Io)
    requires io.written <= HEADER_SIZE
  {
    if io.undone then left == EMPTY_FILE
    else left.size == FileBytes(sh) && left.header == Short(sh, io.written) && |left.slots| == sh.capacity
  }

  lemma FailedIs(f: File, sh: Shape, io: Io)
    requires IsFile(f, sh) && io.written <= HEADER_SIZE && Open(f, sh, false, io).rc == -14
    ensures io.written < HEADER_SIZE && sh.recordSize > 0 && sh.capacity > 0 && Left(Open(f, sh, false, io).file, sh, io)
  {
    if MadeAnew(f, sh, false) {
      var g := if f.size == 0 then Sized(sh) else f;
      assert g.header == NoBytes(HEADER_SIZE);
    }
  }

  /** A write of the magic's first byte alone that stays: the ring opens no more. */
  lemma OneByteLeft(sh: Shape)
    requires Fits(sh) && sh.recordSize > 0 && sh.capacity > 0
    ensures var io := GOOD.(written := 1, undone := false);
      Open(EMPTY_FILE, sh, false, io).rc == -14 && Open(Open(EMPTY_FILE, sh, false, io).file, sh, false, GOOD).rc < 0
  {
    var io := GOOD.(written := 1, undone := false);
    FailedIs(EMPTY_FILE, sh, io);
    NextStart(Open(EMPTY_FILE, sh, false, io).file, sh);
    ShortNotBlank(sh, 1);
    ShortAt(sh, 1, 1);
    assert Short(sh, 1)[..8][1] == 0 && MAGIC[1] != 0;
  }
}
