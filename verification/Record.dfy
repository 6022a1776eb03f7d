/** The record framing: time, level, flags, checksum, payload. */
module Record {
  import opened Common
  import opened Crc
  import opened Samples
  import Arith

  const HEADER: nat := 14

  datatype Decoded<S> = Decoded(ts: nat, level: nat, folded: bool, sample: S) | Bad(code: int)

  // ----- Little-endian numbers -----

  function LePut(x: nat, n: nat): (b: Bytes)
    ensures |b| == n && AreBytes(b)
  {
    if n == 0 then [] else [x % BYTE] + LePut(x / BYTE, n - 1)
  }

  function LeGet(b: Bytes): nat {
    if b == [] then 0 else b[0] + BYTE * LeGet(b[1..])
  }

  function Power(n: nat): nat {
    if n == 0 then 1 else BYTE * Power(n - 1)
  }

  lemma {:induction false} LeRoundTrip(x: nat, n: nat)
    requires x < Power(n)
    ensures LeGet(LePut(x, n)) == x
  {
    if n > 0 {
      LeRoundTrip(x / BYTE, n - 1);
    }
  }

  lemma {:induction false} BitsJoin(a: Word, b: Word)
    requires |a| == 8 && |b| % 8 == 0
    ensures Value(a) < BYTE
    ensures AllBits([Value(a)] + Octets(b)) == a + AllBits(Octets(b))
  {
    PowValues();
    BitsOfValue(a);
    assert ([Value(a)] + Octets(b))[1..] == Octets(b);
  }

  /** The bytes of a list of bits. */
  function Octets(w: Word): (b: Bytes)
    requires |w| % 8 == 0
    ensures |b| == |w| / 8
  {
    if w == [] then [] else [Value(w[..8])] + Octets(w[8..])
  }

  lemma {:induction false} OctetsRoundTrip(w: Word)
    requires |w| % 8 == 0
    ensures AreBytes(Octets(w)) && AllBits(Octets(w)) == w
  {
    if w != [] {
      OctetsRoundTrip(w[8..]);
      BitsJoin(w[..8], w[8..]);
      assert w == w[..8] + w[8..];
    }
  }

  // ----- The record -----

  function Head(ts: nat, level: nat, folded: bool): (h: Bytes)
    ensures |h| == 10
  {
    LePut(ts, 8) + [level, if folded then 1 else 0]
  }

  /** What the checksum covers: everything but its own four bytes. */
  function Covered(r: Bytes): Bytes
    requires |r| >= HEADER
  {
    r[..10] + r[HEADER..]
  }

  function ChecksumOf(g: Word, r: Bytes): (w: Word)
    requires |g| == 32 && |r| >= HEADER
    ensures |w| == 32
  {
    Checksum(g, Covered(r), Zeros(32))
  }

  /** The stored checksum is the one of the rest. */
  predicate Intact(g: Word, r: Bytes)
    requires |g| == 32
  {
    |r| > HEADER && AllBits(r[10..HEADER]) == ChecksumOf(g, r)
  }

  /** A record as record_encode writes it. */
  function Encoded(g: Word, ts: nat, level: nat, folded: bool, payload: Bytes): (r: Bytes)
    requires |g| == 32
    ensures |r| == HEADER + |payload|
  {
    var head := Head(ts, level, folded);
    head + Octets(Checksum(g, head + payload, Zeros(32))) + payload
  }

  /** record_decode, over any payload decoder. */
  function Decode<S>(g: Word, r: Bytes, dec: Bytes -> Option<S>): Decoded<S>
    requires |g| == 32
  {
    if |r| <= HEADER then Bad(-2)
    else if !Intact(g, r) then Bad(-3)
    else if dec(r[HEADER..]).None? then Bad(-4)
    else if r[8] < 1 || r[8] > MAX_LEVEL_ID then Bad(-5)
    else Decoded(LeGet(r[..8]), r[8], r[9] % 2 == 1, dec(r[HEADER..]).value)
  }

  /** record_decode: the checksum taken in two runs around its own bytes. */
  method RecordDecode<S>(g: Word, table: seq<Word>, r: Bytes, dec: Bytes -> Option<S>) returns (d: Decoded<S>)
    requires |g| == 32 && |table| == BYTE && forall i :: 0 <= i < BYTE ==> table[i] == Entry(g, i)
    ensures d == Decode(g, r, dec)
  {
    if |r| <= HEADER {
      return Bad(-2);
    }
    var stored := AllBits(r[10..HEADER]);
    var c := Crc32c(g, table, r[..10], Zeros(32));
    c := Crc32c(g, table, r[HEADER..], c);
    ChecksumJoin(g, r[..10], r[HEADER..], Zeros(32));
    if c != stored {
      return Bad(-3);
    }
    var s := dec(r[HEADER..]);
    if s.None? {
      return Bad(-4);
    }
    var ts, lv := LeGet(r[..8]), r[8];
    if lv < 1 || lv > MAX_LEVEL_ID {
      return Bad(-5);
    }
    d := Decoded(ts, lv, r[9] % 2 == 1, s.value);
  }

  // ----- Round trip -----

  lemma EncodedParts(g: Word, ts: nat, level: nat, folded: bool, payload: Bytes)
    requires |g| == 32
    ensures var r := Encoded(g, ts, level, folded, payload);
      r[..10] == Head(ts, level, folded) && r[HEADER..] == payload && AllBits(r[10..HEADER]) == ChecksumOf(g, r)
  {
    var head := Head(ts, level, folded);
    var w := Checksum(g, head + payload, Zeros(32));
    var r := Encoded(g, ts, level, folded, payload);
    OctetsRoundTrip(w);
    assert r[..10] == head && r[10..HEADER] == Octets(w) && r[HEADER..] == payload;
    assert Covered(r) == head + payload;
  }

  /** What was encoded is read back, whenever its payload decodes and its level is one there is. */
  lemma RecordRoundTrip<S>(g: Word, ts: nat, level: nat, folded: bool, payload: Bytes, dec: Bytes -> Option<S>)
    requires |g| == 32 && ts < Power(8) && payload != []
    ensures Decode(g, Encoded(g, ts, level, folded, payload), dec) ==
      if dec(payload).None? then Bad(-4)
      else if level < 1 || level > MAX_LEVEL_ID then Bad(-5)
      else Decoded(ts, level, folded, dec(payload).value)
  {
    var r := Encoded(g, ts, level, folded, payload);
    var head := Head(ts, level, folded);
    EncodedParts(g, ts, level, folded, payload);
    LeRoundTrip(ts, 8);
    assert r[..8] == r[..10][..8] == LePut(ts, 8);
    assert r[8] == r[..10][8] && r[9] == r[..10][9];
  }

  // ----- The layout, byte by byte -----

  lemma {:induction false} PowerPositive(n: nat)
    ensures Power(n) > 0
  {
    if n > 0 {
      PowerPositive(n - 1);
    }
  }

  lemma {:induction false} LePutAt(x: nat, n: nat, i: nat)
    requires i < n
    ensures Power(i) > 0 && LePut(x, n)[i] == x / Power(i) % 256
    decreases i
  {
    PowerPositive(i);
    if i == 0 {
      assert Power(0) == 1;
    } else {
      PowerPositive(i - 1);
      LePutAt(x / 256, n - 1, i - 1);
      ByteFirst(x, Power(i - 1));
    }
  }

  lemma ByteFirst(x: nat, d: nat)
    requires d > 0
    ensures x / 256 / d == x / (256 * d)
  {
    var q, r := x / (256 * d), x % (256 * d);
    assert x == q * (256 * d) + r;
    assert q * (256 * d) == 256 * (q * d);
    Arith.QuotientUnique(x / 256, d, q, r / 256);
  }

  lemma {:induction false} ValueJoin(a: Word, b: Word)
    ensures Value(a + b) == Value(a) + Pow2(|a|) * Value(b)
    decreases |a|
  {
    if a == [] {
      assert a + b == b;
    } else {
      ValueJoin(a[1..], b);
      assert (a + b)[1..] == a[1..] + b;
      assert Pow2(|a|) * Value(b) == 2 * (Pow2(|a| - 1) * Value(b));
    }
  }

  /** A checksum's bytes, read as a little-endian number, are the checksum. */
  lemma {:induction false} OctetsRead(w: Word)
    requires |w| % 8 == 0
    ensures LeGet(Octets(w)) == Value(w)
    decreases |w|
  {
    if w != [] {
      OctetsRead(w[8..]);
      assert w == w[..8] + w[8..];
      ValueJoin(w[..8], w[8..]);
      PowValues();
      assert Octets(w)[1..] == Octets(w[8..]);
    }
  }

  /**
   A record in its bytes: eight of the stamp, the lowest first, the level, a flag, four of the
   checksum of all the others, then the payload.
   */
  lemma LayoutIs(g: Word, ts: nat, level: nat, folded: bool, payload: Bytes)
    requires |g| == 32
    ensures var r := Encoded(g, ts, level, folded, payload);
      && |r| == 14 + |payload| && (forall i: nat :: i < 8 ==> Power(i) > 0 && r[i] == ts / Power(i) % 256)
      && r[8] == level && r[9] == (if folded then 1 else 0) && r[14..] == payload
      && LeGet(r[10..14]) == Value(Checksum(g, r[..10] + r[14..], Zeros(32)))
  {
    var r, head := Encoded(g, ts, level, folded, payload), Head(ts, level, folded);
    var w := Checksum(g, head + payload, Zeros(32));
    assert r[..10] == head && r[10..14] == Octets(w) && r[14..] == payload;
    OctetsRead(w);
    forall i: nat | i < 8
      ensures Power(i) > 0 && r[i] == ts / Power(i) % 256
    {
      LePutAt(ts, 8, i);
      assert r[i] == r[..10][i] == LePut(ts, 8)[i];
    }
    assert r[8] == r[..10][8] && r[9] == r[..10][9];
  }

  // ----- Damage -----

  /** The records differ at most in the n bytes from a on. */
  predicate SameBut(r: Bytes, s: Bytes, a: nat, n: nat) {
    |r| == |s| && a + n <= |r| && forall i :: 0 <= i < |r| && !(a <= i < a + n) ==> r[i] == s[i]
  }

  lemma CoveredAt(r: Bytes, i: nat)
    requires |r| >= HEADER && i < |r| - 4
    ensures Covered(r)[i] == if i < 10 then r[i] else r[i + 4]
  {
  }

  /** The covered bytes have the same window in them, before the checksum or after it. */
  lemma CoveredWindow(r: Bytes, s: Bytes, a: nat, n: nat)
    requires SameBut(r, s, a, n) && |r| >= HEADER && (a + n <= 10 || a >= HEADER)
    ensures var k := if a < HEADER then a else a - 4;
      SameBut(Covered(r), Covered(s), k, n) && (Covered(r) == Covered(s) ==> r == s)
  {
    var k := if a < HEADER then a else a - 4;
    var x, y := Covered(r), Covered(s);
    forall i | 0 <= i < |x| && !(k <= i < k + n)
      ensures x[i] == y[i]
    {
      CoveredAt(r, i);
      CoveredAt(s, i);
    }
    if x == y {
      forall i | 0 <= i < |r|
        ensures r[i] == s[i]
      {
        if a <= i < a + n {
          CoveredAt(r, i - a + k);
          CoveredAt(s, i - a + k);
        }
      }
    }
  }

  lemma SplitWindow(x: Bytes, y: Bytes, k: nat, n: nat)
    requires SameBut(x, y, k, n)
    ensures x == x[..k] + x[k..k + n] + x[k + n..] && y == x[..k] + y[k..k + n] + x[k + n..]
  {
    assert y[..k] == x[..k] && y[k + n..] == x[k + n..];
  }

  lemma DamagedData(g: Word, x: Bytes, y: Bytes, k: nat, n: nat, seed: Word)
    requires |g| == 32 && g[31] && |seed| == 32 && AreBytes(x) && AreBytes(y) && SameBut(x, y, k, n) && n <= 4
    ensures Checksum(g, x, seed) == Checksum(g, y, seed) <==> x == y
  {
    SplitWindow(x, y, k, n);
    FourBytesDetected(g, x[..k], x[k..k + n], y[k..k + n], x[k + n..], seed);
  }

  /** A record damaged in up to four bytes in a row, of the checksum or of the rest, is known for it. */
  lemma DamageDetected(g: Word, r: Bytes, s: Bytes, a: nat, n: nat)
    requires |g| == 32 && g[31] && Intact(g, r) && AreBytes(r) && AreBytes(s) && SameBut(r, s, a, n) && n <= 4
    requires a + n <= 10 || a >= HEADER || (10 <= a && a + n <= HEADER)
    ensures Intact(g, s) <==> r == s
  {
    if Intact(g, s) {
      if a + n <= 10 || a >= HEADER {
        assert r[10..HEADER] == s[10..HEADER];
        CoveredWindow(r, s, a, n);
        DamagedData(g, Covered(r), Covered(s), if a < HEADER then a else a - 4, n, Zeros(32));
      } else {
        assert Covered(r) == Covered(s);
        BytesOfBits(r[10..HEADER], s[10..HEADER]);
        forall i | 0 <= i < |r|
          ensures r[i] == s[i]
        {
          if 10 <= i < HEADER {
            assert r[10..HEADER][i - 10] == s[10..HEADER][i - 10];
          }
        }
      }
    }
  }

  /** record_decode rejects, as damaged, every record that differs from an encoded one in one byte. */
  lemma OneByteRejected<S>(ts: nat, level: nat, folded: bool, payload: Bytes, i: nat, b: nat, dec: Bytes -> Option<S>)
    requires level < BYTE && AreBytes(payload) && payload != [] && i < HEADER + |payload| && b < BYTE
    ensures var r := Encoded(Poly(), ts, level, folded, payload);
      r[i] != b ==> Decode(Poly(), r[i := b], dec) == Bad(-3)
  {
    PolyLast();
    OneByteRejectedBy(Poly(), ts, level, folded, payload, i, b, dec);
  }

  lemma EncodedBytes(g: Word, ts: nat, level: nat, folded: bool, payload: Bytes)
    requires |g| == 32 && level < BYTE && AreBytes(payload)
    ensures AreBytes(Encoded(g, ts, level, folded, payload))
  {
    OctetsRoundTrip(Checksum(g, Head(ts, level, folded) + payload, Zeros(32)));
  }

  lemma OneByteRejectedBy<S>(
      g: Word, ts: nat, level: nat, folded: bool, payload: Bytes, i: nat, b: nat, dec: Bytes -> Option<S>)
    requires |g| == 32 && g[31]
    requires level < BYTE && AreBytes(payload) && payload != [] && i < HEADER + |payload| && b < BYTE
    ensures var r := Encoded(g, ts, level, folded, payload);
      r[i] != b ==> Decode(g, r[i := b], dec) == Bad(-3)
  {
    var r := Encoded(g, ts, level, folded, payload);
    EncodedParts(g, ts, level, folded, payload);
    EncodedBytes(g, ts, level, folded, payload);
    DamageDetected(g, r, r[i := b], i, 1);
  }

  // ----- record_encode -----

  /** Bytes written at a place in the buffer. */
  function Written(buf: Bytes, at: nat, data: Bytes): (r: Bytes)
    requires at + |data| <= |buf|
    ensures |r| == |buf|
  {
    buf[..at] + data + buf[at + |data|..]
  }

  method Put(buf: array<nat>, at: nat, data: Bytes)
    requires at + |data| <= buf.Length
    modifies buf
    ensures buf[..] == Written(old(buf[..]), at, data)
  {
    var k := 0;
    while k < |data|
      invariant 0 <= k <= |data|
      invariant forall i :: 0 <= i < k ==> buf[at + i] == data[i]
      invariant forall i :: 0 <= i < buf.Length && !(at <= i < at + k) ==> buf[i] == old(buf[i])
    {
      buf[at + k] := data[k];
      k := k + 1;
    }
    var was := old(buf[..]);
    forall i | 0 <= i < buf.Length
      ensures buf[i] == Written(was, at, data)[i]
    {
      if at <= i < at + |data| {
        assert buf[at + (i - at)] == data[i - at];
      }
    }
  }

  /**
   * record_encode: payload is what sample_encode writes, encodes whether it says it did,
   * and size the length it must have. A failure leaves behind what was written before it.
   */
  method RecordEncode(
      g: Word, table: seq<Word>, ts: nat, level: nat, folded: bool, payload: Bytes, encodes: bool, size: nat,
      buf: array<nat>, cap: nat) returns (err: int, outLen: nat)
    requires |g| == 32 && |table| == BYTE && forall i :: 0 <= i < BYTE ==> table[i] == Entry(g, i)
    requires cap <= buf.Length && (cap >= HEADER ==> |payload| <= cap - HEADER)
    modifies buf
    ensures err == if cap < HEADER + size then -2 else if !encodes then -3 else if |payload| != size then -4 else 0
    ensures err == 0 ==> outLen == HEADER + size
    ensures err == 0 ==> buf[..] == Written(old(buf[..]), 0, Encoded(g, ts, level, folded, payload))
    ensures err == -2 ==> buf[..] == old(buf[..])
    ensures err == -3 || err == -4 ==>
      buf[..] == Written(old(buf[..]), 0, Head(ts, level, folded) + [0, 0, 0, 0] + payload)
  {
    if cap < HEADER + size {
      return -2, 0;
    }
    var head := Head(ts, level, folded);
    Put(buf, 0, head);
    Put(buf, 10, [0, 0, 0, 0]);
    JoinWritten(old(buf[..]), head, [0, 0, 0, 0]);
    Put(buf, HEADER, payload);
    JoinWritten(old(buf[..]), head + [0, 0, 0, 0], payload);
    if !encodes {
      return -3, 0;
    }
    if |payload| != size {
      return -4, 0;
    }
    Seal(g, table, buf, old(buf[..]), head, payload);
    err, outLen := 0, HEADER + size;
  }

  /** The end of record_encode: the checksum of what stands in the buffer goes into its slot. */
  method Seal(g: Word, table: seq<Word>, buf: array<nat>, ghost was: Bytes, head: Bytes, payload: Bytes)
    requires |g| == 32 && |table| == BYTE && forall i :: 0 <= i < BYTE ==> table[i] == Entry(g, i)
    requires |head| == 10 && HEADER + |payload| <= |was| && buf[..] == Written(was, 0, head + [0, 0, 0, 0] + payload)
    modifies buf
    ensures buf[..] == Written(was, 0, head + Octets(Checksum(g, head + payload, Zeros(32))) + payload)
  {
    WrittenParts(was, head, [0, 0, 0, 0], payload);
    var a, b := buf[..10], buf[HEADER..HEADER + |payload|];
    assert a == buf[..][..10] && b == buf[..][HEADER..HEADER + |payload|];
    var c := Crc32c(g, table, a, Zeros(32));
    c := Crc32c(g, table, b, c);
    ChecksumJoin(g, head, payload, Zeros(32));
    Put(buf, 10, Octets(c));
  }

  lemma WrittenParts(buf: Bytes, head: Bytes, gap: Bytes, payload: Bytes)
    requires |head| == 10 && |gap| == 4 && HEADER + |payload| <= |buf|
    ensures var w := Written(buf, 0, head + gap + payload); w[..10] == head && w[HEADER..HEADER + |payload|] == payload
  {
  }

  lemma JoinWritten(buf: Bytes, a: Bytes, b: Bytes)
    requires |a| + |b| <= |buf|
    ensures Written(Written(buf, 0, a), |a|, b) == Written(buf, 0, a + b)
  {
  }
}
