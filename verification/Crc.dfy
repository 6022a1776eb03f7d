/**
 * CRC-32C: the table-driven loop, the bit-by-bit definition and the polynomial
 * division behind it. A 32-bit word is the list of its bits, lowest first, which
 * is the order a reflected CRC sends and divides them in.
 */
module Crc {

  type Word = seq<bool>

  function Zeros(n: nat): (w: Word)
    ensures |w| == n && forall i :: 0 <= i < n ==> !w[i]
  {
    seq(n, i => false)
  }

  function Xor(a: Word, b: Word): (w: Word)
    requires |a| == |b|
    ensures |w| == |a| && forall i :: 0 <= i < |w| ==> w[i] == (a[i] != b[i])
  {
    seq(|a|, i requires 0 <= i < |a| => a[i] != b[i])
  }

  function Not(a: Word): (w: Word)
    ensures |w| == |a| && forall i :: 0 <= i < |w| ==> w[i] == !a[i]
  {
    seq(|a|, i requires 0 <= i < |a| => !a[i])
  }

  /** The n low bits of a number. */
  function Bits(x: nat, n: nat): (w: Word)
    ensures |w| == n
  {
    if n == 0 then [] else [x % 2 == 1] + Bits(x / 2, n - 1)
  }

  function Value(w: Word): nat {
    if w == [] then 0 else 2 * Value(w[1..]) + if w[0] then 1 else 0
  }

  function Pow2(n: nat): nat {
    if n == 0 then 1 else 2 * Pow2(n - 1)
  }

  lemma {:induction false} BitsOfValue(w: Word)
    ensures Value(w) < Pow2(|w|) && Bits(Value(w), |w|) == w
  {
    if w != [] {
      BitsOfValue(w[1..]);
      assert Value(w) / 2 == Value(w[1..]);
    }
  }

  lemma {:induction false} ValueOfBits(x: nat, n: nat)
    requires x < Pow2(n)
    ensures Value(Bits(x, n)) == x
  {
    if n > 0 {
      ValueOfBits(x / 2, n - 1);
    }
  }

  // ----- The register -----

  const POLY: nat := 0x82F63B78   // 0x1EDC6F41 reflected

  /**
   * The polynomial of CRC-32C without its leading term, highest power first. What
   * follows holds of every polynomial g of degree 32, where g[31] is its constant term.
   */
  function Poly(): (p: Word)
    ensures |p| == 32
  {
    Bits(POLY, 32)
  }

  lemma {:induction false} TopBit(x: nat, n: nat)
    requires Pow2(n) <= x < Pow2(n + 1)
    ensures Bits(x, n + 1)[n]
  {
    if n > 0 {
      TopBit(x / 2, n - 1);
    }
  }

  lemma PowValues()
    ensures Pow2(8) == 0x100 && Pow2(31) == 0x8000_0000 && Pow2(32) == 0x1_0000_0000
  {
    assert Pow2(4) == 16;
    assert Pow2(8) == 256;
    assert Pow2(12) == 0x1000;
    assert Pow2(16) == 0x1_0000;
    assert Pow2(20) == 0x10_0000;
    assert Pow2(24) == 0x100_0000;
    assert Pow2(28) == 0x1000_0000;
  }

  /** The constant term is there. */
  lemma PolyLast()
    ensures Poly()[31]
  {
    PowValues();
    TopBit(POLY, 31);
  }

  function ShiftRight(w: Word, n: nat): (r: Word)
    requires n <= |w|
    ensures |r| == |w|
  {
    w[n..] + Zeros(n)
  }

  /** One shift of the register: the mask 0 - (c & 1) keeps the polynomial for an odd register only. */
  function BitStep(g: Word, c: Word): (r: Word)
    requires |g| == 32
    requires |c| == 32
    ensures |r| == 32
  {
    if c[0] then Xor(ShiftRight(c, 1), g) else ShiftRight(c, 1)
  }

  lemma BitLinear(g: Word, x: Word, y: Word)
    requires |g| == 32
    requires |x| == |y| == 32
    ensures BitStep(g, Xor(x, y)) == Xor(BitStep(g, x), BitStep(g, y))
  {
  }

  /** Shifts lose nothing: the last bit tells whether the polynomial was added. */
  lemma BitInjective(g: Word, x: Word, y: Word)
    requires |g| == 32 && g[31]
    requires |x| == |y| == 32 && BitStep(g, x) == BitStep(g, y)
    ensures x == y
  {
    assert BitStep(g, x)[31] == x[0] && BitStep(g, y)[31] == y[0];
    forall i | 1 <= i < 32
      ensures x[i] == y[i]
    {
      assert BitStep(g, x)[i - 1] == BitStep(g, y)[i - 1];
    }
  }

  function Steps(g: Word, c: Word, n: nat): (r: Word)
    requires |g| == 32
    requires |c| == 32
    ensures |r| == 32
    decreases n, |c|
  {
    if n == 0 then c else Steps(g, BitStep(g, c), n - 1)
  }

  lemma {:induction false} StepsLinear(g: Word, x: Word, y: Word, n: nat)
    requires |g| == 32
    requires |x| == |y| == 32
    ensures Steps(g, Xor(x, y), n) == Xor(Steps(g, x, n), Steps(g, y, n))
    decreases n
  {
    if n > 0 {
      BitLinear(g, x, y);
      StepsLinear(g, BitStep(g, x), BitStep(g, y), n - 1);
    }
  }

  lemma {:induction false} StepsInjective(g: Word, x: Word, y: Word, n: nat)
    requires |g| == 32 && g[31]
    requires |x| == |y| == 32 && Steps(g, x, n) == Steps(g, y, n)
    ensures x == y
    decreases n
  {
    if n > 0 {
      StepsInjective(g, BitStep(g, x), BitStep(g, y), n - 1);
      BitInjective(g, x, y);
    }
  }

  // ----- Bit by bit (section 12.1 of RFC 3720) -----

  /** The register after one message bit. */
  function Feed(g: Word, c: Word, b: bool): (r: Word)
    requires |g| == 32
    requires |c| == 32
    ensures |r| == 32
  {
    BitStep(g, c[0 := c[0] != b])
  }

  function FeedAll(g: Word, c: Word, bits: seq<bool>): (r: Word)
    requires |g| == 32
    requires |c| == 32
    ensures |r| == 32
    decreases |bits|
  {
    if bits == [] then c else FeedAll(g, Feed(g, c, bits[0]), bits[1..])
  }

  lemma {:induction false} FeedJoin(g: Word, c: Word, a: seq<bool>, b: seq<bool>)
    requires |g| == 32
    requires |c| == 32
    ensures FeedAll(g, c, a + b) == FeedAll(g, FeedAll(g, c, a), b)
    decreases |a|
  {
    if a == [] {
      assert a + b == b;
    } else {
      assert (a + b)[1..] == a[1..] + b;
      FeedJoin(g, Feed(g, c, a[0]), a[1..], b);
    }
  }

  lemma {:induction false} FeedInjective(g: Word, c: Word, d: Word, bits: seq<bool>)
    requires |g| == 32 && g[31]
    requires |c| == |d| == 32 && FeedAll(g, c, bits) == FeedAll(g, d, bits)
    ensures c == d
    decreases |bits|
  {
    if bits != [] {
      var b := bits[0];
      FeedInjective(g, Feed(g, c, b), Feed(g, d, b), bits[1..]);
      var x, y := c[0 := c[0] != b], d[0 := d[0] != b];
      BitInjective(g, x, y);
      assert c == x[0 := x[0] != b] && d == y[0 := y[0] != b];
    }
  }

  lemma PeelBit(g: Word, c: Word, b: bool, rest: Word)
    requires |g| == 32
    requires |c| == 32 && |rest| == 31
    ensures BitStep(g, Xor(c, [b] + rest)) == Xor(Feed(g, c, b), rest + [false])
  {
  }

  /** Bits sent one at a time may as well be added to the register at once. */
  lemma {:induction false} AtOnce(g: Word, c: Word, u: seq<bool>)
    requires |g| == 32
    requires |c| == 32 && |u| <= 32
    ensures Steps(g, Xor(c, u + Zeros(32 - |u|)), |u|) == FeedAll(g, c, u)
    decreases |u|
  {
    if u == [] {
      assert Xor(c, u + Zeros(32)) == c;
    } else {
      var rest := u[1..] + Zeros(32 - |u|);
      assert u + Zeros(32 - |u|) == [u[0]] + rest;
      assert u[1..] + Zeros(33 - |u|) == rest + [false];
      PeelBit(g, c, u[0], rest);
      AtOnce(g, Feed(g, c, u[0]), u[1..]);
    }
  }

  lemma XorCancel(c: Word, x: Word, y: Word)
    requires |c| == |x| == |y| && Xor(c, x) == Xor(c, y)
    ensures x == y
  {
    forall i | 0 <= i < |x|
      ensures x[i] == y[i]
    {
      assert Xor(c, x)[i] == Xor(c, y)[i];
    }
  }

  lemma SameRegister(g: Word, c: Word, u: seq<bool>, v: seq<bool>)
    requires |g| == 32 && g[31]
    requires |c| == 32 && |u| == |v| <= 32 && FeedAll(g, c, u) == FeedAll(g, c, v)
    ensures u == v
  {
    var x, y := u + Zeros(32 - |u|), v + Zeros(32 - |v|);
    AtOnce(g, c, u);
    AtOnce(g, c, v);
    StepsInjective(g, Xor(c, x), Xor(c, y), |u|);
    XorCancel(c, x, y);
    assert u == x[..|u|] && v == y[..|u|];
  }

  /** Two messages that differ within 32 bits in a row leave different registers. */
  lemma BurstDetected(g: Word, c: Word, before: seq<bool>, u: seq<bool>, v: seq<bool>, after: seq<bool>)
    requires |g| == 32 && g[31]
    requires |c| == 32 && |u| == |v| <= 32
    ensures FeedAll(g, c, before + u + after) == FeedAll(g, c, before + v + after) <==> u == v
  {
    if FeedAll(g, c, before + u + after) == FeedAll(g, c, before + v + after) {
      var d := FeedAll(g, c, before);
      FeedJoin(g, c, before + u, after);
      FeedJoin(g, c, before + v, after);
      FeedJoin(g, c, before, u);
      FeedJoin(g, c, before, v);
      FeedInjective(g, FeedAll(g, d, u), FeedAll(g, d, v), after);
      SameRegister(g, d, u, v);
    }
  }

  // ----- Polynomial division -----

  /** The polynomial of degree 32 that divides, highest power first. */
  function Divisor(g: Word): (d: Word)
    requires |g| == 32
    ensures |d| == 33
  {
    [true] + g
  }

  /** One row of long division: the divisor taken off a leading one, the leading place dropped. */
  function Row(g: Word, w: Word): (r: Word)
    requires |g| == 32
    requires |w| > 32
    ensures |r| == |w| - 1
  {
    (if w[0] then Xor(w, Divisor(g) + Zeros(|w| - 33)) else w)[1..]
  }

  function Remainder(g: Word, w: Word): (r: Word)
    requires |g| == 32
    requires |w| >= 32
    ensures |r| == 32
    decreases |w|
  {
    if |w| == 32 then w else Remainder(g, Row(g, w))
  }

  lemma RowIsFeed(g: Word, c: Word, m: seq<bool>)
    requires |g| == 32
    requires |c| == 32 && m != []
    ensures Row(g, Xor(m + Zeros(32), c + Zeros(|m|))) ==
      Xor(m[1..] + Zeros(32), Feed(g, c, m[0]) + Zeros(|m| - 1))
  {
  }

  /** The register is the remainder of the message, raised by 32 places and begun with c. */
  lemma {:induction false} RegisterIsRemainder(g: Word, c: Word, m: seq<bool>)
    requires |g| == 32
    requires |c| == 32
    ensures FeedAll(g, c, m) == Remainder(g, Xor(m + Zeros(32), c + Zeros(|m|)))
    decreases |m|
  {
    if m == [] {
      assert Xor(m + Zeros(32), c + Zeros(0)) == c;
    } else {
      RowIsFeed(g, c, m);
      RegisterIsRemainder(g, Feed(g, c, m[0]), m[1..]);
    }
  }

  // ----- The table -----

  const BYTE: nat := 256

  /** The table entry of a byte: eight shifts of it. */
  function Entry(g: Word, i: nat): (w: Word)
    requires |g| == 32
    ensures |w| == 32
  {
    Steps(g, Bits(i, 32), 8)
  }

  /** The inner loop of make_crc32c_table: n shifts. */
  method Shifted(g: Word, w: Word, n: nat) returns (c: Word)
    requires |g| == 32 && |w| == 32
    ensures |c| == 32 && c == Steps(g, w, n)
  {
    c := w;
    var k := 0;
    while k < n
      invariant 0 <= k <= n && |c| == 32 && Steps(g, c, n - k) == Steps(g, w, n)
    {
      c := BitStep(g, c);
      k := k + 1;
    }
  }

  /** make_crc32c_table. */
  method MakeTable(g: Word) returns (t: seq<Word>)
    requires |g| == 32
    ensures |t| == BYTE && forall i :: 0 <= i < BYTE ==> t[i] == Entry(g, i)
  {
    t := [];
    var i := 0;
    while i < BYTE
      invariant |t| == i <= BYTE
      invariant forall j :: 0 <= j < i ==> t[j] == Entry(g, j)
    {
      var c := Shifted(g, Bits(i, 32), 8);
      t := t + [c];
      i := i + 1;
    }
  }

  lemma {:induction false} SmallBits(x: nat, m: nat, n: nat)
    requires x < Pow2(m) && m <= n
    ensures Bits(x, n) == Bits(x, m) + Zeros(n - m)
    decreases n
  {
    if m > 0 {
      SmallBits(x / 2, m - 1, n - 1);
    } else if n > 0 {
      SmallBits(0, 0, n - 1);
    }
  }

  /** Zeros shifted out leave the rest as it is. */
  lemma {:induction false} ShiftedOut(g: Word, w: Word, n: nat)
    requires |g| == 32
    requires |w| == 32 && n <= 32 && forall i :: 0 <= i < n ==> !w[i]
    ensures Steps(g, w, n) == ShiftRight(w, n)
    decreases n
  {
    if n == 0 {
      assert ShiftRight(w, 0) == w;
    } else {
      ShiftedOut(g, BitStep(g, w), n - 1);
      assert ShiftRight(BitStep(g, w), n - 1) == ShiftRight(w, n);
    }
  }

  /** The loop's step: the table entry of the low byte for eight shifts of the whole register. */
  function TableStep(g: Word, c: Word, b: nat): (r: Word)
    requires |g| == 32
    requires |c| == 32
    ensures |r| == 32
  {
    Xor(ShiftRight(c, 8), Entry(g, Value(Xor(c[..8], Bits(b, 8)))))
  }

  lemma HighAndLow(x: Word, n: nat)
    requires n <= |x| == 32
    ensures x == Xor(Zeros(n) + x[n..], x[..n] + Zeros(32 - n))
    ensures ShiftRight(Zeros(n) + x[n..], n) == ShiftRight(x, n)
  {
  }

  lemma LowIsValue(x: Word, n: nat)
    requires |x| == n <= 32
    ensures Bits(Value(x), 32) == x + Zeros(32 - n)
  {
    BitsOfValue(x);
    SmallBits(Value(x), n, 32);
  }

  lemma SplitSteps(g: Word, x: Word, n: nat)
    requires |g| == 32 && n <= |x| == 32
    ensures Steps(g, x, n) == Xor(ShiftRight(x, n), Steps(g, Bits(Value(x[..n]), 32), n))
  {
    var low, high := x[..n] + Zeros(32 - n), Zeros(n) + x[n..];
    HighAndLow(x, n);
    LowIsValue(x[..n], n);
    StepsLinear(g, high, low, n);
    ShiftedOut(g, high, n);
  }

  lemma ByteSplit(g: Word, x: Word)
    requires |g| == 32
    requires |x| == 32
    ensures Steps(g, x, 8) == Xor(ShiftRight(x, 8), Entry(g, Value(x[..8])))
  {
    SplitSteps(g, x, 8);
  }

  /** It is what feeding the byte's bits one by one gives. */
  lemma TableStepIsFeed(g: Word, c: Word, b: nat)
    requires |g| == 32
    requires |c| == 32
    ensures TableStep(g, c, b) == FeedAll(g, c, Bits(b, 8))
  {
    var x := Xor(c, Bits(b, 8) + Zeros(24));
    AtOnce(g, c, Bits(b, 8));
    ByteSplit(g, x);
    assert x[..8] == Xor(c[..8], Bits(b, 8));
    assert ShiftRight(x, 8) == ShiftRight(c, 8);
  }

  // ----- crc32c -----

  type Bytes = seq<nat>

  predicate AreBytes(data: Bytes) {
    forall i :: 0 <= i < |data| ==> data[i] < BYTE
  }

  function AllBits(data: Bytes): (r: seq<bool>)
    ensures |r| == 8 * |data|
  {
    if data == [] then [] else Bits(data[0], 8) + AllBits(data[1..])
  }

  lemma {:induction false} AllBitsJoin(a: Bytes, b: Bytes)
    ensures AllBits(a + b) == AllBits(a) + AllBits(b)
  {
    if a == [] {
      assert a + b == b;
    } else {
      assert (a + b)[1..] == a[1..] + b;
      AllBitsJoin(a[1..], b);
    }
  }

  /** CRC-32C by its definition: the bits of the message in order, the register inverted before and after. */
  function Checksum(g: Word, data: Bytes, seed: Word): (r: Word)
    requires |g| == 32
    requires |seed| == 32
    ensures |r| == 32
  {
    Not(FeedAll(g, Not(seed), AllBits(data)))
  }

  /** crc32c: the table loop. */
  method Crc32c(g: Word, table: seq<Word>, data: Bytes, seed: Word) returns (r: Word)
    requires |g| == 32
    requires |table| == BYTE && forall i :: 0 <= i < BYTE ==> table[i] == Entry(g, i)
    requires |seed| == 32
    ensures r == Checksum(g, data, seed)
  {
    var c := Not(seed);
    var i := 0;
    while i < |data|
      invariant 0 <= i <= |data| && |c| == 32
      invariant c == FeedAll(g, Not(seed), AllBits(data[..i]))
    {
      var low := Xor(c[..8], Bits(data[i], 8));
      PowValues();
      BitsOfValue(low);
      TableStepIsFeed(g, c, data[i]);
      FeedByte(g, Not(seed), data, i);
      c := Xor(ShiftRight(c, 8), table[Value(low)]);
      i := i + 1;
    }
    assert data[..i] == data;
    r := Not(c);
  }

  lemma FeedByte(g: Word, c: Word, data: Bytes, i: nat)
    requires |g| == 32
    requires |c| == 32 && i < |data|
    ensures FeedAll(g, c, AllBits(data[..i + 1])) == FeedAll(g, FeedAll(g, c, AllBits(data[..i])), Bits(data[i], 8))
  {
    assert data[..i + 1] == data[..i] + [data[i]];
    AllBitsJoin(data[..i], [data[i]]);
    assert AllBits([data[i]]) == Bits(data[i], 8) + AllBits([]);
    assert AllBits([data[i]]) == Bits(data[i], 8);
    FeedJoin(g, c, AllBits(data[..i]), Bits(data[i], 8));
  }

  /** Checksums chain through the seed. */
  lemma ChecksumJoin(g: Word, a: Bytes, b: Bytes, seed: Word)
    requires |g| == 32
    requires |seed| == 32
    ensures Checksum(g, a + b, seed) == Checksum(g, b, Checksum(g, a, seed))
  {
    var c := FeedAll(g, Not(seed), AllBits(a));
    AllBitsJoin(a, b);
    FeedJoin(g, Not(seed), AllBits(a), AllBits(b));
    assert Not(Not(c)) == c;
  }

  /** With the seed 0: the remainder of the message after 32 inverted places, inverted. */
  lemma ChecksumIsDivision(g: Word, data: Bytes)
    requires |g| == 32
    ensures Checksum(g, data, Zeros(32)) ==
      Not(Remainder(g, Xor(AllBits(data) + Zeros(32), Not(Zeros(32)) + Zeros(8 * |data|))))
  {
    RegisterIsRemainder(g, Not(Zeros(32)), AllBits(data));
  }

  /** Data that differ within four bytes in a row have different checksums. */
  lemma FourBytesDetected(g: Word, before: Bytes, u: Bytes, v: Bytes, after: Bytes, seed: Word)
    requires |g| == 32 && g[31]
    requires |seed| == 32 && |u| == |v| <= 4 && AreBytes(u) && AreBytes(v)
    ensures Checksum(g, before + u + after, seed) == Checksum(g, before + v + after, seed) <==> u == v
  {
    AllBitsJoin(before + u, after);
    AllBitsJoin(before + v, after);
    AllBitsJoin(before, u);
    AllBitsJoin(before, v);
    BurstDetected(g, Not(seed), AllBits(before), AllBits(u), AllBits(v), AllBits(after));
    NotInjective(FeedAll(g, Not(seed), AllBits(before) + AllBits(u) + AllBits(after)),
                 FeedAll(g, Not(seed), AllBits(before) + AllBits(v) + AllBits(after)));
    BytesOfBits(u, v);
  }

  lemma NotInjective(x: Word, y: Word)
    ensures Not(x) == Not(y) <==> x == y
  {
    assert Not(Not(x)) == x && Not(Not(y)) == y;
  }

  lemma {:induction false} BytesOfBits(u: Bytes, v: Bytes)
    requires AreBytes(u) && AreBytes(v)
    ensures AllBits(u) == AllBits(v) <==> u == v
  {
    if AllBits(u) == AllBits(v) && u != [] {
      assert |v| == |u|;
      assert Bits(u[0], 8) == AllBits(u)[..8] && Bits(v[0], 8) == AllBits(v)[..8];
      PowValues();
      ValueOfBits(u[0], 8);
      ValueOfBits(v[0], 8);
      assert AllBits(u[1..]) == AllBits(u)[8..] && AllBits(v[1..]) == AllBits(v)[8..];
      BytesOfBits(u[1..], v[1..]);
      assert u == [u[0]] + u[1..] && v == [v[0]] + v[1..];
    }
  }
}
