/** The checksum's polynomial as published, and the order its bits are taken in. */
module CrcCheck {
  import opened Crc
  import Arith

  lemma {:induction false} Pow2Positive(i: nat)
    ensures Pow2(i) > 0
  {
    if i > 0 {
      Pow2Positive(i - 1);
    }
  }

  /** Bit i of a number is the i-th of the list. */
  lemma {:induction false} BitAt(x: nat, n: nat, i: nat)
    requires i < n
    ensures Pow2(i) > 0 && Bits(x, n)[i] == (x / Pow2(i) % 2 == 1)
    decreases i
  {
    Pow2Positive(i);
    if i == 0 {
      assert Pow2(0) == 1;
    } else {
      BitAt(x / 2, n - 1, i - 1);
      Pow2Positive(i - 1);
      HalfFirst(x, Pow2(i - 1));
    }
  }

  lemma HalfFirst(x: nat, d: nat)
    requires d > 0
    ensures x / 2 / d == x / (2 * d)
  {
    var q, r := x / (2 * d), x % (2 * d);
    assert x == q * (2 * d) + r;
    assert q * (2 * d) == 2 * (q * d);
    Arith.QuotientUnique(x / 2, d, q, r / 2);
  }

  /** The message's bytes are sent in order, the lowest bit of each first. */
  lemma {:induction false} SentInOrder(data: Bytes, k: nat, i: nat)
    requires k < |data| && i < 8
    ensures 8 * k + i < |AllBits(data)| && Pow2(i) > 0
    ensures AllBits(data)[8 * k + i] == (data[k] / Pow2(i) % 2 == 1)
    decreases k
  {
    BitAt(data[k], 8, i);
    if k > 0 {
      SentInOrder(data[1..], k - 1, i);
      assert AllBits(data)[8 * k + i] == AllBits(data[1..])[8 * (k - 1) + i];
    }
  }

  // ----- The polynomial -----

  /** The powers of x in the polynomial of CRC-32C besides the 32nd (section 12.1 of RFC 3720). */
  const POWERS: set<int> := {28, 27, 26, 25, 23, 22, 20, 19, 18, 14, 13, 11, 10, 9, 8, 6, 0}

  /** Bit i of the number the code has, as arithmetic. */
  predicate HasBit(x: nat, i: nat) {
    Pow2(i) > 0 && x / Pow2(i) % 2 == 1
  }

  lemma Powers0()
    ensures Pow2(0) == 0x1 && Pow2(1) == 0x2 && Pow2(2) == 0x4 && Pow2(3) == 0x8 && Pow2(4) == 0x10 && Pow2(5) == 0x20 && Pow2(6) == 0x40 && Pow2(7) == 0x80
  {
  }

  lemma Bits0(x: nat, i: nat)
    requires x == 0x82F63B78 && 0 <= i < 8
    ensures HasBit(x, i) <==> 31 - i in POWERS
  {
    Powers0();
  }

  lemma Powers1()
    ensures Pow2(8) == 0x100 && Pow2(9) == 0x200 && Pow2(10) == 0x400 && Pow2(11) == 0x800 && Pow2(12) == 0x1000 && Pow2(13) == 0x2000 && Pow2(14) == 0x4000 && Pow2(15) == 0x8000
  {
    Powers0();
    assert Pow2(8) == 2 * Pow2(7);
    assert Pow2(9) == 2 * Pow2(8);
    assert Pow2(10) == 2 * Pow2(9);
    assert Pow2(11) == 2 * Pow2(10);
    assert Pow2(12) == 2 * Pow2(11);
    assert Pow2(13) == 2 * Pow2(12);
    assert Pow2(14) == 2 * Pow2(13);
    assert Pow2(15) == 2 * Pow2(14);
  }

  lemma Bits1(x: nat, i: nat)
    requires x == 0x82F63B78 && 8 <= i < 16
    ensures HasBit(x, i) <==> 31 - i in POWERS
  {
    Powers1();
  }

  lemma Powers2()
    ensures Pow2(16) == 0x10000 && Pow2(17) == 0x20000 && Pow2(18) == 0x40000 && Pow2(19) == 0x80000 && Pow2(20) == 0x100000 && Pow2(21) == 0x200000 && Pow2(22) == 0x400000 && Pow2(23) == 0x800000
  {
    Powers1();
    assert Pow2(16) == 2 * Pow2(15);
    assert Pow2(17) == 2 * Pow2(16);
    assert Pow2(18) == 2 * Pow2(17);
    assert Pow2(19) == 2 * Pow2(18);
    assert Pow2(20) == 2 * Pow2(19);
    assert Pow2(21) == 2 * Pow2(20);
    assert Pow2(22) == 2 * Pow2(21);
    assert Pow2(23) == 2 * Pow2(22);
  }

  lemma Bits2(x: nat, i: nat)
    requires x == 0x82F63B78 && 16 <= i < 24
    ensures HasBit(x, i) <==> 31 - i in POWERS
  {
    Powers2();
  }

  lemma Powers3()
    ensures Pow2(24) == 0x1000000 && Pow2(25) == 0x2000000 && Pow2(26) == 0x4000000 && Pow2(27) == 0x8000000 && Pow2(28) == 0x10000000 && Pow2(29) == 0x20000000 && Pow2(30) == 0x40000000 && Pow2(31) == 0x80000000
  {
    Powers2();
    assert Pow2(24) == 2 * Pow2(23);
    assert Pow2(25) == 2 * Pow2(24);
    assert Pow2(26) == 2 * Pow2(25);
    assert Pow2(27) == 2 * Pow2(26);
    assert Pow2(28) == 2 * Pow2(27);
    assert Pow2(29) == 2 * Pow2(28);
    assert Pow2(30) == 2 * Pow2(29);
    assert Pow2(31) == 2 * Pow2(30);
  }

  lemma Bits3(x: nat, i: nat)
    requires x == 0x82F63B78 && 24 <= i < 28
    ensures HasBit(x, i) <==> 31 - i in POWERS
  {
    Powers3();
  }

  lemma Bits4(x: nat, i: nat)
    requires x == 0x82F63B78 && 28 <= i < 32
    ensures HasBit(x, i) <==> 31 - i in POWERS
  {
    Powers3();
  }

  /** The bits the code divides by are the polynomial's, the highest power first. */
  lemma PolyTerms(i: nat)
    requires i < 32
    ensures Poly()[i] <==> 31 - i in POWERS
  {
    BitAt(POLY, 32, i);
    if i < 8 {
      Bits0(POLY, i);
    } else if i < 16 {
      Bits1(POLY, i);
    } else if i < 24 {
      Bits2(POLY, i);
    } else if i < 28 {
      Bits3(POLY, i);
    } else {
      Bits4(POLY, i);
    }
  }
}
