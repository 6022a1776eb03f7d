/** Header values, the cuts between words and the lines of a body, said of the bytes themselves. */
module HeaderMeaning {
  import opened JsonText
  import opened HeaderText

  /** A control character of ASCII: below the blank, or DEL. */
  predicate Control(c: byte) {
    c <= 31 || c == 127
  }

  /** Every control character becomes a blank, nothing else changes, nothing is added or left out. */
  lemma ValueIs(s: Bytes)
    ensures |Value(s)| == |s|
    ensures forall i :: 0 <= i < |s| ==> (Control(s[i]) ==> Value(s)[i] == 32) && (!Control(s[i]) ==> Value(s)[i] == s[i])
  {
  }

  lemma {:induction false} EncodeAllSplit(cs: seq<int>, k: nat)
    requires AllScalar(cs) && k <= |cs|
    ensures EncodeAll(cs) == EncodeAll(cs[..k]) + EncodeAll(cs[k..])
  {
    if k > 0 {
      EncodeAllSplit(cs[1..], k - 1);
      assert cs[..k][1..] == cs[1..][..k - 1] && cs[1..][k - 1..] == cs[k..];
      Associate(Encode(cs[0]), EncodeAll(cs[1..][..k - 1]), EncodeAll(cs[k..]));
    } else {
      assert cs[0..] == cs && cs[..0] == [];
    }
  }

  /** A place between two characters is inside none. */
  lemma Boundary(cs: seq<int>, k: nat)
    requires AllScalar(cs) && 0 < k <= |cs|
    ensures var b, text := |EncodeAll(cs[..k])|, EncodeAll(cs); 1 <= b <= |text| && (b == |text| || !Inside(text[b]))
  {
    EncodeAllSplit(cs, k);
    var b, rest := |EncodeAll(cs[..k])|, EncodeAll(cs[k..]);
    assert cs[..k] != [] && |Encode(cs[..k][0])| >= 1;
    if k < |cs| {
      assert cs[k..] != [] && rest[0] == Encode(cs[k])[0];
      assert EncodeAll(cs)[b] == rest[0];
    }
  }

  /** A word carries as many whole characters as fit in 45 bytes. */
  lemma WordIsFull(cs: seq<int>, k: nat)
    requires AllScalar(cs) && 0 < k <= |cs| && |EncodeAll(cs[..k])| <= 45
    ensures EncodeAll(cs) != [] && |EncodeAll(cs[..k])| <= ChunkLen(EncodeAll(cs)) <= 45
  {
    Boundary(cs, k);
    var text := EncodeAll(cs);
    BackStops(text, if |text| < 45 then |text| else 45, |EncodeAll(cs[..k])|);
  }

  // ----- Lines -----

  /** The lines of a text, whatever ends them. */
  function Split(s: Bytes): (ls: seq<Bytes>)
    ensures ls != []
  {
    if s == [] then [[]]
    else if s[0] == 13 && |s| > 1 && s[1] == 10 then [[]] + Split(s[2..])
    else if s[0] == 13 || s[0] == 10 then [[]] + Split(s[1..])
    else
      var ls := Split(s[1..]);
      [[s[0]] + ls[0]] + ls[1..]
  }

  /** Lines with a pair of CR and LF after each but the last. */
  function Glued(ls: seq<Bytes>): Bytes
    requires ls != []
  {
    if |ls| == 1 then ls[0] else ls[0] + [13, 10] + Glued(ls[1..])
  }

  lemma GluedEmpty(ls: seq<Bytes>)
    requires ls != []
    ensures Glued([[]] + ls) == [13, 10] + Glued(ls)
  {
    var more := [[]] + ls;
    assert more[1..] == ls && more[0] == [];
    assert [] + [13, 10] + Glued(ls) == [13, 10] + Glued(ls);
  }

  lemma GluedLonger(c: byte, ls: seq<Bytes>)
    requires ls != []
    ensures Glued([[c] + ls[0]] + ls[1..]) == [c] + Glued(ls)
  {
    var more := [[c] + ls[0]] + ls[1..];
    assert more[1..] == ls[1..];
    if |ls| > 1 {
      assert [c] + ls[0] + [13, 10] + Glued(ls[1..]) == [c] + (ls[0] + [13, 10] + Glued(ls[1..]));
    }
  }

  /** What smtp_message sends: the body's own lines, each but the last ended by CR LF. */
  lemma {:induction false} LinesAreKept(s: Bytes)
    ensures Lines(s) == Glued(Split(s))
    decreases |s|
  {
    if s != [] {
      if s[0] == 13 && |s| > 1 && s[1] == 10 {
        LinesAreKept(s[2..]);
        GluedEmpty(Split(s[2..]));
      } else {
        LinesAreKept(s[1..]);
        if s[0] == 13 || s[0] == 10 {
          GluedEmpty(Split(s[1..]));
        } else {
          GluedLonger(s[0], Split(s[1..]));
        }
      }
    }
  }
}
