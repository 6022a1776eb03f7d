/** Base64 (section 4 of RFC 4648), as header_text writes it and a reader takes it apart. */
module Base64Text {
  import opened Common
  import opened JsonText

  const QUERY: byte := 0x3F
  const EQUALS: byte := 0x3D

  predicate Sextet(v: int) {
    0 <= v < 64
  }

  /** The character of six bits. */
  function Char64(v: int): (c: byte)
    requires 0 <= v < 64
    ensures Of64(c) == v && 0x2B <= c <= 0x7A && c != QUERY && c != EQUALS
  {
    if v < 26 then 0x41 + v else if v < 52 then 0x61 + v - 26 else if v < 62 then 0x30 + v - 52
    else if v == 62 then 0x2B else 0x2F
  }

  function Of64(c: byte): (v: int)
    ensures -1 <= v < 64
  {
    if 0x41 <= c <= 0x5A then c - 0x41
    else if 0x61 <= c <= 0x7A then c - 0x61 + 26
    else if 0x30 <= c <= 0x39 then c - 0x30 + 52
    else if c == 0x2B then 62
    else if c == 0x2F then 63
    else -1
  }

  function Pad(s: Bytes, i: nat): byte {
    if i < |s| then s[i] else 0
  }

  type Triple = t: int | 0 <= t < 0x1000000

  function TripleOf(s: Bytes): Triple {
    Pad(s, 0) as int * 0x10000 + Pad(s, 1) as int * 0x100 + Pad(s, 2) as int
  }

  /** Six of the twenty-four bits, the highest first. */
  function SixBits(t: Triple, k: nat): (v: int)
    requires k < 4
    ensures Sextet(v)
  {
    if k == 0 then t / 0x40000 else if k == 1 then t / 0x1000 % 0x40
    else if k == 2 then t / 0x40 % 0x40 else t % 0x40
  }

  /** Up to three bytes as four characters. */
  function Group(s: Bytes): (g: Bytes)
    requires 1 <= |s| <= 3
    ensures |g| == 4
  {
    var t := TripleOf(s);
    [Char64(SixBits(t, 0)), Char64(SixBits(t, 1)),
     if |s| > 1 then Char64(SixBits(t, 2)) else EQUALS,
     if |s| > 2 then Char64(SixBits(t, 3)) else EQUALS]
  }

  function Base64(s: Bytes): Bytes {
    if |s| == 0 then [] else if |s| <= 3 then Group(s) else Group(s[..3]) + Base64(s[3..])
  }

  /** The three bytes of four sextets. */
  function First(w: int, x: int): byte
    requires Sextet(w) && Sextet(x)
  {
    w * 4 + x / 16
  }

  function Second(x: int, y: int): byte
    requires Sextet(x) && Sextet(y)
  {
    x % 16 * 16 + y / 4
  }

  function Third(y: int, z: int): byte
    requires Sextet(y) && Sextet(z)
  {
    y % 4 * 64 + z
  }

  function Ungroup(g: Bytes): Option<Bytes>
    requires |g| == 4
  {
    var w, x, y, z := Of64(g[0]), Of64(g[1]), Of64(g[2]), Of64(g[3]);
    if w < 0 || x < 0 then None
    else if g[2] == EQUALS && g[3] == EQUALS then Some([First(w, x)])
    else if y < 0 then None
    else if g[3] == EQUALS then Some([First(w, x), Second(x, y)])
    else if z < 0 then None
    else Some([First(w, x), Second(x, y), Third(y, z)])
  }

  function Unbase64(t: Bytes): Option<Bytes> {
    if t == [] then Some([])
    else if |t| < 4 then None
    else
      var g, rest := Ungroup(t[..4]), Unbase64(t[4..]);
      if g.None? || rest.None? then None else Some(g.value + rest.value)
  }

  /** Table 1 of RFC 4648: the capital letters, the small ones, the digits, plus and slash. */
  lemma AlphabetIs(v: int)
    requires 0 <= v < 64
    ensures v <= 25 ==> Char64(v) as char == 'A' + v as char
    ensures 26 <= v <= 51 ==> Char64(v) as char == 'a' + (v - 26) as char
    ensures 52 <= v <= 61 ==> Char64(v) as char == '0' + (v - 52) as char
    ensures v == 62 ==> Char64(v) as char == '+'
    ensures v == 63 ==> Char64(v) as char == '/'
  {
  }

  /** Three bytes as a number are the four characters' places in the alphabet as one. */
  lemma GroupIsNumber(a: byte, b: byte, c: byte) returns (v: int, w: int, x: int, y: int)
    ensures Sextet(v) && Sextet(w) && Sextet(x) && Sextet(y) && Group([a, b, c]) == [Char64(v), Char64(w), Char64(x), Char64(y)]
    ensures v * 0x40000 + w * 0x1000 + x * 0x40 + y == a as int * 0x10000 + b as int * 0x100 + c as int
  {
    var t := TripleOf([a, b, c]);
    v, w, x, y := SixBits(t, 0), SixBits(t, 1), SixBits(t, 2), SixBits(t, 3);
    SixOf(a, b, c);
  }

  /** One or two bytes are written as if zeros followed, with = for the characters those alone fill. */
  lemma ShortGroupIs(s: Bytes)
    requires 1 <= |s| <= 2
    ensures var whole := Group(if |s| == 1 then s + [0, 0] else s + [0]);
      Group(s) == whole[..|s| + 1] + (if |s| == 1 then [0x3D, 0x3D] else [0x3D])
  {
  }

  lemma SixOf(a: byte, b: byte, c: byte)
    ensures var t := a as int * 0x10000 + b as int * 0x100 + c as int;
      SixBits(t, 0) == a / 4 && SixBits(t, 1) == a % 4 * 16 + b / 16 &&
      SixBits(t, 2) == b % 16 * 4 + c / 64 && SixBits(t, 3) == c % 64
  {
    Digits(a / 4, a % 4 * 16 + b / 16, b % 16 * 4 + c / 64, c % 64);
  }

  lemma TripleBack(s: Bytes)
    ensures var t := TripleOf(s); var w, x, y, z := SixBits(t, 0), SixBits(t, 1), SixBits(t, 2), SixBits(t, 3);
      First(w, x) == Pad(s, 0) && Second(x, y) == Pad(s, 1) && Third(y, z) == Pad(s, 2)
  {
    SixOf(Pad(s, 0), Pad(s, 1), Pad(s, 2));
  }

  lemma GroupRoundTrip(s: Bytes)
    requires 1 <= |s| <= 3
    ensures Ungroup(Group(s)) == Some(s)
  {
    var t := TripleOf(s);
    TripleBack(s);
    assert s == if |s| == 1 then [s[0]] else if |s| == 2 then [s[0], s[1]] else [s[0], s[1], s[2]];
  }

  lemma {:induction false} Base64RoundTrip(s: Bytes)
    ensures Unbase64(Base64(s)) == Some(s)
    decreases |s|
  {
    if 1 <= |s| <= 3 {
      GroupRoundTrip(s);
      assert Group(s)[..4] == Group(s) && Group(s)[4..] == [];
      assert Unbase64([]) == Some([]) && s + [] == s;
    } else if |s| > 3 {
      var g, rest := Group(s[..3]), Base64(s[3..]);
      GroupRoundTrip(s[..3]);
      Base64RoundTrip(s[3..]);
      assert (g + rest)[..4] == g && (g + rest)[4..] == rest;
      assert s[..3] + s[3..] == s;
    }
  }

  lemma {:induction false} Base64Length(s: Bytes)
    ensures 3 * |Base64(s)| <= 4 * |s| + 8
    decreases |s|
  {
    if |s| > 3 {
      Base64Length(s[3..]);
    }
  }

  lemma {:induction false} Base64Chars(s: Bytes)
    ensures forall i :: 0 <= i < |Base64(s)| ==> 0x2B <= Base64(s)[i] <= 0x7A && Base64(s)[i] != QUERY
    decreases |s|
  {
    if |s| > 3 {
      Base64Chars(s[3..]);
    }
  }
}
