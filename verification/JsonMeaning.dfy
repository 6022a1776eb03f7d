/** What UTF-8 and the contents of a JSON string spell, and that the three loops read and write it so. */
module JsonMeaning {
  import opened JsonText

  // ----- UTF-8 (section 3 of RFC 3629) -----

  /** A byte that continues a character adds six bits to it. */
  predicate Continues(b: int) {
    128 <= b <= 191
  }

  function SixBits(b: int): int {
    b - 128
  }

  /** The bytes of a character: the first says how many there are, the others add six bits each. */
  predicate Spells(e: seq<int>, c: int) {
    match |e|
    case 1 => c == e[0] <= 127
    case 2 => 192 <= e[0] <= 223 && Continues(e[1]) && 128 <= c <= 2047 && c == 64 * (e[0] - 192) + SixBits(e[1])
    case 3 =>
      && 224 <= e[0] <= 239 && Continues(e[1]) && Continues(e[2]) && 2048 <= c <= 65535
      && c == 4096 * (e[0] - 224) + 64 * SixBits(e[1]) + SixBits(e[2])
    case 4 =>
      && 240 <= e[0] <= 247 && Continues(e[1]) && Continues(e[2]) && Continues(e[3]) && 65536 <= c <= 1114111
      && c == 262144 * (e[0] - 240) + 4096 * SixBits(e[1]) + 64 * SixBits(e[2]) + SixBits(e[3])
    case _ => false
  }

  lemma EncodeSpells(c: int)
    requires 0 <= c < 0x110000
    ensures Spells(Encode(c), c)
  {
    SixBitDigits(c);
  }

  lemma SixBitDigits(c: int)
    requires 0 <= c < 0x110000
    ensures c == 64 * (c / 64) + c % 64
    ensures c == 4096 * (c / 4096) + 64 * (c / 64 % 64) + c % 64
    ensures c == 262144 * (c / 262144) + 4096 * (c / 4096 % 64) + 64 * (c / 64 % 64) + c % 64
  {
    assert c / 64 == 64 * (c / 4096) + c / 64 % 64;
    assert c / 4096 == 64 * (c / 262144) + c / 4096 % 64;
  }

  // ----- Sanitizing -----

  /** A character stands at the front of the text. */
  ghost predicate StartsWell(s: Bytes) {
    exists c: int :: Scalar(c) && FrontIs(s, c)
  }

  predicate Scalar(c: int) {
    0 <= c <= 0xD7FF || 0xE000 <= c <= 0x10FFFF
  }

  predicate FrontIs(s: Bytes, c: int)
    requires Scalar(c)
  {
    |Encode(c)| <= |s| && s[..|Encode(c)|] == Encode(c)
  }

  /** A character is kept; a byte that begins none becomes U+FFFD, and the next is looked at anew. */
  lemma SanitizeIs(s: Bytes)
    requires s != []
    ensures forall c: int :: Scalar(c) && FrontIs(s, c) ==> Sanitize(s) == Encode(c) + Sanitize(s[|Encode(c)|..])
    ensures !StartsWell(s) ==> Sanitize(s) == [0xEF, 0xBF, 0xBD] + Sanitize(s[1..])
  {
    forall c: int | Scalar(c) && FrontIs(s, c)
      ensures Sanitize(s) == Encode(c) + Sanitize(s[|Encode(c)|..])
    {
      CharacterKept(s, c);
    }
    WellStarted(s);
  }

  lemma WellStarted(s: Bytes)
    requires s != []
    ensures s[0] < 0x80 || Utf8Len(s) > 0 ==> StartsWell(s)
  {
    if s[0] < 0x80 {
      assert FrontIs(s, s[0]);
    } else if Utf8Len(s) > 0 {
      LenIsEncoding(s);
      assert FrontIs(s, Decode(s[..Utf8Len(s)]));
    }
  }

  lemma CharacterKept(s: Bytes, c: int)
    requires s != [] && Scalar(c) && FrontIs(s, c)
    ensures Sanitize(s) == Encode(c) + Sanitize(s[|Encode(c)|..])
  {
    var e := Encode(c);
    assert s[0] == s[..|e|][0] == e[0];
    if c >= 0x80 {
      EncodingHasLen(c, s[|e|..]);
      assert s == e + s[|e|..];
    }
  }

  // ----- The contents of a JSON string (section 7 of RFC 8259) -----

  /** A piece of a string: a character as it is, a two-character escape, or a character by its code. */
  datatype Piece =
    | Plain(c: int)
    | Short(letter: byte)
    | Coded(c: int, capitals: bool)        // \uXXXX
    | Pair(c: int, capitals: bool)         // two of them, for a character past U+FFFF
    | Half(c: int, capitals: bool)         // a surrogate on its own

  /** What a two-character escape stands for. */
  function ShortMeans(letter: byte): int {
    if letter == 0x22 then 0x22         // quote
    else if letter == 0x5C then 0x5C    // backslash
    else if letter == 0x2F then 0x2F    // slash
    else if letter == 0x62 then 8       // backspace
    else if letter == 0x66 then 12      // form feed
    else if letter == 0x6E then 10      // line feed
    else if letter == 0x72 then 13      // carriage return
    else if letter == 0x74 then 9       // tab
    else -1
  }

  predicate IsPiece(p: Piece) {
    match p
    case Plain(c) => Scalar(c) && c != 0x5C
    case Short(letter) => ShortMeans(letter) >= 0
    case Coded(c, _) => Scalar(c) && c < 0x10000
    case Pair(c, _) => 0x10000 <= c <= 0x10FFFF
    case Half(c, _) => 0xD800 <= c <= 0xDFFF
  }

  /** The character a piece stands for; half a pair stands for U+FFFD. */
  function Means(p: Piece): (c: int)
    requires IsPiece(p)
    ensures Scalar(c)
  {
    match p
    case Plain(c) => c
    case Short(letter) => ShortMeans(letter)
    case Coded(c, _) => c
    case Pair(c, _) => c
    case Half(_, _) => 0xFFFD
  }

  function Digit(d: int, capitals: bool): byte
    requires 0 <= d < 16
  {
    if d < 10 then 48 + d else if capitals then 65 + (d - 10) else 97 + (d - 10)
  }

  /** A code in four hexadecimal digits after backslash and u. */
  function CodeText(c: int, capitals: bool): (t: Bytes)
    requires 0 <= c < 0x10000
    ensures |t| == 6
  {
    [0x5C, 0x75, Digit(c / 4096, capitals), Digit(c / 256 % 16, capitals), Digit(c / 16 % 16, capitals), Digit(c % 16, capitals)]
  }

  /** The two halves of a character past U+FFFF. */
  function HighHalf(c: int): int {
    0xD800 + (c - 0x10000) / 1024
  }

  function LowHalf(c: int): int {
    0xDC00 + (c - 0x10000) % 1024
  }

  function PieceText(p: Piece): (t: Bytes)
    requires IsPiece(p)
    ensures t != []
  {
    match p
    case Plain(c) => Encode(c)
    case Short(letter) => [0x5C, letter]
    case Coded(c, capitals) => CodeText(c, capitals)
    case Pair(c, capitals) => CodeText(HighHalf(c), capitals) + CodeText(LowHalf(c), capitals)
    case Half(c, capitals) => CodeText(c, capitals)
  }

  predicate IsHigh(p: Piece) {
    p.Half? && p.c <= 0xDBFF
  }

  predicate IsLow(p: Piece) {
    p.Half? && p.c >= 0xDC00
  }

  /** Two halves next to each other would be a pair. */
  predicate AreHalves(a: Piece, b: Piece) {
    IsHigh(a) && IsLow(b)
  }

  predicate IsString(ps: seq<Piece>) {
    ps == [] || (IsPiece(ps[0]) && (|ps| > 1 ==> !AreHalves(ps[0], ps[1])) && IsString(ps[1..]))
  }

  function StringText(ps: seq<Piece>): Bytes
    requires IsString(ps)
  {
    if ps == [] then [] else PieceText(ps[0]) + StringText(ps[1..])
  }

  function StringMeans(ps: seq<Piece>): Bytes
    requires IsString(ps)
  {
    if ps == [] then [] else Encode(Means(ps[0])) + StringMeans(ps[1..])
  }

  // ----- json_unescape reads it -----

  lemma DigitValue(d: int, capitals: bool)
    requires 0 <= d < 16
    ensures HexValue(Digit(d, capitals)) == d
  {
  }

  lemma CodeValue(c: int, capitals: bool, rest: Bytes)
    requires 0 <= c < 0x10000
    ensures var t := CodeText(c, capitals) + rest; t[0] == 0x5C && t[1] == 0x75 && Hex4(t[2..]) == c
  {
    var t := CodeText(c, capitals) + rest;
    DigitValue(c / 4096, capitals);
    DigitValue(c / 256 % 16, capitals);
    DigitValue(c / 16 % 16, capitals);
    DigitValue(c % 16, capitals);
    var h := t[2..];
    assert h[0] == t[2] && h[1] == t[3] && h[2] == t[4] && h[3] == t[5];
    FourDigits(c);
  }

  lemma FourDigits(c: int)
    requires 0 <= c < 0x10000
    ensures ((c / 4096 * 16 + c / 256 % 16) * 16 + c / 16 % 16) * 16 + c % 16 == c
  {
    assert c / 256 == (c / 4096) * 16 + c / 256 % 16;
    assert c / 16 == (c / 256) * 16 + c / 16 % 16;
  }

  lemma OnePasses(x: byte, rest: Bytes)
    requires x != 0x5C
    ensures Unescape([x] + rest) == [x] + Unescape(rest)
  {
    assert ([x] + rest)[1..] == rest;
  }

  /** Bytes without a backslash are passed on. */
  lemma {:induction false} PlainPasses(b: Bytes, rest: Bytes)
    requires 0x5C !in b
    ensures Unescape(b + rest) == b + Unescape(rest)
    decreases |b|
  {
    if b == [] {
      assert b + rest == rest;
    } else {
      var x, more := b[0], b[1..];
      assert x in b;
      PlainPasses(more, rest);
      FirstThenRest(b, rest);
      FirstThenRest(b, Unescape(rest));
      OnePasses(x, more + rest);
    }
  }

  lemma FirstThenRest(b: Bytes, r: Bytes)
    requires b != []
    ensures b + r == [b[0]] + (b[1..] + r)
  {
  }

  /** The text after a high half does not begin with a low one. */
  ghost predicate NoLowAfter(rest: Bytes) {
    !(0xDC00 <= LowSurrogate(rest) <= 0xDFFF)
  }

  lemma CodedReads(c: int, capitals: bool, rest: Bytes)
    requires 0 <= c < 0x10000 && !(0xD800 <= c <= 0xDBFF && !NoLowAfter(rest))
    ensures Unescape(CodeText(c, capitals) + rest) == Encode(if Scalar(c) then c else 0xFFFD) + Unescape(rest)
  {
    var t := CodeText(c, capitals) + rest;
    CodeValue(c, capitals, rest);
    assert t[6..] == rest;
  }

  lemma PairReads(c: int, capitals: bool, rest: Bytes)
    requires 0x10000 <= c <= 0x10FFFF
    ensures Unescape(CodeText(HighHalf(c), capitals) + CodeText(LowHalf(c), capitals) + rest) == Encode(c) + Unescape(rest)
  {
    var low := CodeText(LowHalf(c), capitals) + rest;
    var t := CodeText(HighHalf(c), capitals) + low;
    assert CodeText(HighHalf(c), capitals) + CodeText(LowHalf(c), capitals) + rest == t;
    CodeValue(HighHalf(c), capitals, low);
    CodeValue(LowHalf(c), capitals, rest);
    assert t[6..] == low && t[12..] == rest;
    assert Unicode(t) == (c, 12);
  }

  lemma ShortReads(letter: byte, rest: Bytes)
    requires ShortMeans(letter) >= 0
    ensures Unescape([0x5C, letter] + rest) == Encode(ShortMeans(letter)) + Unescape(rest)
  {
    var t := [0x5C, letter] + rest;
    assert t[2..] == rest;
  }

  lemma EncodedPlain(c: int)
    requires Scalar(c) && c != 0x5C
    ensures 0x5C !in Encode(c)
  {
  }

  lemma PieceReads(p: Piece, rest: Bytes)
    requires IsPiece(p) && (IsHigh(p) ==> NoLowAfter(rest))
    ensures Unescape(PieceText(p) + rest) == Encode(Means(p)) + Unescape(rest)
  {
    match p
    case Plain(c) =>
      EncodedPlain(c);
      PlainPasses(Encode(c), rest);
    case Short(letter) => ShortReads(letter, rest);
    case Coded(c, capitals) => CodedReads(c, capitals, rest);
    case Pair(c, capitals) => PairReads(c, capitals, rest);
    case Half(c, capitals) => CodedReads(c, capitals, rest);
  }

  /** Only a piece that is a low half begins as one. */
  lemma FirstNotLow(ps: seq<Piece>)
    requires IsString(ps) && (ps != [] ==> !IsLow(ps[0]))
    ensures NoLowAfter(StringText(ps))
  {
    if ps != [] {
      PieceNotLow(ps[0], StringText(ps[1..]));
    }
  }

  lemma CodeNotLow(c: int, capitals: bool, rest: Bytes)
    requires 0 <= c < 0x10000 && !(0xDC00 <= c <= 0xDFFF)
    ensures NoLowAfter(CodeText(c, capitals) + rest)
  {
    CodeValue(c, capitals, rest);
  }

  lemma PlainNotLow(c: int, rest: Bytes)
    requires Scalar(c) && c != 0x5C
    ensures NoLowAfter(Encode(c) + rest)
  {
    EncodedPlain(c);
    var x := Encode(c)[0];
    assert x in Encode(c) && (Encode(c) + rest)[0] == x;
  }

  lemma PieceNotLow(p: Piece, rest: Bytes)
    requires IsPiece(p) && !IsLow(p)
    ensures NoLowAfter(PieceText(p) + rest)
  {
    match p
    case Plain(c) => PlainNotLow(c, rest);
    case Short(letter) => ShortNotLow(letter, rest);
    case Coded(c, capitals) => CodeNotLow(c, capitals, rest);
    case Half(c, capitals) => CodeNotLow(c, capitals, rest);
    case Pair(c, capitals) => PairNotLow(c, capitals, rest);
  }

  lemma ShortNotLow(letter: byte, rest: Bytes)
    requires letter != 0x75
    ensures NoLowAfter([0x5C, letter] + rest)
  {
    assert ([0x5C, letter] + rest)[1] == letter;
  }

  lemma PairNotLow(c: int, capitals: bool, rest: Bytes)
    requires 0x10000 <= c <= 0x10FFFF
    ensures NoLowAfter(CodeText(HighHalf(c), capitals) + CodeText(LowHalf(c), capitals) + rest)
  {
    var high, low := CodeText(HighHalf(c), capitals), CodeText(LowHalf(c), capitals);
    CodeNotLow(HighHalf(c), capitals, low + rest);
    assert high + low + rest == high + (low + rest);
  }

  /** Every string's contents are read as the characters its pieces stand for. */
  lemma {:induction false} StringReads(ps: seq<Piece>)
    requires IsString(ps)
    ensures Unescape(StringText(ps)) == StringMeans(ps)
  {
    if ps != [] {
      StringReads(ps[1..]);
      if IsHigh(ps[0]) {
        FirstNotLow(ps[1..]);
      }
      PieceReads(ps[0], StringText(ps[1..]));
    }
  }
}
