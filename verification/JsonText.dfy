/** UTF-8 and the contents of JSON strings: utf8_sanitize, json_escape, json_unescape. */
module JsonText {

  type byte = x: int | 0 <= x < 256
  type Bytes = seq<byte>

  const QUOTE: byte := 0x22
  const BACKSLASH: byte := 0x5C
  const LOWER_U: byte := 0x75

  // ----- UTF-8 (section 3 of RFC 3629) -----

  /** A Unicode scalar value: a code point that is no surrogate. */
  predicate IsScalar(c: int) {
    0 <= c < 0xD800 || 0xE000 <= c < 0x110000
  }

  /** append_utf8. */
  function Encode(c: int): (e: Bytes)
    requires 0 <= c < 0x110000
    ensures 1 <= |e| <= 4
  {
    if c < 0x80 then [c]
    else if c < 0x800 then [0xC0 + c / 0x40, 0x80 + c % 0x40]
    else if c < 0x10000 then [0xE0 + c / 0x1000, 0x80 + (c / 0x40) % 0x40, 0x80 + c % 0x40]
    else [0xF0 + c / 0x40000, 0x80 + (c / 0x1000) % 0x40, 0x80 + (c / 0x40) % 0x40, 0x80 + c % 0x40]
  }

  /** The length of the well-formed sequence of two bytes or more at the front of s, or 0. */
  function Utf8Len(s: Bytes): (n: nat)
    requires s != []
    ensures n == 0 || (2 <= n <= 4 && n <= |s| && s[0] >= 0x80)
  {
    var c := s[0];
    var n := if 0xC2 <= c <= 0xDF then 2 else if 0xE0 <= c <= 0xEF then 3 else if 0xF0 <= c <= 0xF4 then 4 else 0;
    var lo := if c == 0xE0 then 0xA0 else if c == 0xF0 then 0x90 else 0x80;
    var hi := if c == 0xED then 0x9F else if c == 0xF4 then 0x8F else 0xBF;
    if n == 0 || n > |s| || s[1] < lo || s[1] > hi then 0
    else if n > 2 && (s[2] < 0x80 || s[2] > 0xBF) then 0
    else if n > 3 && (s[3] < 0x80 || s[3] > 0xBF) then 0
    else n
  }

  /** The scalar value a sequence of two, three or four bytes spells. */
  function Decode(s: seq<int>): int
    requires 2 <= |s| <= 4
  {
    if |s| == 2 then (s[0] - 0xC0) * 0x40 + s[1] - 0x80
    else if |s| == 3 then (s[0] - 0xE0) * 0x1000 + (s[1] - 0x80) * 0x40 + s[2] - 0x80
    else (s[0] - 0xF0) * 0x40000 + (s[1] - 0x80) * 0x1000 + (s[2] - 0x80) * 0x40 + s[3] - 0x80
  }

  lemma Digits(a: int, b: int, c: int, d: int)
    requires 0 <= a && 0 <= b < 0x40 && 0 <= c < 0x40 && 0 <= d < 0x40
    ensures var x := a * 0x40000 + b * 0x1000 + c * 0x40 + d;
      x / 0x40000 == a && x / 0x1000 == a * 0x40 + b && (x / 0x1000) % 0x40 == b &&
      x / 0x40 == a * 0x1000 + b * 0x40 + c && (x / 0x40) % 0x40 == c && x % 0x40 == d
  {
  }

  lemma EncodingOf3(a: byte, b: byte, c: byte)
    requires 0xE0 <= a <= 0xEF && 0x80 <= b <= 0xBF && 0x80 <= c <= 0xBF
    requires a == 0xE0 ==> 0xA0 <= b
    requires a == 0xED ==> b <= 0x9F
    ensures var x := Decode([a, b, c]); 0x800 <= x < 0x10000 && IsScalar(x) && Encode(x) == [a, b, c]
  {
    Digits(0, a - 0xE0, b - 0x80, c - 0x80);
  }

  lemma EncodingOf4(a: byte, b: byte, c: byte, d: byte)
    requires 0xF0 <= a <= 0xF4 && 0x80 <= b <= 0xBF && 0x80 <= c <= 0xBF && 0x80 <= d <= 0xBF
    requires a == 0xF0 ==> 0x90 <= b
    requires a == 0xF4 ==> b <= 0x8F
    ensures var x := Decode([a, b, c, d]); 0x10000 <= x < 0x110000 && Encode(x) == [a, b, c, d]
  {
    Digits(a - 0xF0, b - 0x80, c - 0x80, d - 0x80);
  }

  /** utf8_len accepts only encodings of scalar values past ASCII ... */
  lemma LenIsEncoding(s: Bytes)
    requires s != [] && Utf8Len(s) > 0
    ensures var c := Decode(s[..Utf8Len(s)]);
      0x80 <= c < 0x110000 && IsScalar(c) && Encode(c) == s[..Utf8Len(s)]
  {
    var n := Utf8Len(s);
    if n == 2 {
      assert s[..n] == [s[0], s[1]];
    } else if n == 3 {
      EncodingOf3(s[0], s[1], s[2]);
      assert s[..n] == [s[0], s[1], s[2]];
    } else {
      EncodingOf4(s[0], s[1], s[2], s[3]);
      assert s[..n] == [s[0], s[1], s[2], s[3]];
    }
  }

  /** ... and every one of them. */
  lemma EncodingHasLen(c: int, rest: Bytes)
    requires 0x80 <= c && IsScalar(c)
    ensures Utf8Len(Encode(c) + rest) == |Encode(c)| && Encode(c)[0] >= 0x80
  {
    var e := Encode(c);
    var s := e + rest;
    assert s[0] == e[0] && s[1] == e[1];
    if |e| == 3 {
      assert s[2] == e[2];
    } else if |e| == 4 {
      assert s[2] == e[2] && s[3] == e[3];
    }
  }

  predicate AllScalar(cs: seq<int>) {
    forall i :: 0 <= i < |cs| ==> IsScalar(cs[i])
  }

  function EncodeAll(cs: seq<int>): Bytes
    requires AllScalar(cs)
  {
    if cs == [] then [] else Encode(cs[0]) + EncodeAll(cs[1..])
  }

  /** The bytes are the encoding of some scalar values: well-formed UTF-8. */
  ghost predicate WellFormed(s: Bytes) {
    exists cs: seq<int> :: AllScalar(cs) && s == EncodeAll(cs)
  }

  lemma WellFormedCons(c: int, s: Bytes)
    requires IsScalar(c) && WellFormed(s)
    ensures WellFormed(Encode(c) + s)
  {
    var cs: seq<int> :| AllScalar(cs) && s == EncodeAll(cs);
    var all := [c] + cs;
    assert all[1..] == cs;
    assert EncodeAll(all) == Encode(c) + s;
  }

  lemma ConsJoin(u: Bytes, s: Bytes)
    requires u != []
    ensures [u[0]] + (u[1..] + s) == u + s
  {
  }

  // ----- utf8_sanitize -----

  const REPLACEMENT: Bytes := [0xEF, 0xBF, 0xBD]   // U+FFFD

  /** How many bytes the loops of sanitize and escape take at once. */
  function Unit(s: Bytes): (n: nat)
    requires s != []
    ensures 1 <= n <= |s| && n <= 4
  {
    if s[0] < 0x80 || Utf8Len(s) == 0 then 1 else Utf8Len(s)
  }

  /** What those bytes are sanitized to. */
  function Sane(s: Bytes): Bytes
    requires s != []
  {
    if s[0] < 0x80 then [s[0]] else if Utf8Len(s) == 0 then REPLACEMENT else s[..Utf8Len(s)]
  }

  function Sanitize(s: Bytes): Bytes {
    if s == [] then [] else Sane(s) + Sanitize(s[Unit(s)..])
  }

  lemma Joined(out: Bytes, piece: Bytes, rest: Bytes, after: Bytes, whole: Bytes)
    requires out + rest == whole && rest == piece + after
    ensures out + piece + after == whole
  {
  }

  lemma SanitizeStep(s: Bytes, i: nat)
    requires i < |s|
    ensures Sanitize(s[i..]) == Sane(s[i..]) + Sanitize(s[i + Unit(s[i..])..])
  {
    assert s[i..][Unit(s[i..])..] == s[i + Unit(s[i..])..];
  }

  /** One round of utf8_sanitize: the bytes it appends and how many it passes. */
  method SanitizeRound(s: Bytes, i: nat) returns (piece: Bytes, n: nat)
    requires i < |s|
    ensures piece == Sane(s[i..]) && n == Unit(s[i..])
  {
    var rest := s[i..];
    if s[i] < 0x80 {
      return [s[i]], 1;
    }
    n := Utf8Len(rest);
    if n == 0 {
      piece, n := REPLACEMENT, 1;
    } else {
      piece := rest[..n];
    }
  }

  /** The first i bytes have been turned into out. */
  ghost predicate SanitizedTo(s: Bytes, i: nat, out: Bytes) {
    i <= |s| && out + Sanitize(s[i..]) == Sanitize(s)
  }

  lemma SanitizedToNext(s: Bytes, i: nat, out: Bytes)
    requires i < |s| && SanitizedTo(s, i, out)
    ensures SanitizedTo(s, i + Unit(s[i..]), out + Sane(s[i..]))
  {
    SanitizeStep(s, i);
    Joined(out, Sane(s[i..]), Sanitize(s[i..]), Sanitize(s[i + Unit(s[i..])..]), Sanitize(s));
  }

  lemma SanitizedToEnds(s: Bytes, out: Bytes)
    ensures SanitizedTo(s, 0, [])
    ensures SanitizedTo(s, |s|, out) ==> out == Sanitize(s)
  {
    assert s[0..] == s && s[|s|..] == [];
    assert [] + Sanitize(s) == Sanitize(s) && out + Sanitize([]) == out;
  }

  /** utf8_sanitize. */
  method Utf8Sanitize(s: Bytes) returns (out: Bytes)
    ensures out == Sanitize(s)
  {
    out := [];
    var i := 0;
    SanitizedToEnds(s, out);
    while i < |s|
      invariant i <= |s| && SanitizedTo(s, i, out)
    {
      var piece, n := SanitizeRound(s, i);
      SanitizedToNext(s, i, out);
      out := out + piece;
      i := i + n;
    }
    SanitizedToEnds(s, out);
  }

  lemma SaneIsEncoding(s: Bytes) returns (c: int)
    requires s != []
    ensures IsScalar(c) && Sane(s) == Encode(c)
  {
    if s[0] < 0x80 {
      c := s[0];
    } else if Utf8Len(s) == 0 {
      c := 0xFFFD;
    } else {
      LenIsEncoding(s);
      c := Decode(s[..Utf8Len(s)]);
    }
  }

  /** Whatever went in, well-formed UTF-8 comes out. */
  lemma {:induction false} SanitizeIsWellFormed(s: Bytes)
    ensures WellFormed(Sanitize(s))
  {
    if s == [] {
      assert EncodeAll([]) == [];
    } else {
      SanitizeIsWellFormed(s[Unit(s)..]);
      var c := SaneIsEncoding(s);
      WellFormedCons(c, Sanitize(s[Unit(s)..]));
    }
  }

  lemma SaneEncoding(c: int, rest: Bytes)
    requires IsScalar(c)
    ensures Unit(Encode(c) + rest) == |Encode(c)| && Sane(Encode(c) + rest) == Encode(c)
  {
    if c >= 0x80 {
      EncodingHasLen(c, rest);
    }
  }

  lemma {:induction false} SanitizeEncoded(cs: seq<int>)
    requires AllScalar(cs)
    ensures Sanitize(EncodeAll(cs)) == EncodeAll(cs)
  {
    if cs != [] {
      var rest := EncodeAll(cs[1..]);
      SaneEncoding(cs[0], rest);
      assert EncodeAll(cs)[|Encode(cs[0])|..] == rest;
      SanitizeEncoded(cs[1..]);
    }
  }

  /** Well-formed text, and only that, is left as it is; so sanitizing twice is sanitizing once. */
  lemma SanitizeIsIdentity(s: Bytes)
    ensures Sanitize(s) == s <==> WellFormed(s)
    ensures Sanitize(Sanitize(s)) == Sanitize(s)
  {
    SanitizeIsWellFormed(s);
    if WellFormed(s) {
      var cs: seq<int> :| AllScalar(cs) && s == EncodeAll(cs);
      SanitizeEncoded(cs);
    }
    var cs: seq<int> :| AllScalar(cs) && Sanitize(s) == EncodeAll(cs);
    SanitizeEncoded(cs);
  }

  // ----- json_escape -----

  /** The letter of a short escape: \" \\ \b \f \n \r \t. */
  function ShortEscape(c: byte): (r: int)
    ensures r == -1 || r in [0x22, 0x5C, 0x62, 0x66, 0x6E, 0x72, 0x74]
  {
    if c == QUOTE || c == BACKSLASH then c
    else if c == 0x08 then 0x62 else if c == 0x0C then 0x66 else if c == 0x0A then 0x6E
    else if c == 0x0D then 0x72 else if c == 0x09 then 0x74 else -1
  }

  function HexDigit(d: int): byte
    requires 0 <= d < 16
  {
    if d < 10 then 0x30 + d else 0x61 + d - 10
  }

  /** What one unit is escaped to. */
  function Escaped(s: Bytes): Bytes
    requires s != []
  {
    var c := s[0];
    if c >= 0x80 then
      if Utf8Len(s) == 0 then [BACKSLASH, LOWER_U, 0x66, 0x66, 0x66, 0x64] else s[..Utf8Len(s)]
    else if ShortEscape(c) >= 0 then [BACKSLASH, ShortEscape(c)]
    else if c < 0x20 then [BACKSLASH, LOWER_U, 0x30, 0x30, HexDigit(c / 16), HexDigit(c % 16)]
    else [c]
  }

  function Escape(s: Bytes): Bytes {
    if s == [] then [] else Escaped(s) + Escape(s[Unit(s)..])
  }

  /** One round of json_escape: the bytes it appends and how many it passes. */
  method EscapeRound(s: Bytes, i: nat) returns (piece: Bytes, n: nat)
    requires i < |s|
    ensures piece == Escaped(s[i..]) && n == Unit(s[i..])
  {
    var c, rest := s[i], s[i..];
    if c >= 0x80 {
      n := Utf8Len(rest);
      if n == 0 {
        piece, n := [BACKSLASH, LOWER_U, 0x66, 0x66, 0x66, 0x64], 1;
      } else {
        piece := rest[..n];
      }
    } else if ShortEscape(c) >= 0 {
      piece, n := [BACKSLASH, ShortEscape(c)], 1;
    } else if c < 0x20 {
      piece, n := [BACKSLASH, LOWER_U, 0x30, 0x30, HexDigit(c / 16), HexDigit(c % 16)], 1;
    } else {
      piece, n := [c], 1;
    }
  }

  /** The first i bytes have been turned into out. */
  ghost predicate EscapedTo(s: Bytes, i: nat, out: Bytes) {
    i <= |s| && out + Escape(s[i..]) == Escape(s)
  }

  lemma EscapedToNext(s: Bytes, i: nat, out: Bytes)
    requires i < |s| && EscapedTo(s, i, out)
    ensures EscapedTo(s, i + Unit(s[i..]), out + Escaped(s[i..]))
  {
    Joined(out, Escaped(s[i..]), Escape(s[i..]), Escape(s[i + Unit(s[i..])..]), Escape(s));
  }

  lemma EscapedToEnds(s: Bytes, out: Bytes)
    ensures EscapedTo(s, 0, [])
    ensures EscapedTo(s, |s|, out) ==> out == Escape(s)
  {
    assert s[0..] == s && s[|s|..] == [];
    assert out + [] == out;
  }

  /** json_escape. */
  method JsonEscape(s: Bytes) returns (out: Bytes)
    ensures out == Escape(s)
  {
    out := [];
    var i := 0;
    EscapedToEnds(s, []);
    while i < |s|
      invariant i <= |s| && EscapedTo(s, i, out)
    {
      var piece, n := EscapeRound(s, i);
      EscapedToNext(s, i, out);
      out := out + piece;
      i := i + n;
    }
    EscapedToEnds(s, out);
  }

  lemma {:induction false} AsciiCons(u: Bytes, s: Bytes)
    requires (forall i :: 0 <= i < |u| ==> u[i] < 0x80) && WellFormed(s)
    ensures WellFormed(u + s)
  {
    if u == [] {
      assert u + s == s;
    } else {
      AsciiCons(u[1..], s);
      WellFormedCons(u[0], u[1..] + s);
      ConsJoin(u, s);
    }
  }

  lemma EscapedUnit(s: Bytes)
    requires s != []
    ensures forall i :: 0 <= i < |Escaped(s)| ==> Escaped(s)[i] >= 0x20
    ensures (forall i :: 0 <= i < |Escaped(s)| ==> Escaped(s)[i] < 0x80) || (Utf8Len(s) > 0 && Escaped(s) == Sane(s))
  {
  }

  /** What is escaped is UTF-8 without control characters, whatever went in. */
  lemma {:induction false} EscapeIsText(s: Bytes)
    ensures WellFormed(Escape(s))
    ensures forall i :: 0 <= i < |Escape(s)| ==> Escape(s)[i] >= 0x20
  {
    if s == [] {
      assert EncodeAll([]) == [];
    } else {
      var e, rest := Escaped(s), Escape(s[Unit(s)..]);
      EscapeIsText(s[Unit(s)..]);
      EscapedUnit(s);
      if forall i :: 0 <= i < |e| ==> e[i] < 0x80 {
        AsciiCons(e, rest);
      } else {
        var c := SaneIsEncoding(s);
        WellFormedCons(c, rest);
      }
    }
  }

  // ----- json_unescape -----

  function HexValue(h: byte): int {
    if 0x30 <= h <= 0x39 then h - 0x30
    else if 0x61 <= h <= 0x66 then h - 0x61 + 10
    else if 0x41 <= h <= 0x46 then h - 0x41 + 10
    else -1
  }

  /** hex4: the four hex digits at the front of s, or U+FFFD. */
  function Hex4(s: Bytes): (c: int)
    requires |s| >= 4
    ensures 0 <= c < 0x10000
  {
    var a, b, c, d := HexValue(s[0]), HexValue(s[1]), HexValue(s[2]), HexValue(s[3]);
    if a < 0 || b < 0 || c < 0 || d < 0 then 0xFFFD else ((a * 16 + b) * 16 + c) * 16 + d
  }

  /** The low surrogate escaped at the front of s, or 0. */
  function LowSurrogate(s: Bytes): int {
    if |s| >= 6 && s[0] == BACKSLASH && s[1] == LOWER_U then Hex4(s[2..]) else 0
  }

  /** What a \u escape at the front of s spells, and how many bytes it takes. */
  function Unicode(s: Bytes): (r: (int, nat))
    requires |s| >= 6
    ensures IsScalar(r.0) && 6 <= r.1 <= |s|
  {
    var code := Hex4(s[2..]);
    if 0xD800 <= code <= 0xDBFF then
      var lo := LowSurrogate(s[6..]);
      if 0xDC00 <= lo <= 0xDFFF then (0x10000 + (code - 0xD800) * 0x400 + (lo - 0xDC00), 12) else (0xFFFD, 6)
    else if 0xDC00 <= code <= 0xDFFF then (0xFFFD, 6)
    else (code, 6)
  }

  /** The byte a two-byte escape stands for; an unknown one stands for itself. */
  function ShortUnescape(c: byte): byte {
    if c == 0x62 then 0x08 else if c == 0x66 then 0x0C else if c == 0x6E then 0x0A
    else if c == 0x72 then 0x0D else if c == 0x74 then 0x09 else c
  }

  /** One step at the front of s: the bytes it gives and how many it takes. */
  function UnescapeStep(s: Bytes): (r: (Bytes, nat))
    requires s != []
    ensures 1 <= r.1 <= |s|
  {
    if s[0] != BACKSLASH || |s| == 1 then ([s[0]], 1)
    else if s[1] != LOWER_U then ([ShortUnescape(s[1])], 2)
    else if |s| < 6 then ([s[0]], 1)
    else (Encode(Unicode(s).0), Unicode(s).1)
  }

  function Unescape(s: Bytes): Bytes {
    if s == [] then [] else UnescapeStep(s).0 + Unescape(s[UnescapeStep(s).1..])
  }

  lemma UnescapeFrom(s: Bytes, i: nat)
    requires i < |s|
    ensures var r := UnescapeStep(s[i..]); Unescape(s[i..]) == r.0 + Unescape(s[i + r.1..])
  {
    assert s[i..][UnescapeStep(s[i..]).1..] == s[i + UnescapeStep(s[i..]).1..];
  }

  /** One round of json_unescape: the bytes it appends and how many it passes. */
  method UnescapeRound(s: Bytes, i: nat) returns (piece: Bytes, n: nat)
    requires i < |s|
    ensures (piece, n) == UnescapeStep(s[i..])
  {
    if s[i] != BACKSLASH || i + 1 >= |s| {
      return [s[i]], 1;
    }
    var c := s[i + 1];
    if c != LOWER_U {
      piece, n := [ShortUnescape(c)], 2;
    } else if i + 5 >= |s| {
      piece, n := [s[i]], 1;
    } else {
      var code;
      code, n := ReadUnicode(s, i);
      piece := Encode(code);
    }
  }

  /** The first i bytes have been turned into out. */
  ghost predicate UnescapedTo(s: Bytes, i: nat, out: Bytes) {
    i <= |s| && out + Unescape(s[i..]) == Unescape(s)
  }

  lemma UnescapedToNext(s: Bytes, i: nat, out: Bytes)
    requires i < |s| && UnescapedTo(s, i, out)
    ensures UnescapedTo(s, i + UnescapeStep(s[i..]).1, out + UnescapeStep(s[i..]).0)
  {
    UnescapeFrom(s, i);
    Joined(out, UnescapeStep(s[i..]).0, Unescape(s[i..]), Unescape(s[i + UnescapeStep(s[i..]).1..]), Unescape(s));
  }

  lemma UnescapedToEnds(s: Bytes, out: Bytes)
    ensures UnescapedTo(s, 0, [])
    ensures UnescapedTo(s, |s|, out) ==> out == Unescape(s)
  {
    assert s[0..] == s && s[|s|..] == [];
    assert [] + Unescape(s) == Unescape(s) && out + Unescape([]) == out;
  }

  /** json_unescape. */
  method JsonUnescape(s: Bytes) returns (out: Bytes)
    ensures out == Unescape(s)
  {
    out := [];
    var i := 0;
    UnescapedToEnds(s, out);
    while i < |s|
      invariant i <= |s| && UnescapedTo(s, i, out)
    {
      var piece, n := UnescapeRound(s, i);
      UnescapedToNext(s, i, out);
      out := out + piece;
      i := i + n;
    }
    UnescapedToEnds(s, out);
  }

  /** The \u case of json_unescape at i. */
  method ReadUnicode(s: Bytes, i: nat) returns (code: int, n: nat)
    requires i + 6 <= |s|
    ensures (code, n) == Unicode(s[i..]) && 0 <= code < 0x110000
  {
    assert s[i..][2..] == s[i + 2..] && s[i..][6..] == s[i + 6..];
    code, n := Hex4(s[i + 2..]), 6;
    if 0xD800 <= code <= 0xDBFF {
      var lo := 0;
      if i + 11 < |s| && s[i + 6] == BACKSLASH && s[i + 7] == LOWER_U {
        assert s[i + 6..][2..] == s[i + 8..];
        lo := Hex4(s[i + 8..]);
      }
      if 0xDC00 <= lo <= 0xDFFF {
        code, n := 0x10000 + (code - 0xD800) * 0x400 + (lo - 0xDC00), 12;
      } else {
        code := 0xFFFD;
      }
    } else if 0xDC00 <= code <= 0xDFFF {
      code := 0xFFFD;
    }
  }

  // ----- The round trip -----

  lemma UnescapeByte(c: byte, rest: Bytes)
    requires c != BACKSLASH
    ensures Unescape([c] + rest) == [c] + Unescape(rest)
  {
    assert ([c] + rest)[1..] == rest;
  }

  /** Bytes that are no backslash come back one by one. */
  lemma {:induction false} UnescapePlain(u: Bytes, rest: Bytes)
    requires forall i :: 0 <= i < |u| ==> u[i] != BACKSLASH
    ensures Unescape(u + rest) == u + Unescape(rest)
  {
    if u == [] {
      assert u + rest == rest;
    } else {
      UnescapePlain(u[1..], rest);
      UnescapeByte(u[0], u[1..] + rest);
      ConsJoin(u, rest);
      ConsJoin(u, Unescape(rest));
    }
  }

  /** A \u escape of four digits that is no surrogate. */
  lemma UnescapeUnicode(e: Bytes, rest: Bytes, c: int)
    requires |e| == 6 && e[0] == BACKSLASH && e[1] == LOWER_U && Hex4(e[2..]) == c && IsScalar(c)
    ensures Unescape(e + rest) == Encode(c) + Unescape(rest)
  {
    var s := e + rest;
    assert s[2..][..4] == e[2..];
    assert Hex4(s[2..]) == c;
    assert s[6..] == rest;
  }

  lemma UnescapeShort(c: byte, rest: Bytes)
    requires ShortEscape(c) >= 0
    ensures Unescape([BACKSLASH, ShortEscape(c)] + rest) == [c] + Unescape(rest)
  {
    var s: Bytes := [BACKSLASH, ShortEscape(c)] + rest;
    assert s[2..] == rest;
    assert UnescapeStep(s) == ([c], 2);
  }

  lemma UnescapeControl(c: byte, rest: Bytes)
    requires c < 0x20
    ensures Unescape([BACKSLASH, LOWER_U, 0x30, 0x30, HexDigit(c / 16), HexDigit(c % 16)] + rest) == [c] + Unescape(rest)
  {
    var e: Bytes := [BACKSLASH, LOWER_U, 0x30, 0x30, HexDigit(c / 16), HexDigit(c % 16)];
    assert Hex4(e[2..]) == c;
    UnescapeUnicode(e, rest, c);
  }

  lemma UnescapeInvalid(rest: Bytes)
    ensures Unescape([BACKSLASH, LOWER_U, 0x66, 0x66, 0x66, 0x64] + rest) == REPLACEMENT + Unescape(rest)
  {
    var e: Bytes := [BACKSLASH, LOWER_U, 0x66, 0x66, 0x66, 0x64];
    assert Hex4(e[2..]) == 0xFFFD;
    UnescapeUnicode(e, rest, 0xFFFD);
  }

  /** What one unit is escaped to unescapes to what it is sanitized to. */
  lemma UnescapeEscaped(s: Bytes, rest: Bytes)
    requires s != []
    ensures Unescape(Escaped(s) + rest) == Sane(s) + Unescape(rest)
  {
    var c, e := s[0], Escaped(s);
    if c >= 0x80 {
      if Utf8Len(s) == 0 {
        UnescapeInvalid(rest);
      } else {
        UnescapePlain(e, rest);
      }
    } else if ShortEscape(c) >= 0 {
      UnescapeShort(c, rest);
    } else if c < 0x20 {
      UnescapeControl(c, rest);
    } else {
      UnescapePlain(e, rest);
    }
  }

  /** For every byte string: unescaping what escape made gives the text sanitized. */
  lemma {:induction false} RoundTrip(s: Bytes)
    ensures Unescape(Escape(s)) == Sanitize(s)
  {
    if s != [] {
      RoundTrip(s[Unit(s)..]);
      UnescapeEscaped(s, Escape(s[Unit(s)..]));
    }
  }

  /** Text that is already UTF-8 comes back as it was. */
  lemma RoundTripExact(s: Bytes)
    ensures Unescape(Escape(s)) == s <==> WellFormed(s)
  {
    RoundTrip(s);
    SanitizeIsIdentity(s);
  }

  // ----- What stands between the quotes -----

  /** Scanning i bytes of contents: past escapes, not on a bare quote. */
  function CloseQuote(s: Bytes, i: nat): (c: nat)
    ensures i <= c
    decreases |s| - i
  {
    if i >= |s| then i
    else if s[i] == BACKSLASH then CloseQuote(s, i + 2)
    else if s[i] == QUOTE then i
    else CloseQuote(s, i + 1)
  }

  /** A run of bytes that are neither quote nor backslash is passed over. */
  lemma {:induction false} ScanPlain(s: Bytes, i: nat, n: nat)
    requires i + n <= |s| && forall k :: i <= k < i + n ==> s[k] != QUOTE && s[k] != BACKSLASH
    ensures CloseQuote(s, i) == CloseQuote(s, i + n)
    decreases n
  {
    if n > 0 {
      ScanPlain(s, i + 1, n - 1);
    }
  }

  lemma ScanEscaped(u: Bytes, s: Bytes, i: nat)
    requires u != [] && i + |Escaped(u)| <= |s| && s[i..i + |Escaped(u)|] == Escaped(u)
    ensures CloseQuote(s, i) == CloseQuote(s, i + |Escaped(u)|)
  {
    var e := Escaped(u);
    assert forall k :: 0 <= k < |e| ==> s[i + k] == e[k];
    if e[0] == BACKSLASH {
      forall k | i + 2 <= k < i + |e|
        ensures s[k] != QUOTE && s[k] != BACKSLASH
      {
        assert s[k] == e[k - i];
      }
      ScanPlain(s, i + 2, |e| - 2);
    } else {
      forall k | i <= k < i + |e|
        ensures s[k] != QUOTE && s[k] != BACKSLASH
      {
        assert s[k] == e[k - i];
      }
      ScanPlain(s, i, |e|);
    }
  }

  lemma TwoParts(s: Bytes, i: nat, a: Bytes, b: Bytes)
    requires i + |a + b| <= |s| && s[i..i + |a + b|] == a + b
    ensures s[i..i + |a|] == a && s[i + |a|..i + |a| + |b|] == b
  {
    var all := s[i..i + |a + b|];
    assert all[..|a|] == a && all[|a|..] == b;
    assert all[..|a|] == s[i..i + |a|] && all[|a|..] == s[i + |a|..i + |a| + |b|];
  }

  /** The closing quote of escaped contents is the one after them. */
  lemma {:induction false} ScanStops(p: Bytes, s: Bytes, i: nat)
    requires i + |Escape(p)| < |s| && s[i..i + |Escape(p)|] == Escape(p) && s[i + |Escape(p)|] == QUOTE
    ensures CloseQuote(s, i) == i + |Escape(p)|
    decreases |p|
  {
    if p != [] {
      var e, rest := Escaped(p), p[Unit(p)..];
      TwoParts(s, i, e, Escape(rest));
      ScanEscaped(p, s, i);
      ScanStops(rest, s, i + |e|);
    }
  }
}
