/** Mail and push headers: values on one line, text as encoded words (RFC 2047), bodies with SMTP's line ends. */
module HeaderText {
  import opened JsonText
  import opened Base64Text

  const SPACE: byte := 0x20

  // ----- header_value -----

  function Plain(c: byte): byte {
    if c < 0x20 || c == 0x7F then SPACE else c
  }

  function Value(s: Bytes): (v: Bytes)
    ensures |v| == |s| && forall i :: 0 <= i < |s| ==> v[i] == Plain(s[i])
  {
    seq(|s|, i requires 0 <= i < |s| => Plain(s[i]))
  }

  method HeaderValue(s: Bytes) returns (v: Bytes)
    ensures v == Value(s)
  {
    v := s;
    var i := 0;
    while i < |v|
      invariant 0 <= i <= |v| == |s|
      invariant forall k :: 0 <= k < |s| ==> v[k] == if k < i then Plain(s[k]) else s[k]
    {
      v := v[i := Plain(v[i])];
      i := i + 1;
    }
  }

  // ----- Words split between characters -----

  const WORD_BYTES: nat := 45
  const WORD_MAX: nat := 75
  const PREFIX: Bytes := [0x3D, 0x3F, 0x55, 0x54, 0x46, 0x2D, 0x38, 0x3F, 0x42, 0x3F]   // =?UTF-8?B?

  /** A continuation byte, 10xxxxxx. */
  predicate Inside(c: byte) {
    0x80 <= c < 0xC0
  }

  function Back(text: Bytes, n: nat): (r: nat)
    requires n <= |text|
    ensures r <= n && (n >= 1 ==> r >= 1)
    ensures r <= 1 || r == |text| || !Inside(text[r])
  {
    if n > 1 && n < |text| && Inside(text[n]) then Back(text, n - 1) else n
  }

  function ChunkLen(text: Bytes): (n: nat)
    requires text != []
    ensures 1 <= n <= |text| && n <= WORD_BYTES
  {
    Back(text, if |text| < WORD_BYTES then |text| else WORD_BYTES)
  }

  function Chunks(text: Bytes): seq<Bytes> {
    if text == [] then [] else [text[..ChunkLen(text)]] + Chunks(text[ChunkLen(text)..])
  }

  function Word(chunk: Bytes): Bytes {
    PREFIX + Base64(chunk) + [QUERY, EQUALS]
  }

  function Join(chunks: seq<Bytes>): Bytes {
    if chunks == [] then []
    else if |chunks| == 1 then Word(chunks[0])
    else Word(chunks[0]) + [SPACE] + Join(chunks[1..])
  }

  predicate Ascii(s: Bytes) {
    forall i :: 0 <= i < |s| ==> s[i] < 0x80
  }

  /** What header_text makes of a text. */
  function Header(s: Bytes): Bytes {
    if Ascii(Value(s)) then Value(s) else Join(Chunks(Sanitize(Value(s))))
  }

  function Concat(chunks: seq<Bytes>): Bytes {
    if chunks == [] then [] else chunks[0] + Concat(chunks[1..])
  }

  lemma {:induction false} ChunksWhole(text: Bytes)
    ensures Concat(Chunks(text)) == text
    decreases |text|
  {
    if text != [] {
      var n := ChunkLen(text);
      ChunksWhole(text[n..]);
      assert Chunks(text)[1..] == Chunks(text[n..]);
      assert text[..n] + text[n..] == text;
    }
  }

  /** In UTF-8 every place that is not inside a character is between two. */
  lemma {:induction false} Between(cs: seq<int>, n: nat) returns (k: nat)
    requires AllScalar(cs) && n <= |EncodeAll(cs)| && (n == |EncodeAll(cs)| || !Inside(EncodeAll(cs)[n]))
    ensures k <= |cs| && EncodeAll(cs)[..n] == EncodeAll(cs[..k]) && EncodeAll(cs)[n..] == EncodeAll(cs[k..])
    decreases |cs|
  {
    var text := EncodeAll(cs);
    if n == 0 {
      k := 0;
      assert cs[0..] == cs && text[0..] == text && cs[..0] == [];
    } else {
      var e, rest := Encode(cs[0]), EncodeAll(cs[1..]);
      assert text == e + rest;
      assert n >= |e| && n < |text| ==> text[n] == rest[n - |e|];
      k := Between(cs[1..], n - |e|);
      CutAfter(e, rest, n);
      assert cs[..k + 1][1..] == cs[1..][..k] && cs[1..][k..] == cs[k + 1..];
      k := k + 1;
    }
  }

  lemma CutAfter(e: Bytes, rest: Bytes, n: nat)
    requires |e| <= n <= |e| + |rest|
    ensures (e + rest)[..n] == e + rest[..n - |e|] && (e + rest)[n..] == rest[n - |e|..]
  {
  }

  /** Going back ends no earlier than at the last place between characters. */
  lemma {:induction false} BackStops(text: Bytes, n: nat, b: nat)
    requires 1 <= b <= n <= |text| && (b == |text| || !Inside(text[b]))
    ensures b <= Back(text, n)
    decreases n
  {
    if n > b {
      BackStops(text, n - 1, b);
    }
  }

  lemma FirstCharEnds(cs: seq<int>)
    requires AllScalar(cs) && cs != []
    ensures var b, text := |Encode(cs[0])|, EncodeAll(cs);
      1 <= b <= 4 && b <= |text| && (b == |text| || !Inside(text[b]))
  {
    var e, rest := Encode(cs[0]), EncodeAll(cs[1..]);
    if rest != [] {
      assert cs[1..] != [];
      assert EncodeAll(cs)[|e|] == rest[0];
    }
  }

  /** A chunk of UTF-8 ends between two characters. */
  lemma ChunkEnds(cs: seq<int>) returns (k: nat)
    requires AllScalar(cs) && cs != []
    ensures var text := EncodeAll(cs);
      text != [] && k <= |cs| && text[..ChunkLen(text)] == EncodeAll(cs[..k]) && text[ChunkLen(text)..] == EncodeAll(cs[k..])
  {
    var text := EncodeAll(cs);
    FirstCharEnds(cs);
    var n, b := if |text| < WORD_BYTES then |text| else WORD_BYTES, |Encode(cs[0])|;
    BackStops(text, n, b);
    k := Between(cs, ChunkLen(text));
  }

  /** Every word is short enough and UTF-8 of its own. */
  lemma {:induction false} WordsOfText(cs: seq<int>)
    requires AllScalar(cs)
    ensures forall c :: c in Chunks(EncodeAll(cs)) ==> WellFormed(c) && c != [] && |Word(c)| <= WORD_MAX
    decreases |EncodeAll(cs)|
  {
    if cs != [] {
      var text := EncodeAll(cs);
      var n := ChunkLen(text);
      var k := ChunkEnds(cs);
      assert WellFormed(text[..n]);
      Base64Length(text[..n]);
      WordsOfText(cs[k..]);
    }
  }

  lemma Associate(x: Bytes, y: Bytes, z: Bytes)
    ensures x + (y + z) == x + y + z
  {
  }

  lemma {:induction false} BaseJoin(s: Bytes, t: Bytes)
    requires |s| % 3 == 0
    ensures Base64(s + t) == Base64(s) + Base64(t)
    decreases |s|
  {
    if s == [] {
      assert s + t == t;
    } else {
      BaseJoin(s[3..], t);
      BaseFirst(s);
      BaseFirst(s + t);
      FirstThree(s, t);
      Associate(Group(s[..3]), Base64(s[3..]), Base64(t));
    }
  }

  lemma FirstThree(s: Bytes, t: Bytes)
    requires |s| >= 3
    ensures (s + t)[..3] == s[..3] && (s + t)[3..] == s[3..] + t
  {
  }

  lemma BaseFirst(s: Bytes)
    requires |s| >= 3
    ensures Base64(s) == Group(s[..3]) + Base64(s[3..])
  {
    if |s| == 3 {
      assert s[..3] == s;
    }
  }

  lemma BaseNext(chunk: Bytes, k: nat, m: nat)
    requires k % 3 == 0 && k < |chunk| && m == if |chunk| - k < 3 then |chunk| - k else 3
    ensures Base64(chunk[..k + m]) == Base64(chunk[..k]) + Group(chunk[k..k + m])
  {
    BaseJoin(chunk[..k], chunk[k..k + m]);
    assert chunk[..k] + chunk[k..k + m] == chunk[..k + m];
  }

  /** The bytes before k have been encoded. */
  ghost predicate CodedTo(chunk: Bytes, k: nat, b: Bytes) {
    k % 3 == 0 && b == if k < |chunk| then Base64(chunk[..k]) else Base64(chunk)
  }

  lemma CodedNext(chunk: Bytes, k: nat, b: Bytes, m: nat)
    requires CodedTo(chunk, k, b) && k < |chunk| && m == if |chunk| - k < 3 then |chunk| - k else 3
    ensures CodedTo(chunk, k + 3, b + Group(chunk[k..k + m]))
  {
    BaseNext(chunk, k, m);
    assert k + m == |chunk| ==> chunk[..k + m] == chunk;
  }

  /** The base64 loop over the n bytes from i on. */
  method EncodeWord(text: Bytes, i: nat, n: nat) returns (out: Bytes)
    requires i + n <= |text| && n > 0
    ensures out == Word(text[i..i + n])
  {
    var b: Bytes := [];
    var k := 0;
    var chunk := text[i..i + n];
    assert chunk[..0] == [];
    while k < n
      invariant 0 <= k && CodedTo(chunk, k, b)
    {
      var m := if n - k < 3 then n - k else 3;
      CodedNext(chunk, k, b, m);
      b := b + Group(chunk[k..k + m]);
      k := k + 3;
    }
    out := PREFIX + b + [QUERY, EQUALS];
  }

  lemma {:induction false} JoinNext(done: seq<Bytes>, c: Bytes)
    ensures Join(done + [c]) == if done == [] then Word(c) else Join(done) + [SPACE] + Word(c)
  {
    if |done| == 1 {
      assert (done + [c])[1..] == [c];
    } else if |done| > 1 {
      assert (done + [c])[1..] == done[1..] + [c];
      JoinNext(done[1..], c);
      assert Word(done[0]) + [SPACE] + (Join(done[1..]) + [SPACE] + Word(c)) ==
        Word(done[0]) + [SPACE] + Join(done[1..]) + [SPACE] + Word(c);
    }
  }

  lemma ChunksStep(text: Bytes, i: nat)
    requires i < |text|
    ensures var n := ChunkLen(text[i..]); Chunks(text[i..]) == [text[i..i + n]] + Chunks(text[i + n..])
  {
    SameChunk(text, i, ChunkLen(text[i..]));
  }

  lemma ChunksNext(all: seq<Bytes>, done: seq<Bytes>, c: Bytes, rest: seq<Bytes>, next: seq<Bytes>)
    requires all == done + rest && rest == [c] + next
    ensures all == (done + [c]) + next
  {
  }

  lemma SameChunk(text: Bytes, i: nat, n: nat)
    requires i + n <= |text|
    ensures text[i..][..n] == text[i..i + n] && text[i..][n..] == text[i + n..]
  {
  }

  method ChunkAt(text: Bytes, i: nat) returns (n: nat)
    requires i < |text|
    ensures n == ChunkLen(text[i..])
  {
    n := if |text| - i < WORD_BYTES then |text| - i else WORD_BYTES;
    ghost var rest := text[i..];
    while n > 1 && i + n < |text| && Inside(text[i + n])
      invariant 1 <= n <= |rest| && Back(rest, n) == ChunkLen(rest)
    {
      n := n - 1;
    }
  }

  /** The words of the chunks before i have been made. */
  ghost predicate MadeTo(text: Bytes, i: nat, done: seq<Bytes>, out: Bytes) {
    i <= |text| && Chunks(text) == done + Chunks(text[i..]) && out == Join(done) && (out == [] <==> done == [])
  }

  lemma MadeNext(text: Bytes, i: nat, done: seq<Bytes>, out: Bytes, n: nat)
    requires MadeTo(text, i, done, out) && i < |text| && n == ChunkLen(text[i..])
    ensures var c := text[i..i + n]; MadeTo(text, i + n, done + [c], (if out != [] then out + [SPACE] else out) + Word(c))
  {
    ChunksStep(text, i);
    ChunksNext(Chunks(text), done, text[i..i + n], Chunks(text[i..]), Chunks(text[i + n..]));
    JoinNext(done, text[i..i + n]);
  }

  lemma MadeEnd(text: Bytes, done: seq<Bytes>, out: Bytes)
    requires MadeTo(text, |text|, done, out)
    ensures out == Join(Chunks(text))
  {
    assert text[|text|..] == [] && Chunks([]) == [];
    assert done + [] == done;
  }

  method MakeWords(text: Bytes) returns (out: Bytes)
    ensures out == Join(Chunks(text))
  {
    out := [];
    var i := 0;
    ghost var done: seq<Bytes> := [];
    while i < |text|
      invariant i <= |text| && MadeTo(text, i, done, out)
    {
      var n := ChunkAt(text, i);
      MadeNext(text, i, done, out, n);
      var word := EncodeWord(text, i, n);
      if out != [] {
        out := out + [SPACE];
      }
      out := out + word;
      done := done + [text[i..i + n]];
      i := i + n;
    }
    MadeEnd(text, done, out);
  }

  /** header_text. */
  method MakeHeader(s: Bytes) returns (out: Bytes)
    ensures out == Header(s)
  {
    var v := HeaderValue(s);
    var ascii, j := true, 0;
    while j < |v| && ascii
      invariant 0 <= j <= |v| && (ascii ==> forall k :: 0 <= k < j ==> v[k] < 0x80) && (!ascii ==> !Ascii(v))
    {
      ascii := v[j] < 0x80;
      j := j + 1;
    }
    if ascii {
      return v;
    }
    var text := Utf8Sanitize(v);
    out := MakeWords(text);
  }

  // ----- What header_text promises -----

  /** A header is one line of printable ASCII, whatever the text. */
  lemma HeaderIsPrintable(s: Bytes)
    ensures forall i :: 0 <= i < |Header(s)| ==> 0x20 <= Header(s)[i] < 0x7F
  {
    if !Ascii(Value(s)) {
      JoinPrintable(Chunks(Sanitize(Value(s))));
    }
  }

  lemma {:induction false} JoinPrintable(chunks: seq<Bytes>)
    ensures forall i :: 0 <= i < |Join(chunks)| ==> 0x20 <= Join(chunks)[i] < 0x7F
  {
    if chunks != [] {
      Base64Chars(chunks[0]);
      JoinPrintable(chunks[1..]);
    }
  }

  lemma {:induction false} AsciiIsSane(s: Bytes)
    requires Ascii(s)
    ensures Sanitize(s) == s
  {
    if s != [] {
      AsciiIsSane(s[1..]);
      assert Sane(s) == [s[0]] && Unit(s) == 1;
    }
  }

  // ----- The line ends of a mail's body -----

  const CR: byte := 0x0D
  const LF: byte := 0x0A

  /** Every line end, CR, LF or both, as CR LF. */
  function Lines(s: Bytes): Bytes {
    if s == [] then []
    else if s[0] == CR then [CR, LF] + Lines(if |s| > 1 && s[1] == LF then s[2..] else s[1..])
    else if s[0] == LF then [CR, LF] + Lines(s[1..])
    else [s[0]] + Lines(s[1..])
  }

  predicate PairAt(s: Bytes, i: nat)
    requires i < |s|
  {
    (s[i] == CR ==> i + 1 < |s| && s[i + 1] == LF) && (s[i] == LF ==> i > 0 && s[i - 1] == CR)
  }

  /** CR and LF stand together or not at all. */
  predicate OnlyPairs(s: Bytes) {
    forall i: nat :: i < |s| ==> PairAt(s, i)
  }

  lemma PairsJoin(a: Bytes, s: Bytes)
    requires OnlyPairs(s) && (a == [CR, LF] || (|a| == 1 && a[0] != CR && a[0] != LF))
    ensures OnlyPairs(a + s)
  {
    forall i: nat | i < |a + s|
      ensures PairAt(a + s, i)
    {
      if i >= |a| {
        assert PairAt(s, i - |a|);
      }
    }
  }

  /** No bare CR or LF is left for a mail server to end the message at. */
  lemma {:induction false} LinesArePairs(s: Bytes)
    ensures OnlyPairs(Lines(s))
  {
    if s != [] {
      if s[0] == CR {
        var rest := if |s| > 1 && s[1] == LF then s[2..] else s[1..];
        LinesArePairs(rest);
        PairsJoin([CR, LF], Lines(rest));
      } else {
        LinesArePairs(s[1..]);
        PairsJoin(if s[0] == LF then [CR, LF] else [s[0]], Lines(s[1..]));
      }
    }
  }

  /** A body whose line ends are right already is left as it is, and only such a one. */
  lemma {:induction false} LinesLeave(s: Bytes)
    requires OnlyPairs(s)
    ensures Lines(s) == s
  {
    if s != [] {
      assert PairAt(s, 0);
      var rest := if s[0] == CR then s[2..] else s[1..];
      var k := |s| - |rest|;
      forall i: nat | i < |rest|
        ensures PairAt(rest, i)
      {
        assert PairAt(s, i + k) && PairAt(s, i + k - 1);
      }
      LinesLeave(rest);
    }
  }

  lemma LinesIff(s: Bytes)
    ensures Lines(s) == s <==> OnlyPairs(s)
    ensures Lines(Lines(s)) == Lines(s)
  {
    LinesArePairs(s);
    LinesLeave(Lines(s));
    if OnlyPairs(s) {
      LinesLeave(s);
    }
  }

  /** The loop of smtp_message over the body. */
  method BodyLines(body: Bytes) returns (out: Bytes)
    ensures out == Lines(body)
  {
    out := [];
    var i := 0;
    assert body[0..] == body;
    while i < |body|
      invariant 0 <= i <= |body| && out + Lines(body[i..]) == Lines(body)
    {
      LinesNext(body, i);
      ghost var next := i + if body[i] == CR && i + 1 < |body| && body[i + 1] == LF then 2 else 1;
      Joined(out, LinePiece(body[i]), Lines(body[i..]), Lines(body[next..]), Lines(body));
      if body[i] == CR {
        out := out + [CR, LF];
        if i + 1 < |body| && body[i + 1] == LF {
          i := i + 1;
        }
      } else if body[i] == LF {
        out := out + [CR, LF];
      } else {
        out := out + [body[i]];
      }
      i := i + 1;
    }
    assert body[i..] == [];
  }

  function LinePiece(c: byte): Bytes {
    if c == CR || c == LF then [CR, LF] else [c]
  }

  lemma LinesNext(body: Bytes, i: nat)
    requires i < |body|
    ensures var n := if body[i] == CR && i + 1 < |body| && body[i + 1] == LF then 2 else 1;
      Lines(body[i..]) == LinePiece(body[i]) + Lines(body[i + n..])
  {
    var s := body[i..];
    assert s[1..] == body[i + 1..] && (|s| > 1 ==> s[1] == body[i + 1] && s[2..] == body[i + 2..]);
  }
}
