/**
 * What a mail reader shows of a header header_text made: it decodes the encoded words among
 * the blank-delimited tokens (sections 5 and 6 of RFC 2047), whatever charsets and encodings
 * it knows besides the words header_text writes.
 */
module HeaderReader {
  import opened Common
  import opened JsonText
  import opened Base64Text
  import opened HeaderText

  /** What a token is decoded to; None for one that is no encoded word to the reader. */
  type Reader = Bytes -> Option<Bytes>

  predicate LooksLikeWord(t: Bytes) {
    |t| >= 4 && t[0] == EQUALS && t[1] == QUERY && t[|t| - 2] == QUERY && t[|t| - 1] == EQUALS
  }

  /** It reads the words header_text writes, takes nothing else for a word, and a word is longer than its text. */
  ghost predicate IsReader(read: Reader) {
    && (forall c: Bytes :: c != [] && WellFormed(c) && |Word(c)| <= WORD_MAX ==> read(Word(c)) == Some(c))
    && (forall t: Bytes :: read(t).Some? ==> LooksLikeWord(t) && |read(t).value| < |t|)
  }

  // ----- Tokens -----

  function BlankLen(h: Bytes): (n: nat)
    ensures n <= |h| && (forall i :: 0 <= i < n ==> h[i] == SPACE) && (n < |h| ==> h[n] != SPACE)
  {
    if h == [] || h[0] != SPACE then 0 else 1 + BlankLen(h[1..])
  }

  function TokenLen(h: Bytes): (n: nat)
    ensures n <= |h| && (forall i :: 0 <= i < n ==> h[i] != SPACE) && (n < |h| ==> h[n] == SPACE)
  {
    if h == [] || h[0] == SPACE then 0 else 1 + TokenLen(h[1..])
  }

  function Tokens(h: Bytes): seq<Bytes> {
    if h == [] then []
    else if h[0] == SPACE then Tokens(h[BlankLen(h)..])
    else [h[..TokenLen(h)]] + Tokens(h[TokenLen(h)..])
  }

  ghost predicate HasWord(read: Reader, h: Bytes) {
    exists t :: t in Tokens(h) && read(t).Some?
  }

  predicate StartsWithWord(read: Reader, h: Bytes) {
    h != [] && h[0] != SPACE && read(h[..TokenLen(h)]).Some?
  }

  /** The words decoded, the blanks between two of them dropped, everything else as it is; word: a word stands just before. */
  function Show(read: Reader, h: Bytes, word: bool): Bytes {
    if h == [] then []
    else if h[0] == SPACE then
      var b := BlankLen(h);
      if word && StartsWithWord(read, h[b..]) then Show(read, h[b..], true)
      else h[..b] + Show(read, h[b..], false)
    else
      var n := TokenLen(h);
      var w := read(h[..n]);
      if w.Some? then w.value + Show(read, h[n..], true) else h[..n] + Show(read, h[n..], false)
  }

  function Shown(read: Reader, h: Bytes): Bytes {
    Show(read, h, false)
  }

  lemma FirstToken(read: Reader, h: Bytes)
    ensures StartsWithWord(read, h) ==> HasWord(read, h)
  {
    if StartsWithWord(read, h) {
      assert h[..TokenLen(h)] in Tokens(h);
    }
  }

  /** As it is, or shorter where there are words. */
  ghost predicate OrShorter(read: Reader, h: Bytes, shown: Bytes) {
    if HasWord(read, h) then |shown| < |h| else shown == h
  }

  lemma BlankOrShorter(read: Reader, h: Bytes, word: bool)
    requires h != [] && h[0] == SPACE
    requires forall w :: OrShorter(read, h[BlankLen(h)..], Show(read, h[BlankLen(h)..], w))
    ensures OrShorter(read, h, Show(read, h, word))
  {
    var rest := h[BlankLen(h)..];
    FirstToken(read, rest);
    assert Tokens(h) == Tokens(rest);
    assert h[..BlankLen(h)] + rest == h;
    assert OrShorter(read, rest, Show(read, rest, true)) && OrShorter(read, rest, Show(read, rest, false));
  }

  lemma TokenOrShorter(read: Reader, h: Bytes, word: bool)
    requires IsReader(read) && h != [] && h[0] != SPACE
    requires forall w :: OrShorter(read, h[TokenLen(h)..], Show(read, h[TokenLen(h)..], w))
    ensures OrShorter(read, h, Show(read, h, word))
  {
    var t, rest := h[..TokenLen(h)], h[TokenLen(h)..];
    assert Tokens(h) == [t] + Tokens(rest);
    assert t + rest == h;
    assert HasWord(read, h) <==> read(t).Some? || HasWord(read, rest);
    assert OrShorter(read, rest, Show(read, rest, true)) && OrShorter(read, rest, Show(read, rest, false));
  }

  /** A header without words is shown as it is, one with words shorter. */
  lemma {:induction false} ShownOrShorter(read: Reader, h: Bytes, word: bool)
    requires IsReader(read)
    ensures OrShorter(read, h, Show(read, h, word))
    decreases |h|
  {
    if h != [] {
      var n := if h[0] == SPACE then BlankLen(h) else TokenLen(h);
      forall w
        ensures OrShorter(read, h[n..], Show(read, h[n..], w))
      {
        ShownOrShorter(read, h[n..], w);
      }
      if h[0] == SPACE {
        BlankOrShorter(read, h, word);
      } else {
        TokenOrShorter(read, h, word);
      }
    }
  }

  // ----- Words of text -----

  lemma WordHasNoBlank(chunk: Bytes)
    ensures forall i :: 0 <= i < |Word(chunk)| ==> Word(chunk)[i] != SPACE
  {
    Base64Chars(chunk);
  }

  lemma {:induction false} TokenIs(t: Bytes, rest: Bytes)
    requires (forall i :: 0 <= i < |t| ==> t[i] != SPACE) && (rest == [] || rest[0] == SPACE)
    ensures TokenLen(t + rest) == |t|
  {
    if t == [] {
      assert t + rest == rest;
    } else {
      assert (t + rest)[1..] == t[1..] + rest;
      TokenIs(t[1..], rest);
    }
  }

  /** A word at the front is decoded. */
  lemma ShowWord(read: Reader, chunk: Bytes, rest: Bytes, word: bool)
    requires read(Word(chunk)) == Some(chunk) && (rest == [] || rest[0] == SPACE)
    ensures Show(read, Word(chunk) + rest, word) == chunk + Show(read, rest, true)
    ensures StartsWithWord(read, Word(chunk) + rest)
  {
    var w := Word(chunk);
    WordHasNoBlank(chunk);
    TokenIs(w, rest);
    assert (w + rest)[..|w|] == w && (w + rest)[|w|..] == rest;
  }

  /** A blank between two words is dropped. */
  lemma ShowGap(read: Reader, h: Bytes)
    requires StartsWithWord(read, h)
    ensures Show(read, [SPACE] + h, true) == Show(read, h, true)
  {
    assert ([SPACE] + h)[1..] == h;
    assert BlankLen([SPACE] + h) == 1 + BlankLen(h);
  }

  lemma {:induction false} JoinShown(read: Reader, chunks: seq<Bytes>, word: bool)
    requires chunks != [] && forall c :: c in chunks ==> read(Word(c)) == Some(c)
    ensures Show(read, Join(chunks), word) == Concat(chunks) && StartsWithWord(read, Join(chunks))
    decreases |chunks|
  {
    var c := chunks[0];
    if |chunks| == 1 {
      ShowWord(read, c, [], word);
      assert Word(c) + [] == Word(c) && Concat(chunks[1..]) == [] && c + [] == c;
    } else {
      var tail := Join(chunks[1..]);
      JoinShown(read, chunks[1..], true);
      ShowGap(read, tail);
      ShowWord(read, c, [SPACE] + tail, word);
      assert Word(c) + ([SPACE] + tail) == Join(chunks);
    }
  }

  /** Text that is not ASCII is shown as UTF-8 by every reader, from words of at most 75 characters, none with part of a character. */
  lemma TextIsRead(read: Reader, s: Bytes)
    requires IsReader(read) && !Ascii(Value(s))
    ensures Shown(read, Header(s)) == Sanitize(Value(s))
    ensures forall c :: c in Chunks(Sanitize(Value(s))) ==> c != [] && WellFormed(c) && |Word(c)| <= WORD_MAX
  {
    var text := Sanitize(Value(s));
    SanitizeIsWellFormed(Value(s));
    var cs: seq<int> :| AllScalar(cs) && text == EncodeAll(cs);
    WordsOfText(cs);
    ChunksWhole(text);
    SanitizeNotEmpty(Value(s));
    JoinShown(read, Chunks(text), false);
  }

  lemma SanitizeNotEmpty(s: Bytes)
    requires s != []
    ensures Sanitize(s) != []
  {
    assert |Sane(s)| > 0;
  }

  // ----- What is shown -----

  /**
   * Every reader shows the text that was meant, its control characters as blanks, if and only
   * if it was not ASCII or none of its blank-delimited tokens is an encoded word to the reader:
   * ASCII text is sent as it is.
   */
  lemma ShownAsMeant(read: Reader, s: Bytes)
    requires IsReader(read)
    ensures Shown(read, Header(s)) == Sanitize(Value(s)) <==> !Ascii(Value(s)) || !HasWord(read, Value(s))
  {
    if Ascii(Value(s)) {
      AsciiIsSane(Value(s));
      ShownOrShorter(read, Value(s), false);
    } else {
      TextIsRead(read, s);
    }
  }

  /** A token that is no word is shown as it is. */
  lemma ShowToken(read: Reader, name: Bytes, rest: Bytes)
    requires name != [] && (forall i :: 0 <= i < |name| ==> name[i] != SPACE) && read(name).None?
    requires rest == [] || rest[0] == SPACE
    ensures Show(read, name + rest, false) == name + Show(read, rest, false)
  {
    TokenIs(name, rest);
    assert (name + rest)[..|name|] == name && (name + rest)[|name|..] == rest;
  }

  lemma ShowBlank(read: Reader, h: Bytes)
    requires h != [] && h[0] != SPACE
    ensures Show(read, [SPACE] + h, false) == [SPACE] + Show(read, h, false)
  {
    var s := [SPACE] + h;
    assert s[1..] == h;
    assert BlankLen(s) == 1;
    assert s[..1] == [SPACE];
  }

  /** What a caller of header_text puts before the text: one token of printable characters, and a blank. */
  predicate IsPrefix(name: Bytes) {
    name != [] && !LooksLikeWord(name) && forall i :: 0 <= i < |name| ==> 0x20 < name[i] < 0x7F
  }

  lemma SentAsItIs(name: Bytes, chunk: Bytes)
    requires IsPrefix(name)
    ensures Header(name + ([SPACE] + Word(chunk))) == name + ([SPACE] + Word(chunk))
  {
    var w := Word(chunk);
    var s := name + ([SPACE] + w);
    JoinPrintable([chunk]);
    assert Join([chunk]) == w;
    forall i | 0 <= i < |s|
      ensures 0x20 <= s[i] < 0x7F
    {
    }
    assert Value(s) == s;
  }

  /** After such a prefix, a rule named like a word is shown as the text of the word. */
  lemma LookalikeMisread(read: Reader, name: Bytes, chunk: Bytes)
    requires IsReader(read) && IsPrefix(name) && chunk != [] && WellFormed(chunk) && |Word(chunk)| <= WORD_MAX
    ensures var s := name + ([SPACE] + Word(chunk)); Header(s) == s && Shown(read, s) == name + ([SPACE] + chunk)
    ensures |chunk| < |Word(chunk)|
  {
    var w := Word(chunk);
    SentAsItIs(name, chunk);
    ShowToken(read, name, [SPACE] + w);
    ShowBlank(read, w);
    ShowWord(read, chunk, [], false);
    assert w + [] == w && chunk + [] == chunk;
  }

  lemma AsciiIsText(s: Bytes)
    requires Ascii(s)
    ensures WellFormed(s)
  {
    AsciiIsSane(s);
    SanitizeIsIdentity(s);
  }

  lemma WordOfA()
    ensures Word([0x41]) == PREFIX + [0x51, 0x51, 0x3D, 0x3D, 0x3F, 0x3D]
  {
    assert Group([0x41]) == [0x51, 0x51, 0x3D, 0x3D];
  }

  const BUDYK: Bytes := [0x62, 0x75, 0x64, 0x79, 0x6B, 0x3A]   // "budyk:", as ntfy_headers begins

  /** The header "budyk: =?UTF-8?B?QQ==?=" is shown as "budyk: A". */
  lemma BudykLookalike(read: Reader)
    requires IsReader(read)
    ensures var a: Bytes := [0x41]; var s := BUDYK + ([SPACE] + Word(a));
      Header(s) == s && Shown(read, s) == BUDYK + ([SPACE] + a) &&
      Word(a) == PREFIX + [0x51, 0x51, 0x3D, 0x3D, 0x3F, 0x3D]
  {
    var a: Bytes := [0x41];
    AIsChunk(a);
    BudykIsPrefix(BUDYK);
    LookalikeMisread(read, BUDYK, a);
    WordOfA();
  }

  lemma AIsChunk(a: Bytes)
    requires a == [0x41]
    ensures WellFormed(a) && |Word(a)| <= WORD_MAX
  {
    AsciiIsText(a);
    WordOfA();
  }

  lemma BudykIsPrefix(b: Bytes)
    requires b == BUDYK
    ensures IsPrefix(b)
  {
  }

  // ----- One reader -----

  function Lower(c: byte): byte {
    if 0x41 <= c <= 0x5A then c + 0x20 else c
  }

  /** =?UTF-8?B?, in any case (section 2 of RFC 2047). */
  predicate Begins(t: Bytes) {
    |t| >= |PREFIX| && forall i :: 0 <= i < |PREFIX| ==> Lower(t[i]) == Lower(PREFIX[i])
  }

  /** A reader that knows UTF-8 in base64 only. */
  function ReadUtf8(t: Bytes): Option<Bytes> {
    if |t| < |PREFIX| + 2 || !Begins(t) || !LooksLikeWord(t) || QUERY in t[|PREFIX|..|t| - 2] then None
    else Unbase64(t[|PREFIX|..|t| - 2])
  }

  lemma WordParts(c: Bytes)
    ensures var w := Word(c); |w| == |PREFIX| + |Base64(c)| + 2 && w[|PREFIX|..|w| - 2] == Base64(c) && Begins(w)
  {
    var w, b := Word(c), Base64(c);
    assert w == PREFIX + b + [QUERY, EQUALS];
    assert forall i :: 0 <= i < |PREFIX| ==> w[i] == PREFIX[i];
  }

  lemma ReadsWord(c: Bytes)
    ensures ReadUtf8(Word(c)) == Some(c)
  {
    WordParts(c);
    Base64Chars(c);
    Base64RoundTrip(c);
  }

  lemma Utf8Reader()
    ensures IsReader(ReadUtf8)
  {
    forall c: Bytes | c != [] && WellFormed(c) && |Word(c)| <= WORD_MAX
      ensures ReadUtf8(Word(c)) == Some(c)
    {
      ReadsWord(c);
    }
    forall t: Bytes | ReadUtf8(t).Some?
      ensures LooksLikeWord(t) && |ReadUtf8(t).value| < |t|
    {
      UnbaseShrinks(t[|PREFIX|..|t| - 2]);
    }
  }

  lemma {:induction false} UnbaseShrinks(t: Bytes)
    ensures var r := Unbase64(t); r.Some? ==> |r.value| <= |t|
  {
    if |t| >= 4 {
      UnbaseShrinks(t[4..]);
    }
  }
}
