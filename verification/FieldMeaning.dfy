/** json_get_string on objects written with blanks between their parts. */
module FieldMeaning {
  import opened Common
  import opened JsonText
  import opened JsonField

  /** The insignificant whitespace of section 2 of RFC 8259: blank, tab, line feed, carriage return. */
  predicate White(c: byte) {
    c as char == ' ' || c as char == '\t' || c as char == '\n' || c as char == '\r'
  }

  lemma BlankIs(c: byte)
    ensures Blank(c) <==> White(c)
  {
  }

  /** From a to b nothing but whitespace. */
  predicate WhiteFrom(body: Bytes, a: nat, b: nat) {
    a <= b <= |body| && forall i :: a <= i < b ==> White(body[i])
  }

  lemma WhiteIs(body: Bytes, a: nat, b: nat, i: nat)
    requires WhiteFrom(body, a, b) && a <= i < b
    ensures Blank(body[i]) && body[i] != QUOTE && body[i] != OPEN
  {
    BlankIs(body[i]);
  }

  /** Nothing but whitespace is skipped, and all of it. */
  lemma SkippedTo(body: Bytes, a: nat, b: nat)
    requires WhiteFrom(body, a, b) && b < |body| && (body[b] == COLON || body[b] == QUOTE)
    ensures SkipBlank(body, a) == b
  {
    var r := SkipBlank(body, a);
    if r < b {
      WhiteIs(body, a, b, r);
    }
  }

  lemma TrimmedTo(body: Bytes, a: nat, b: nat)
    requires WhiteFrom(body, a + 1, b) && body[a] == OPEN
    ensures TrimBlank(body, b) == a + 1
  {
    var r := TrimBlank(body, b);
    assert r > 0 ==> !Blank(body[r - 1]);
  }

  lemma OccursQuote(body: Bytes, key: Bytes, i: nat)
    requires Occurs(body, Needle(key), i)
    ensures i < |body| && body[i] == QUOTE
  {
    assert body[i] == body[i..i + |Needle(key)|][0];
  }

  lemma {:induction false} NoneBefore(body: Bytes, key: Bytes, i: nat, k: nat)
    requires i <= k < |body| && KeyAt(body, key, k) && forall j :: i <= j < k ==> body[j] != QUOTE
    ensures FirstKey(body, key, i) == Some(k)
    decreases k - i
  {
    if i < k {
      if Occurs(body, Needle(key), i) {
        OccursQuote(body, key, i);
      }
      NoneBefore(body, key, i + 1, k);
    }
  }

  /** Where the parts of a first member stand: brace at a, key at k, colon at c, the text's quotes at o and e. */
  datatype Places = Places(a: nat, k: nat, c: nat, o: nat, e: nat)

  predicate StandsAt(body: Bytes, key: Bytes, text: Bytes, p: Places) {
    && WhiteFrom(body, 0, p.a) && p.a < |body| && body[p.a] == 0x7B && WhiteFrom(body, p.a + 1, p.k)
    && Occurs(body, [0x22] + key + [0x22], p.k) && WhiteFrom(body, p.k + |key| + 2, p.c)
    && p.c < |body| && body[p.c] == 0x3A && WhiteFrom(body, p.c + 1, p.o)
    && p.o < |body| && body[p.o] == 0x22 && p.e == p.o + 1 + |text| < |body| && body[p.o + 1..p.e] == text && body[p.e] == 0x22
  }

  lemma NoQuoteBefore(body: Bytes, a: nat, k: nat, j: nat)
    requires WhiteFrom(body, 0, a) && a < |body| && body[a] == OPEN && WhiteFrom(body, a + 1, k) && j < k
    ensures body[j] != QUOTE
  {
    if j < a {
      WhiteIs(body, 0, a, j);
    } else if j > a {
      WhiteIs(body, a + 1, k, j);
    }
  }

  lemma IsKey(body: Bytes, key: Bytes, a: nat, k: nat, c: nat)
    requires a < |body| && body[a] == OPEN && WhiteFrom(body, a + 1, k) && Occurs(body, Needle(key), k)
    requires WhiteFrom(body, k + |key| + 2, c) && c < |body| && body[c] == COLON
    ensures KeyAt(body, key, k) && SkipBlank(body, k + |key| + 2) == c
  {
    SkippedTo(body, k + |key| + 2, c);
    TrimmedTo(body, a, k);
  }

  lemma KeyFound(body: Bytes, key: Bytes, text: Bytes, p: Places)
    requires StandsAt(body, key, text, p)
    ensures FirstKey(body, key, 0) == Some(p.k) && SkipBlank(body, p.k + |key| + 2) == p.c
  {
    IsKey(body, key, p.a, p.k, p.c);
    forall j: nat | j < p.k
      ensures body[j] != QUOTE
    {
      NoQuoteBefore(body, p.a, p.k, j);
    }
    NoneBefore(body, key, 0, p.k);
  }

  lemma ValueAt(body: Bytes, c: nat, o: nat, e: nat)
    requires c < |body| && SkipBlank(body, c + 1) == o < |body| && body[o] == QUOTE && CloseQuote(body, o + 1) == e < |body|
    ensures Value(body, c) == Some(body[o + 1..e])
  {
  }

  /**
   However an object's first member is spaced, whatever the bytes of its text and whatever
   comes after it, it is found by its key and read as it was meant.
   */
  lemma SpacedFound(body: Bytes, key: Bytes, secret: Bytes, p: Places)
    requires StandsAt(body, key, Escape(secret), p)
    ensures GetString(body, key) == Some(Sanitize(secret))
  {
    KeyFound(body, key, Escape(secret), p);
    TextFound(body, secret, p.c, p.o, p.e);
    RawIs(body, key, p.k, p.c, Escape(secret));
    RoundTrip(secret);
  }

  lemma RawIs(body: Bytes, key: Bytes, k: nat, c: nat, raw: Bytes)
    requires FirstKey(body, key, 0) == Some(k) && SkipBlank(body, k + |key| + 2) == c && Value(body, c) == Some(raw)
    ensures GetString(body, key) == Some(Unescape(raw))
  {
    RawOf(body, key, FirstKey(body, key, 0), c, Value(body, c));
  }

  lemma RawOf(body: Bytes, key: Bytes, k: Option<nat>, c: nat, raw: Option<Bytes>)
    requires k.Some? && k.value + |key| + 2 <= |body| && SkipBlank(body, k.value + |key| + 2) == c && Value(body, c) == raw
    ensures RawAt(body, key, k) == raw
  {
  }

  lemma TextFound(body: Bytes, secret: Bytes, c: nat, o: nat, e: nat)
    requires c < |body| && WhiteFrom(body, c + 1, o) && o < |body| && body[o] == QUOTE
    requires e == o + 1 + |Escape(secret)| < |body| && body[o + 1..e] == Escape(secret) && body[e] == QUOTE
    ensures Value(body, c) == Some(Escape(secret))
  {
    SkippedTo(body, c + 1, o);
    ScanStops(secret, body, o + 1);
    ValueAt(body, c, o, e);
  }
}
