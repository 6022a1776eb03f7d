/** json_get_string: one string member taken out of a request body without a JSON parser. */
module JsonField {
  import opened Common
  import opened JsonText

  const COLON: byte := 0x3A
  const COMMA: byte := 0x2C
  const OPEN: byte := 0x7B
  const CLOSE: byte := 0x7D

  predicate Blank(c: byte) {
    c == 0x20 || c == 0x09 || c == 0x0A || c == 0x0D
  }

  function Needle(key: Bytes): Bytes {
    [QUOTE] + key + [QUOTE]
  }

  predicate Occurs(body: Bytes, needle: Bytes, k: nat) {
    k + |needle| <= |body| && body[k..k + |needle|] == needle
  }

  /** The first byte from i on that is not blank. */
  function SkipBlank(body: Bytes, i: nat): (r: nat)
    requires i <= |body|
    ensures i <= r <= |body|
    ensures forall k :: i <= k < r ==> Blank(body[k])
    ensures r < |body| ==> !Blank(body[r])
    decreases |body| - i
  {
    if i < |body| && Blank(body[i]) then SkipBlank(body, i + 1) else i
  }

  /** The end of what is left of i without the blanks just before it. */
  function TrimBlank(body: Bytes, i: nat): (r: nat)
    requires i <= |body|
    ensures r <= i
    ensures forall k :: r <= k < i ==> Blank(body[k])
    ensures r > 0 ==> !Blank(body[r - 1])
  {
    if i > 0 && Blank(body[i - 1]) then TrimBlank(body, i - 1) else i
  }

  /** The quoted key stands at k where a key stands: after a brace, a comma or nothing, before a colon. */
  predicate KeyAt(body: Bytes, key: Bytes, k: nat) {
    Occurs(body, Needle(key), k) &&
    (var b := TrimBlank(body, k); b == 0 || body[b - 1] == OPEN || body[b - 1] == COMMA) &&
    (var a := SkipBlank(body, k + |key| + 2); a < |body| && body[a] == COLON)
  }

  function FirstKey(body: Bytes, key: Bytes, i: nat): (r: Option<nat>)
    ensures r.Some? ==> i <= r.value && r.value + |key| + 2 <= |body|
    decreases |body| - i
  {
    if i >= |body| then None
    else if KeyAt(body, key, i) then Some(i)
    else FirstKey(body, key, i + 1)
  }

  /** What stands in quotes after the colon at c. */
  function Value(body: Bytes, c: nat): Option<Bytes> {
    var open := if c < |body| then SkipBlank(body, c + 1) else c;
    if open >= |body| || body[open] != QUOTE then None
    else
      var close := CloseQuote(body, open + 1);
      if close >= |body| then None else Some(body[open + 1..close])
  }

  /** What the key found at k is said to be. */
  function RawAt(body: Bytes, key: Bytes, k: Option<nat>): Option<Bytes>
    requires k.Some? ==> k.value + |key| + 2 <= |body|
  {
    if k.None? then None else Value(body, SkipBlank(body, k.value + |key| + 2))
  }

  function RawFrom(body: Bytes, key: Bytes, i: nat): Option<Bytes> {
    RawAt(body, key, FirstKey(body, key, i))
  }

  function Unescaped(raw: Option<Bytes>): Option<Bytes> {
    if raw.None? then None else Some(Unescape(raw.value))
  }

  function GetString(body: Bytes, key: Bytes): Option<Bytes> {
    Unescaped(RawFrom(body, key, 0))
  }

  // ----- The scanning loops -----

  /** std::string::find. */
  method Find(body: Bytes, needle: Bytes, start: nat) returns (r: Option<nat>)
    ensures r.Some? ==> start <= r.value && Occurs(body, needle, r.value)
    ensures forall k :: start <= k < (if r.Some? then r.value else |body|) ==> !Occurs(body, needle, k)
  {
    var k := start;
    while k + |needle| <= |body|
      invariant start <= k
      invariant forall j :: start <= j < k ==> !Occurs(body, needle, j)
    {
      if body[k..k + |needle|] == needle {
        return Some(k);
      }
      k := k + 1;
    }
    r := None;
  }

  /** One occurrence of the needle looked at: is it a key, and where is its colon? */
  method ColonOf(body: Bytes, key: Bytes, kpos: nat) returns (colon: Option<nat>)
    requires Occurs(body, Needle(key), kpos)
    ensures colon.Some? <==> KeyAt(body, key, kpos)
    ensures colon.Some? ==> colon.value == SkipBlank(body, kpos + |key| + 2) < |body|
  {
    var before := kpos;
    while before > 0 && Blank(body[before - 1])
      invariant 0 <= before <= kpos && TrimBlank(body, before) == TrimBlank(body, kpos)
    {
      before := before - 1;
    }
    var after := kpos + |key| + 2;
    while after < |body| && Blank(body[after])
      invariant kpos + |key| + 2 <= after <= |body| && SkipBlank(body, after) == SkipBlank(body, kpos + |key| + 2)
    {
      after := after + 1;
    }
    if (before == 0 || body[before - 1] == OPEN || body[before - 1] == COMMA) && after < |body| && body[after] == COLON {
      colon := Some(after);
    } else {
      colon := None;
    }
  }

  lemma {:induction false} SkipTo(body: Bytes, key: Bytes, i: nat, j: nat)
    requires i <= j && forall k :: i <= k < j ==> !KeyAt(body, key, k)
    ensures FirstKey(body, key, i) == FirstKey(body, key, j)
    decreases j - i
  {
    if i < j {
      SkipTo(body, key, i + 1, j);
    }
  }

  /** The key-search loop. */
  method FindColon(body: Bytes, key: Bytes) returns (colon: Option<nat>)
    ensures var k := FirstKey(body, key, 0);
      if k.None? then colon == None
      else colon == Some(SkipBlank(body, k.value + |key| + 2)) && colon.value < |body|
  {
    var kpos := 0;
    colon := None;
    while colon.None?
      invariant kpos <= |body|
      invariant colon.None? ==> FirstKey(body, key, 0) == FirstKey(body, key, kpos)
      invariant colon.Some? ==>
        FirstKey(body, key, 0) == Some(kpos - 1) && colon.value == SkipBlank(body, kpos - 1 + |key| + 2) < |body|
      decreases colon.None?, |body| - kpos
    {
      var at := Find(body, Needle(key), kpos);
      if at.None? {
        SkipTo(body, key, kpos, |body|);
        return;
      }
      SkipTo(body, key, kpos, at.value);
      kpos := at.value;
      colon := ColonOf(body, key, kpos);
      kpos := kpos + 1;
    }
  }

  /** The value loops: over the blanks, then to the closing quote. */
  method ReadValue(body: Bytes, colon: nat) returns (out: Option<Bytes>)
    requires colon < |body|
    ensures out == Value(body, colon)
  {
    var open := colon + 1;
    while open < |body| && Blank(body[open])
      invariant colon + 1 <= open <= |body| && SkipBlank(body, open) == SkipBlank(body, colon + 1)
    {
      open := open + 1;
    }
    if open >= |body| || body[open] != QUOTE {
      return None;
    }
    var close := open + 1;
    while close < |body|
      invariant open + 1 <= close && CloseQuote(body, close) == CloseQuote(body, open + 1)
    {
      if body[close] == BACKSLASH {
        close := close + 2;
        continue;
      }
      if body[close] == QUOTE {
        break;
      }
      close := close + 1;
    }
    if close >= |body| {
      return None;
    }
    out := Some(body[open + 1..close]);
  }

  /** json_get_string: false is None. */
  method JsonGetString(body: Bytes, key: Bytes) returns (out: Option<Bytes>)
    ensures out == GetString(body, key)
  {
    var colon := FindColon(body, key);
    if colon.None? {
      return None;
    }
    var raw := ReadValue(body, colon.value);
    if raw.None? {
      return None;
    }
    var text := JsonUnescape(raw.value);
    out := Some(text);
  }

  // ----- Objects as the clients print them -----

  datatype Field = Field(key: Bytes, value: Bytes)

  /** A member as it is printed between the quotes. */
  datatype Part = Part(name: Bytes, text: Bytes)

  function InQuotes(e: Bytes): Bytes {
    [QUOTE] + e + [QUOTE]
  }

  /** The text from a member's opening quote to the end of the object. */
  function Members(ps: seq<Part>): Bytes
    requires ps != []
    decreases |ps|, 1
  {
    InQuotes(ps[0].name) + [COLON] + InQuotes(ps[0].text) + After(ps)
  }

  function After(ps: seq<Part>): Bytes
    requires ps != []
    decreases |ps|, 0
  {
    if |ps| == 1 then [CLOSE] else [COMMA] + Members(ps[1..])
  }

  function Print(ps: seq<Part>): Bytes {
    [OPEN] + if ps == [] then [CLOSE] else Members(ps)
  }

  function Escapes(fs: seq<Field>): (ps: seq<Part>)
    ensures |ps| == |fs|
  {
    if fs == [] then []
    else [Part(Escape(fs[0].key), Escape(fs[0].value))] + Escapes(fs[1..])
  }

  /** An object of string members as the clients print it, every name and value escaped. */
  function Object(fs: seq<Field>): Bytes {
    Print(Escapes(fs))
  }

  /** What a JSON parser finds: the first member of that name. */
  function LookupIn(ps: seq<Part>, key: Bytes): Option<Bytes> {
    if ps == [] then None
    else if ps[0].name == key then Some(ps[0].text)
    else LookupIn(ps[1..], key)
  }

  /** The same of the names themselves, the values as UTF-8. */
  function Lookup(fs: seq<Field>, key: Bytes): Option<Bytes> {
    if fs == [] then None
    else if fs[0].key == key then Some(Sanitize(fs[0].value))
    else Lookup(fs[1..], key)
  }

  /** A key without quote or backslash that does not begin like what follows a string. */
  predicate Searchable(key: Bytes) {
    NoSpecial(key) && (key != [] ==> key[0] != COLON && key[0] != COMMA && key[0] != CLOSE)
  }

  /** A quote inside escaped text has a backslash before it. */
  lemma {:induction false} QuoteIsEscaped(s: Bytes, j: nat)
    requires j < |Escape(s)| && Escape(s)[j] == QUOTE
    ensures j > 0 && Escape(s)[j - 1] == BACKSLASH
  {
    var e := Escaped(s);
    if j < |e| {
      assert Escape(s)[j] == e[j];
      assert j > 0 && Escape(s)[j - 1] == e[j - 1];
    } else {
      QuoteIsEscaped(s[Unit(s)..], j - |e|);
    }
  }

  predicate NoSpecial(s: Bytes) {
    QUOTE !in s && BACKSLASH !in s
  }

  /** Text is escaped to itself, or grows and gets a backslash. */
  predicate Grown(u: Bytes, e: Bytes) {
    (e == u && NoSpecial(u)) || (|e| > |u| && BACKSLASH in e)
  }

  lemma UnitGrows(s: Bytes)
    requires s != []
    ensures Grown(s[..Unit(s)], Escaped(s))
  {
    assert Escaped(s)[0] in Escaped(s);
  }

  lemma {:induction false} EscapeGrows(s: Bytes)
    ensures Grown(s, Escape(s))
  {
    if s != [] {
      var u, rest := s[..Unit(s)], s[Unit(s)..];
      EscapeGrows(rest);
      UnitGrows(s);
      GrownJoin(u, Escaped(s), rest, Escape(rest));
      assert u + rest == s;
    }
  }

  lemma GrownJoin(u: Bytes, e: Bytes, v: Bytes, f: Bytes)
    requires Grown(u, e) && Grown(v, f)
    ensures Grown(u + v, e + f)
  {
  }

  /** Only a key itself is escaped to that key, and only if it needs no escape. */
  lemma OnlyItself(key: Bytes, k: Bytes)
    requires NoSpecial(key) && Escape(key) == key
    ensures Escape(k) == key <==> k == key
  {
    EscapeGrows(key);
    EscapeGrows(k);
  }

  // ----- What the search finds in such an object -----

  predicate Spelled(body: Bytes, i: nat, s: Bytes) {
    i + |s| <= |body| && forall j: nat :: j < |s| ==> s[j] == body[i + j]
  }

  lemma OccursIsSpelled(body: Bytes, i: nat, s: Bytes)
    ensures Occurs(body, s, i) <==> Spelled(body, i, s)
  {
    if Occurs(body, s, i) {
      forall j: nat | j < |s|
        ensures s[j] == body[i + j]
      {
        assert body[i..i + |s|][j] == s[j];
      }
    }
  }

  /** If there is a quote at j, a backslash stands before it. */
  predicate EscapedAt(e: Bytes, j: nat)
    requires j < |e|
  {
    e[j] == QUOTE ==> 0 < j && e[j - 1] == BACKSLASH
  }

  ghost predicate QuotesEscaped(e: Bytes) {
    forall j: nat {:trigger EscapedAt(e, j)} :: j < |e| ==> EscapedAt(e, j)
  }

  /** No key is found that begins inside escaped text. */
  lemma NoneInside(body: Bytes, key: Bytes, i: nat, e: Bytes, k: nat)
    requires QuotesEscaped(e) && Spelled(body, i, e) && i <= k < i + |e|
    ensures !KeyAt(body, key, k)
  {
    OccursIsSpelled(body, k, Needle(key));
    assert Needle(key)[0] == QUOTE;
    assert EscapedAt(e, k - i) && e[k - i] == body[k];
    if body[k] == QUOTE {
      assert e[k - i - 1] == body[k - 1];
    }
  }

  /** Two names in quotes that agree as far as both go are the same. */
  lemma SameName(e: Bytes, key: Bytes)
    requires NoSpecial(key) && QuotesEscaped(e)
    requires forall j: nat :: j <= |e| && j <= |key| ==> (e + [QUOTE])[j] == (key + [QUOTE])[j]
    ensures e == key
  {
    var n := if |e| < |key| then |e| else |key|;
    assert forall j: nat :: j < n ==> (e + [QUOTE])[j] == e[j] && (key + [QUOTE])[j] == key[j];
    assert (e + [QUOTE])[n] == (key + [QUOTE])[n];
    assert e[..n] == key[..n];
    assert n < |e| ==> EscapedAt(e, n);
  }

  lemma NameIsKey(body: Bytes, key: Bytes, i: nat, e: Bytes)
    requires NoSpecial(key) && QuotesEscaped(e) && Spelled(body, i, InQuotes(e)) && Occurs(body, Needle(key), i)
    ensures e == key
  {
    OccursIsSpelled(body, i, Needle(key));
    forall j: nat | j <= |e| && j <= |key|
      ensures (e + [QUOTE])[j] == (key + [QUOTE])[j]
    {
      assert InQuotes(e)[j + 1] == body[i + j + 1] && Needle(key)[j + 1] == body[i + j + 1];
    }
    SameName(e, key);
  }

  /** A member at i: its escaped name, a colon, its escaped value, and what ends it at next. */
  ghost predicate MemberAt(body: Bytes, i: nat, name: Bytes, value: Bytes, next: nat) {
    next == i + |name| + |value| + 5 && next < |body| && i > 0 &&
    (body[i - 1] == OPEN || body[i - 1] == COMMA) && QuotesEscaped(name) && QuotesEscaped(value) &&
    Spelled(body, i, InQuotes(name)) && body[i + |name| + 2] == COLON &&
    Spelled(body, i + |name| + 3, InQuotes(value)) && (body[next] == COMMA || body[next] == CLOSE)
  }

  lemma Unquote(body: Bytes, i: nat, e: Bytes)
    requires Spelled(body, i, InQuotes(e))
    ensures body[i] == QUOTE && Spelled(body, i + 1, e) && body[i + |e| + 1] == QUOTE
  {
    var q := InQuotes(e);
    assert q[0] == body[i] && q[|e| + 1] == body[i + |e| + 1];
    forall j: nat | j < |e|
      ensures e[j] == body[i + 1 + j]
    {
      assert q[j + 1] == body[i + (j + 1)];
    }
  }

  /** A quote before a colon, a comma or a brace begins no key; neither does one after a colon. */
  lemma NotAKey(body: Bytes, key: Bytes, k: nat)
    requires Searchable(key) && k < |body|
    requires body[k] != QUOTE || (k > 0 && body[k - 1] == COLON) ||
             (k + 1 < |body| && (body[k + 1] == COLON || body[k + 1] == COMMA || body[k + 1] == CLOSE))
    ensures !KeyAt(body, key, k)
  {
    OccursIsSpelled(body, k, Needle(key));
    if Spelled(body, k, Needle(key)) {
      assert Needle(key)[0] == body[k] && Needle(key)[1] == body[k + 1];
    }
  }

  /** In a member, a key is found at its name only. */
  lemma KeyOnlyAtName(body: Bytes, key: Bytes, i: nat, name: Bytes, value: Bytes, next: nat, k: nat)
    requires Searchable(key) && MemberAt(body, i, name, value, next) && i < k <= next
    ensures !KeyAt(body, key, k)
  {
    Unquote(body, i, name);
    Unquote(body, i + |name| + 3, value);
    if k < i + 1 + |name| {
      NoneInside(body, key, i + 1, name, k);
    } else if i + |name| + 4 <= k < next - 1 {
      NoneInside(body, key, i + |name| + 4, value, k);
    } else {
      NotAKey(body, key, k);
    }
  }

  lemma KeyAtName(body: Bytes, key: Bytes, i: nat, name: Bytes, value: Bytes, next: nat)
    requires Searchable(key) && MemberAt(body, i, name, value, next)
    ensures KeyAt(body, key, i) <==> name == key
    ensures name == key ==> SkipBlank(body, i + |key| + 2) == i + |name| + 2
  {
    OccursIsSpelled(body, i, Needle(key));
    if Occurs(body, Needle(key), i) {
      NameIsKey(body, key, i, name);
    }
  }

  /** Text a closing quote after it ends, wherever it stands. */
  ghost predicate Closes(text: Bytes) {
    forall body: Bytes, i: nat ::
      Spelled(body, i, text) && i + |text| < |body| && body[i + |text|] == QUOTE ==> CloseQuote(body, i) == i + |text|
  }

  ghost predicate Escaping(p: Part) {
    QuotesEscaped(p.name) && QuotesEscaped(p.text)
  }

  ghost predicate WellPrinted(p: Part) {
    Escaping(p) && Closes(p.text)
  }

  lemma ValueOf(body: Bytes, i: nat, name: Bytes, text: Bytes, next: nat)
    requires MemberAt(body, i, name, text, next) && Closes(text)
    ensures Value(body, i + |name| + 2) == Some(text)
  {
    var open := i + |name| + 3;
    Unquote(body, open, text);
    assert CloseQuote(body, open + 1) == open + 1 + |text|;
    OccursIsSpelled(body, open + 1, text);
  }

  lemma NoKeyFrom(body: Bytes, key: Bytes, i: nat, name: Bytes, text: Bytes, next: nat)
    requires Searchable(key) && MemberAt(body, i, name, text, next) && !KeyAt(body, key, i)
    ensures forall k :: i <= k < next + 1 ==> !KeyAt(body, key, k)
  {
    forall k | i < k < next + 1
      ensures !KeyAt(body, key, k)
    {
      KeyOnlyAtName(body, key, i, name, text, next, k);
    }
  }

  /** One member decides: it is the one, or the search goes on after it. */
  lemma OneMember(body: Bytes, key: Bytes, i: nat, name: Bytes, text: Bytes, next: nat)
    requires Searchable(key) && MemberAt(body, i, name, text, next)
    ensures FirstKey(body, key, i) == if name == key then Some(i) else FirstKey(body, key, next + 1)
  {
    KeyAtName(body, key, i, name, text, next);
    if name != key {
      NoKeyFrom(body, key, i, name, text, next);
      SkipTo(body, key, i, next + 1);
    }
  }

  function NextOf(i: nat, p: Part): nat {
    i + |p.name| + |p.text| + 5
  }

  lemma TailAt(body: Bytes, n: nat, tail: Bytes)
    requires n <= |body| && body[n..] == tail && tail != []
    ensures n < |body| && body[n] == tail[0] && body[n + 1..] == tail[1..]
  {
    assert body[n..][0] == body[n] && body[n..][1..] == body[n + 1..];
  }

  lemma MemberParts(body: Bytes, i: nat, p: Part, tail: Bytes)
    requires 0 < i <= |body| && (body[i - 1] == OPEN || body[i - 1] == COMMA) && Escaping(p)
    requires body[i..] == InQuotes(p.name) + [COLON] + InQuotes(p.text) + tail
    requires tail != [] && (tail[0] == COMMA || tail[0] == CLOSE)
    ensures MemberAt(body, i, p.name, p.text, NextOf(i, p))
    ensures body[NextOf(i, p)] == tail[0] && body[NextOf(i, p) + 1..] == tail[1..]
  {
    TailAt(body, NextOf(i, p), tail);
  }

  /** The members ps stand in the body from i to its end. */
  ghost predicate Laid(body: Bytes, i: nat, ps: seq<Part>)
    requires ps != []
    decreases |ps|
  {
    var next := NextOf(i, ps[0]);
    MemberAt(body, i, ps[0].name, ps[0].text, next) &&
    if |ps| == 1 then next + 1 == |body| else Laid(body, next + 1, ps[1..])
  }

  lemma {:induction false} PrintedIsLaid(body: Bytes, i: nat, ps: seq<Part>)
    requires ps != [] && forall q :: q in ps ==> Escaping(q)
    requires 0 < i <= |body| && (body[i - 1] == OPEN || body[i - 1] == COMMA) && body[i..] == Members(ps)
    ensures Laid(body, i, ps)
    decreases |ps|
  {
    MemberParts(body, i, ps[0], After(ps));
    if |ps| > 1 {
      PrintedIsLaid(body, NextOf(i, ps[0]) + 1, ps[1..]);
    }
  }

  /** Where the first member named key stands, and which it is. */
  function Place(i: nat, ps: seq<Part>, key: Bytes): Option<nat>
    decreases |ps|
  {
    if ps == [] then None
    else if ps[0].name == key then Some(i)
    else Place(NextOf(i, ps[0]) + 1, ps[1..], key)
  }

  lemma {:induction false} FirstIsPlace(body: Bytes, key: Bytes, i: nat, ps: seq<Part>)
    requires Searchable(key) && ps != [] && Laid(body, i, ps)
    ensures FirstKey(body, key, i) == Place(i, ps, key)
    decreases |ps|
  {
    var next := NextOf(i, ps[0]);
    OneMember(body, key, i, ps[0].name, ps[0].text, next);
    if ps[0].name != key {
      if |ps| == 1 {
        assert ps[1..] == [];
      } else {
        FirstIsPlace(body, key, next + 1, ps[1..]);
      }
    }
  }

  lemma {:induction false} PlaceOf(body: Bytes, key: Bytes, i: nat, ps: seq<Part>) returns (j: nat)
    requires ps != [] && Laid(body, i, ps)
    ensures Place(i, ps, key).None? ==> LookupIn(ps, key).None?
    ensures Place(i, ps, key).Some? ==> j < |ps| && ps[j].name == key && LookupIn(ps, key) == Some(ps[j].text)
    ensures var k := Place(i, ps, key); k.Some? ==>
      MemberAt(body, k.value, ps[j].name, ps[j].text, NextOf(k.value, ps[j]))
    decreases |ps|
  {
    j := 0;
    if |ps| == 1 {
      assert Place(NextOf(i, ps[0]) + 1, [], key).None? && ps[1..] == [];
    } else if ps[0].name != key {
      j := PlaceOf(body, key, NextOf(i, ps[0]) + 1, ps[1..]);
      j := j + 1;
    }
  }

  lemma MemberValue(body: Bytes, key: Bytes, k: nat, p: Part, next: nat)
    requires Searchable(key) && Answers(body, key, k, p, next)
    ensures k + |key| + 2 <= |body| && RawAt(body, key, Some(k)) == Some(p.text)
  {
    ValueOf(body, k, p.name, p.text, next);
    KeyAtName(body, key, k, p.name, p.text, next);
  }

  lemma RawIs(body: Bytes, key: Bytes, i: nat, k: nat, text: Bytes)
    requires FirstKey(body, key, i) == Some(k) && RawAt(body, key, Some(k)) == Some(text)
    ensures RawFrom(body, key, i) == Some(text)
  {
  }

  /** A member as the search meets it: named as the key is, and its text ends at its quote. */
  ghost predicate Answers(body: Bytes, key: Bytes, k: nat, p: Part, next: nat) {
    p.name == key && Closes(p.text) && MemberAt(body, k, p.name, p.text, next)
  }

  lemma Found(body: Bytes, key: Bytes, i: nat, k: nat, p: Part, next: nat)
    requires Searchable(key) && FirstKey(body, key, i) == Some(k) && Answers(body, key, k, p, next)
    ensures RawFrom(body, key, i) == Some(p.text)
  {
    MemberValue(body, key, k, p, next);
    RawIs(body, key, i, k, p.text);
  }

  /** From a member on, the search finds the first member of that name. */
  lemma FoundFrom(body: Bytes, key: Bytes, ps: seq<Part>)
    requires Searchable(key) && ps != [] && Laid(body, 1, ps) && forall j: nat :: j < |ps| ==> Closes(ps[j].text)
    requires FirstKey(body, key, 0) == FirstKey(body, key, 1)
    ensures RawFrom(body, key, 0) == LookupIn(ps, key)
  {
    FirstIsPlace(body, key, 1, ps);
    var j := PlaceOf(body, key, 1, ps);
    var k := Place(1, ps, key);
    if k.Some? {
      Found(body, key, 0, k.value, ps[j], NextOf(k.value, ps[j]));
    }
  }

  lemma FirstIn(ps: seq<Part>, key: Bytes)
    requires Searchable(key)
    ensures FirstKey(Print(ps), key, 0) == FirstKey(Print(ps), key, 1)
    ensures ps == [] ==> FirstKey(Print(ps), key, 0) == None
  {
    var body := Print(ps);
    assert body[0] == OPEN;
    NotAKey(body, key, 0);
    if ps == [] {
      assert body[1] == CLOSE;
      NotAKey(body, key, 1);
    }
  }

  lemma FoundIn(ps: seq<Part>, key: Bytes)
    requires Searchable(key) && forall p :: p in ps ==> WellPrinted(p)
    ensures RawFrom(Print(ps), key, 0) == LookupIn(ps, key)
  {
    var body := Print(ps);
    FirstIn(ps, key);
    if ps != [] {
      assert body[1..] == Members(ps);
      PrintedIsLaid(body, 1, ps);
      assert forall j: nat :: j < |ps| ==> ps[j] in ps;
      FoundFrom(body, key, ps);
    }
  }

  // ----- The same for escaped text -----

  lemma EscapeIsWellPrinted(f: Field)
    ensures WellPrinted(Part(Escape(f.key), Escape(f.value)))
  {
    AllQuotesEscaped(f.key);
    AllQuotesEscaped(f.value);
    EscapeCloses(f.value);
  }

  lemma AllQuotesEscaped(s: Bytes)
    ensures QuotesEscaped(Escape(s))
  {
    var e := Escape(s);
    forall j: nat | j < |e|
      ensures EscapedAt(e, j)
    {
      if e[j] == QUOTE {
        QuoteIsEscaped(s, j);
      }
    }
  }

  lemma EscapeCloses(s: Bytes)
    ensures Closes(Escape(s))
  {
    var e := Escape(s);
    forall body: Bytes, i: nat | Spelled(body, i, e) && i + |e| < |body| && body[i + |e|] == QUOTE
      ensures CloseQuote(body, i) == i + |e|
    {
      OccursIsSpelled(body, i, e);
      ScanStops(s, body, i);
    }
  }

  lemma {:induction false} EscapesAre(fs: seq<Field>)
    ensures forall p :: p in Escapes(fs) ==> WellPrinted(p)
  {
    if fs != [] {
      EscapeIsWellPrinted(fs[0]);
      EscapesAre(fs[1..]);
    }
  }

  lemma {:induction false} LookupEscapes(fs: seq<Field>, key: Bytes)
    requires NoSpecial(key) && Escape(key) == key
    ensures Unescaped(LookupIn(Escapes(fs), key)) == Lookup(fs, key)
  {
    if fs != [] {
      OnlyItself(key, fs[0].key);
      RoundTrip(fs[0].value);
      LookupEscapes(fs[1..], key);
      assert Escapes(fs)[1..] == Escapes(fs[1..]);
    }
  }

  /**
   * In every object of string members, whatever their bytes, a key that needs no
   * escape finds the first member of that name, sanitized, and nothing that only
   * looks like one.
   */
  lemma MemberFound(fs: seq<Field>, key: Bytes)
    requires Searchable(key) && Escape(key) == key
    ensures GetString(Object(fs), key) == Lookup(fs, key)
  {
    EscapesAre(fs);
    LookupEscapes(fs, key);
    FoundIn(Escapes(fs), key);
  }

  const PASSWORD: Bytes := [0x70, 0x61, 0x73, 0x73, 0x77, 0x6F, 0x72, 0x64]

  /** The login body the terminal client posts. */
  function LoginBody(password: Bytes): Bytes {
    [OPEN] + InQuotes(PASSWORD) + [COLON] + InQuotes(Escape(password)) + [CLOSE]
  }

  lemma OnlyMember(p: Part)
    requires Searchable(p.name) && WellPrinted(p)
    ensures RawFrom([OPEN] + InQuotes(p.name) + [COLON] + InQuotes(p.text) + [CLOSE], p.name, 0) == Some(p.text)
  {
    assert Members([p]) == InQuotes(p.name) + [COLON] + InQuotes(p.text) + [CLOSE];
    assert Print([p]) == [OPEN] + InQuotes(p.name) + [COLON] + InQuotes(p.text) + [CLOSE];
    FoundIn([p], p.name);
  }

  /** Every password is read as its bytes sanitized. */
  lemma PasswordArrives(password: Bytes)
    ensures GetString(LoginBody(password), PASSWORD) == Some(Sanitize(password))
  {
    AllQuotesEscaped(password);
    EscapeCloses(password);
    OnlyMember(Part(PASSWORD, Escape(password)));
    RoundTrip(password);
  }
}
