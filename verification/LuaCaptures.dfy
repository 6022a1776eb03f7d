/** What becomes of a match's captures: get_onecapture, push_captures, and gsub's add_s and add_value. */
module LuaCaptures {
  import opened Common
  import opened LuaSpec
  import opened LuaMatch

  /** A value handed to Lua: a piece of the subject, or a position in it. */
  datatype Value = Text(text: string) | Position(at: nat)

  function Part(sub: string, a: nat, b: nat): string {
    if a <= b <= |sub| then sub[a..b] else ""
  }

  function ValueOf(sub: string, c: Capture): Value {
    if c.len < 0 then Position(c.init + 1) else Text(Part(sub, c.init, c.init + c.len))
  }

  /** A match: where it starts, where it ends, its captures. */
  datatype Cut = Cut(start: nat, hit: Hit)

  /** get_onecapture: capture i, the whole match for the first of none, or an error. */
  function OneCapture(sub: string, c: Cut, i: nat): Option<Value> {
    var caps := c.hit.caps;
    if i >= |caps| then if i == 0 then Some(Text(Part(sub, c.start, c.hit.end))) else None
    else if caps[i].len == CAP_UNFINISHED then None
    else Some(ValueOf(sub, caps[i]))
  }

  /** The match ends with a capture still open. */
  predicate HasOpen(caps: Caps) {
    exists i :: 0 <= i < |caps| && caps[i].len == CAP_UNFINISHED
  }

  /** What push_captures pushes: all captures, or the whole match where there are none and it is asked for. */
  function Pushed(sub: string, c: Cut, whole: bool): (r: Option<seq<Value>>)
    ensures r.None? <==> HasOpen(c.hit.caps)
  {
    var caps := c.hit.caps;
    if HasOpen(caps) then None
    else if caps == [] && whole then Some([Text(Part(sub, c.start, c.hit.end))])
    else Some(seq(|caps|, i requires 0 <= i < |caps| => ValueOf(sub, caps[i])))
  }

  /** The match standing in ms, from s to e. */
  ghost function CutOf(ms: MatchState, s: nat, e: nat): Cut
    requires ms.Valid()
    reads ms, ms.capture
  {
    Cut(s, Hit(e, ms.Caps()))
  }

  method GetOneCapture(ms: MatchState, i: nat, s: nat, e: nat) returns (v: Option<Value>)
    requires ms.Valid()
    ensures v == OneCapture(ms.sub, CutOf(ms, s, e), i)
  {
    if i >= ms.level {
      return if i != 0 then None else Some(Text(Part(ms.sub, s, e)));
    }
    var c := ms.capture[i];
    return if c.len == CAP_UNFINISHED then None else Some(ValueOf(ms.sub, c));
  }

  method PushCaptures(ms: MatchState, s: nat, e: nat, whole: bool) returns (vs: Option<seq<Value>>)
    requires ms.Valid()
    ensures vs == Pushed(ms.sub, CutOf(ms, s, e), whole)
  {
    var n := if ms.level == 0 && whole then 1 else ms.level;
    ghost var c := CutOf(ms, s, e);
    var out: seq<Value> := [];
    var i := 0;
    while i < n
      invariant 0 <= i <= n && |out| == i
      invariant forall j :: 0 <= j < i ==> OneCapture(ms.sub, c, j) == Some(out[j])
    {
      var v := GetOneCapture(ms, i, s, e);
      if v.None? {
        return None;
      }
      out := out + [v.value];
      i := i + 1;
    }
    PushedAre(ms.sub, c, whole, out);
    return Some(out);
  }

  lemma PushedAre(sub: string, c: Cut, whole: bool, out: seq<Value>)
    requires |out| == if c.hit.caps == [] && whole then 1 else |c.hit.caps|
    requires forall j :: 0 <= j < |out| ==> OneCapture(sub, c, j) == Some(out[j])
    ensures Pushed(sub, c, whole) == Some(out)
  {
    var caps := c.hit.caps;
    forall i | 0 <= i < |caps|
      ensures caps[i].len != CAP_UNFINISHED && out[i] == ValueOf(sub, caps[i])
    {
      assert OneCapture(sub, c, i) == Some(out[i]);
    }
    if caps == [] && whole {
      assert OneCapture(sub, c, 0) == Some(out[0]);
      assert out == [out[0]];
    } else {
      assert out == seq(|caps|, i requires 0 <= i < |caps| => ValueOf(sub, caps[i]));
    }
  }

  // ----- A match that leaves a capture open -----

  /** The preferred match has a capture open at its end exactly when the pattern leaves one open. */
  lemma OpenIffLeft(sub: string, pat: string, s: nat, h: Hit)
    requires s <= |sub| && h in All(sub, pat, s, 0, [])
    ensures HasOpen(h.caps) <==> LeavesOpen(pat)
  {
    AllIsDerives(sub, pat, s, 0, [], h);
    EndsInShape(sub, pat, s, 0, [], h);
    assert Shape([]) == [];
    var open := EndShape(pat, 0, []);
    if HasOpen(h.caps) {
      var i :| 0 <= i < |h.caps| && h.caps[i].len == CAP_UNFINISHED;
      assert open[i];
    }
  }

  // ----- The text a string replacement makes -----

  function DigitChar(d: nat): char
    requires d < 10
  {
    '0' + d as char
  }

  function Decimal(n: nat): string {
    (if n < 10 then "" else Decimal(n / 10)) + [DigitChar(n % 10)]
  }

  function Shown(v: Value): string {
    match v
    case Text(text) => text
    case Position(at) => Decimal(at)
  }

  /** What '%' and the character after it put; an error for one that means nothing. */
  function Escape(sub: string, c: Cut, x: char): Option<string> {
    if x == '%' then Some("%")
    else if x == '0' then Some(Part(sub, c.start, c.hit.end))
    else if IsDigit(x) then
      var v := OneCapture(sub, c, x as int - '1' as int);
      if v.None? then None else Some(Shown(v.value))
    else None
  }

  function After(out: string, r: Option<string>): (all: Option<string>)
    ensures out == "" ==> all == r
  {
    if r.None? then None
    else
      assert out == "" ==> out + r.value == r.value;
      Some(out + r.value)
  }

  /** The replacement text from k on, its escapes replaced. */
  function Expand(sub: string, c: Cut, news: string, k: nat): Option<string>
    requires k <= |news|
    decreases |news| - k
  {
    if k == |news| then Some("")
    else if news[k] != '%' then After([news[k]], Expand(sub, c, news, k + 1))
    else
      var x := Escape(sub, c, At(news, k + 1));
      if x.None? || k + 1 == |news| then None else After(x.value, Expand(sub, c, news, k + 2))
  }

  /** memchr over sub[from..to]. */
  method MemChr(sub: string, from: nat, to: nat, c: char) returns (r: Option<nat>)
    requires from <= to <= |sub|
    ensures r.Some? ==> from <= r.value < to && sub[r.value] == c && c !in sub[from..r.value]
    ensures r.None? ==> c !in sub[from..to]
  {
    var i := from;
    while i < to
      invariant from <= i <= to && c !in sub[from..i]
    {
      if sub[i] == c {
        return Some(i);
      }
      i := i + 1;
    }
    return None;
  }

  lemma {:induction false} ExpandPlain(sub: string, c: Cut, news: string, k: nat, q: nat)
    requires k <= q <= |news| && '%' !in news[k..q]
    ensures Expand(sub, c, news, k) == After(news[k..q], Expand(sub, c, news, q))
    decreases q - k
  {
    if k < q {
      assert news[k..q] == [news[k]] + news[k + 1..q];
      ExpandPlain(sub, c, news, k + 1, q);
      AfterAfter([news[k]], news[k + 1..q], Expand(sub, c, news, q));
    }
  }

  lemma AfterAfter(a: string, b: string, r: Option<string>)
    ensures After(a, After(b, r)) == After(a + b, r)
  {
    if r.Some? {
      assert a + (b + r.value) == a + b + r.value;
    }
  }

  /** add_s's dispatch on the character after a '%'. */
  method PutEscape(ms: MatchState, s: nat, e: nat, x: char) returns (r: Option<string>)
    requires ms.Valid()
    ensures r == Escape(ms.sub, CutOf(ms, s, e), x)
  {
    if x == '%' {
      return Some("%");
    }
    if x == '0' {
      return Some(Part(ms.sub, s, e));
    }
    if !IsDigit(x) {
      return None;
    }
    var v := GetOneCapture(ms, x as int - '1' as int, s, e);
    return if v.None? then None else Some(Shown(v.value));
  }

  /** The next escape is at q. */
  lemma ExpandEscape(sub: string, c: Cut, news: string, k: nat, q: nat)
    requires k <= q < |news| && '%' !in news[k..q] && news[q] == '%'
    ensures var x := Escape(sub, c, At(news, q + 1));
      Expand(sub, c, news, k) ==
      if x.None? || q + 1 == |news| then None else After(news[k..q] + x.value, Expand(sub, c, news, q + 2))
  {
    ExpandPlain(sub, c, news, k, q);
    var x := Escape(sub, c, At(news, q + 1));
    if x.Some? && q + 1 < |news| {
      AfterAfter(news[k..q], x.value, Expand(sub, c, news, q + 2));
    }
  }

  lemma ExpandLast(sub: string, c: Cut, news: string, k: nat)
    requires k <= |news| && '%' !in news[k..]
    ensures Expand(sub, c, news, k) == Some(news[k..])
  {
    assert news[k..|news|] == news[k..];
    ExpandPlain(sub, c, news, k, |news|);
    assert news[k..] + "" == news[k..];
  }

  /** add_s. */
  method AddS(ms: MatchState, news: string, s: nat, e: nat) returns (r: Option<string>)
    requires ms.Valid()
    ensures r == Expand(ms.sub, CutOf(ms, s, e), news, 0)
  {
    ghost var c := CutOf(ms, s, e);
    var out, k := "", 0;
    while true
      invariant k <= |news| && Expand(ms.sub, c, news, 0) == After(out, Expand(ms.sub, c, news, k))
      decreases |news| - k
    {
      var p := MemChr(news, k, |news|, '%');
      if p.None? {
        break;
      }
      var q := p.value;
      ExpandEscape(ms.sub, c, news, k, q);
      var x := PutEscape(ms, s, e, At(news, q + 1));
      if x.None? {
        return None;
      }
      AfterAfter(out, news[k..q] + x.value, Expand(ms.sub, c, news, q + 2));
      out := out + (news[k..q] + x.value);
      k := q + 2;
    }
    assert news[k..|news|] == news[k..];
    ExpandLast(ms.sub, c, news, k);
    return Some(out + news[k..]);
  }

  /** The replacement text has no meaningless escape and names no capture that is missing or open. */
  predicate Fits(news: string, k: nat, open: seq<bool>)
    requires k <= |news|
    decreases |news| - k
  {
    if k == |news| then true
    else if news[k] != '%' then Fits(news, k + 1, open)
    else k + 1 < |news| && FitsEscape(news[k + 1], open) && Fits(news, k + 2, open)
  }

  predicate FitsEscape(x: char, open: seq<bool>) {
    x == '%' || x == '0' || (IsDigit(x) && (Refers(open, x) || (open == [] && x == '1')))
  }

  lemma EscapeFits(sub: string, c: Cut, x: char)
    ensures Escape(sub, c, x).Some? <==> FitsEscape(x, Shape(c.hit.caps))
  {
  }

  lemma {:induction false} ExpandFits(sub: string, c: Cut, news: string, k: nat)
    requires k <= |news|
    ensures Expand(sub, c, news, k).Some? <==> Fits(news, k, Shape(c.hit.caps))
    decreases |news| - k
  {
    if k < |news| {
      if news[k] != '%' {
        ExpandFits(sub, c, news, k + 1);
      } else if k + 1 < |news| {
        EscapeFits(sub, c, news[k + 1]);
        ExpandFits(sub, c, news, k + 2);
      }
    }
  }

  /** Whether a replacement text is refused depends on the pattern alone, on no subject and no match. */
  lemma TextRefusedIff(sub: string, pat: string, s: nat, h: Hit, news: string)
    requires s <= |sub| && h in All(sub, pat, s, 0, [])
    ensures Expand(sub, Cut(s, h), news, 0).None? <==> !Fits(news, 0, EndShape(pat, 0, []))
  {
    AllIsDerives(sub, pat, s, 0, [], h);
    EndsInShape(sub, pat, s, 0, [], h);
    assert Shape([]) == [];
    ExpandFits(sub, Cut(s, h), news, 0);
  }

  /** "%0" puts the match itself. */
  lemma WholeIsMatch(sub: string, c: Cut)
    ensures Expand(sub, c, "%0", 0) == Some(Part(sub, c.start, c.hit.end))
  {
    var news := "%0";
    assert Expand(sub, c, news, 2) == Some("");
    var m := Part(sub, c.start, c.hit.end);
    assert Expand(sub, c, news, 0) == After(m, Expand(sub, c, news, 2));
    assert m + "" == m;
  }

  /** Every '%' doubled. */
  function Doubled(t: string): string {
    if t == "" then "" else (if t[0] == '%' then "%%" else [t[0]]) + Doubled(t[1..])
  }

  /** Any text is put as it is once its '%' are doubled. */
  lemma {:induction false} DoubledIsText(sub: string, c: Cut, before: string, t: string)
    ensures Expand(sub, c, before + Doubled(t), |before|) == Some(t)
    decreases |t|
  {
    var news := before + Doubled(t);
    if t != "" {
      var x := if t[0] == '%' then "%%" else [t[0]];
      DoubledIsText(sub, c, before + x, t[1..]);
      assert news == before + x + Doubled(t[1..]);
      assert t == [t[0]] + t[1..];
    }
  }

  // ----- add_value -----

  /** What the replacement says of a match: keep it (nil or false), put a text, or an error. */
  datatype Reply = Keep | Put(text: string) | Bad

  /** gsub's third argument: a text, a function of the captures, a table indexed by the first. */
  datatype Repl = Str(news: string) | Fn(call: seq<Value> -> Reply) | Table(lookup: Value -> Reply)

  function ReplyTo(sub: string, repl: Repl, c: Cut): Reply {
    match repl
    case Str(news) =>
      var t := Expand(sub, c, news, 0);
      if t.None? then Bad else Put(t.value)
    case Fn(call) =>
      var vs := Pushed(sub, c, true);
      if vs.None? then Bad else call(vs.value)
    case Table(lookup) =>
      var v := OneCapture(sub, c, 0);
      if v.None? then Bad else lookup(v.value)
  }

  method AddValue(ms: MatchState, s: nat, e: nat, repl: Repl) returns (r: Reply)
    requires ms.Valid()
    ensures r == ReplyTo(ms.sub, repl, CutOf(ms, s, e))
  {
    match repl
    case Str(news) =>
      var t := AddS(ms, news, s, e);
      return if t.None? then Bad else Put(t.value);
    case Fn(call) =>
      var vs := PushCaptures(ms, s, e, true);
      return if vs.None? then Bad else call(vs.value);
    case Table(lookup) =>
      var v := GetOneCapture(ms, 0, s, e);
      return if v.None? then Bad else lookup(v.value);
  }
}
