/** What captures are handed to Lua as, and what gsub's replacement text says, in terms of the subject. */
module LuaValues {
  import opened Common
  import opened LuaSpec
  import opened LuaCaptures

  // ----- Values -----

  /** t is the subject from a up to b. */
  predicate IsText(sub: string, a: nat, b: nat, t: string) {
    a <= b <= |sub| && |t| == b - a && forall k :: 0 <= k < |t| ==> t[k] == sub[a + k]
  }

  /** A closed capture's text, or where an empty one stood, the first character being 1. */
  predicate IsValue(sub: string, c: Capture, v: Value) {
    match v
    case Text(t) => c.len >= 0 && IsText(sub, c.init, c.init + c.len, t)
    case Position(at) => c.len == -2 && at == c.init + 1
  }

  ghost predicate Closed(sub: string, c: Capture) {
    c.len == -2 || (c.len >= 0 && c.init + c.len <= |sub|)
  }

  lemma ValueIs(sub: string, c: Capture)
    requires Closed(sub, c)
    ensures IsValue(sub, c, ValueOf(sub, c))
  {
  }

  /** Without captures the whole match; with them each of them, and no others. */
  lemma PushedIs(sub: string, c: Cut, whole: bool)
    requires InRange(sub, c.start, c.hit) && !HasOpen(c.hit.caps)
    ensures Pushed(sub, c, whole).Some?
    ensures var vs := Pushed(sub, c, whole).value;
      if c.hit.caps == [] && whole then |vs| == 1 && vs[0].Text? && IsText(sub, c.start, c.hit.end, vs[0].text)
      else |vs| == |c.hit.caps| && forall i :: 0 <= i < |vs| ==> IsValue(sub, c.hit.caps[i], vs[i])
  {
    forall i | 0 <= i < |c.hit.caps|
      ensures IsValue(sub, c.hit.caps[i], ValueOf(sub, c.hit.caps[i]))
    {
      ValueIs(sub, c.hit.caps[i]);
    }
  }

  // ----- Numbers as text -----

  function Number(t: string): int {
    if t == "" then 0 else Number(t[..|t| - 1]) * 10 + (t[|t| - 1] as int - '0' as int)
  }

  /** t is n in decimal digits, without a leading zero. */
  predicate IsDecimal(t: string, n: nat) {
    && t != "" && (forall k :: 0 <= k < |t| ==> '0' <= t[k] <= '9') && Number(t) == n
    && (|t| > 1 ==> t[0] != '0')
  }

  lemma DigitMore(t: string, m: nat, d: nat, n: nat)
    requires IsDecimal(t, m) && t[0] != '0' && d < 10 && n == m * 10 + d
    ensures IsDecimal(t + [DigitChar(d)], n) && (t + [DigitChar(d)])[0] != '0'
  {
    var more := t + [DigitChar(d)];
    assert more[..|more| - 1] == t;
  }

  lemma OneDigit(d: nat)
    requires d < 10
    ensures IsDecimal([DigitChar(d)], d) && (d > 0 ==> DigitChar(d) != '0')
  {
    var t := [DigitChar(d)];
    assert t[..0] == "" && Number("") == 0;
  }

  lemma {:induction false} DecimalIs(n: nat)
    ensures IsDecimal(Decimal(n), n) && (n > 0 ==> Decimal(n)[0] != '0')
  {
    if n >= 10 {
      var m, d := n / 10, n % 10;
      DecimalIs(m);
      DigitMore(Decimal(m), m, d, n);
      assert Decimal(n) == Decimal(m) + [DigitChar(d)];
    } else {
      OneDigit(n);
      assert Decimal(n) == [DigitChar(n)];
    }
  }

  // ----- The replacement text -----

  /** A part of a replacement: a character, a percent sign, the whole match, or a capture counted from 1. */
  datatype Piece = Char(c: char) | Percent | Whole | Nth(n: nat)

  predicate IsPiece(p: Piece) {
    (p.Char? ==> p.c != '%') && (p.Nth? ==> 1 <= p.n <= 9)
  }

  /** The digits from 1 to 9. */
  function DigitOf(n: nat): char
    requires 1 <= n <= 9
  {
    if n == 1 then '1' else if n == 2 then '2' else if n == 3 then '3' else if n == 4 then '4' else if n == 5 then '5'
    else if n == 6 then '6' else if n == 7 then '7' else if n == 8 then '8' else '9'
  }

  /** As it is written. */
  function Written(p: Piece): string
    requires IsPiece(p)
  {
    match p
    case Char(c) => [c]
    case Percent => "%%"
    case Whole => "%0"
    case Nth(n) => ['%', DigitOf(n)]
  }

  /** What a value puts into the text. */
  predicate Puts(sub: string, c: Capture, t: string) {
    if c.len >= 0 then IsText(sub, c.init, c.init + c.len, t) else c.len == -2 && IsDecimal(t, c.init + 1)
  }

  /** t is what the part stands for at the match c. */
  predicate StandsFor(sub: string, c: Cut, p: Piece, t: string) {
    match p
    case Char(x) => t == [x]
    case Percent => t == "%"
    case Whole => IsText(sub, c.start, c.hit.end, t)
    case Nth(n) =>
      if c.hit.caps == [] then n == 1 && IsText(sub, c.start, c.hit.end, t)
      else 1 <= n <= |c.hit.caps| && Puts(sub, c.hit.caps[n - 1], t)
  }

  /** The part names no capture that is missing or open. */
  predicate Has(c: Cut, p: Piece) {
    p.Nth? ==>
      if c.hit.caps == [] then p.n == 1 else 1 <= p.n <= |c.hit.caps| && c.hit.caps[p.n - 1].len != -1
  }

  lemma ShownPuts(sub: string, c: Capture)
    requires Closed(sub, c)
    ensures Puts(sub, c, Shown(ValueOf(sub, c)))
  {
    if c.len < 0 {
      DecimalIs(c.init + 1);
    }
  }

  lemma NthOf(sub: string, c: Cut, n: nat)
    requires InRange(sub, c.start, c.hit) && 1 <= n <= 9
    ensures var r := Escape(sub, c, DigitOf(n));
      if Has(c, Nth(n)) then r.Some? && StandsFor(sub, c, Nth(n), r.value) else r.None?
  {
    var x, caps := DigitOf(n), c.hit.caps;
    assert IsDigit(x) && x != '%' && x != '0' && x as int - '1' as int == n - 1;
    if n <= |caps| && caps[n - 1].len != -1 {
      ShownPuts(sub, caps[n - 1]);
    }
  }

  lemma EscapeOf(sub: string, c: Cut, p: Piece)
    requires InRange(sub, c.start, c.hit) && IsPiece(p) && !p.Char?
    ensures var r := Escape(sub, c, Written(p)[1]);
      if Has(c, p) then r.Some? && StandsFor(sub, c, p, r.value) else r.None?
  {
    if p.Nth? {
      NthOf(sub, c, p.n);
    }
  }

  /** From k on the text is the parts as they are written, one after the other. */
  predicate Spelled(news: string, k: nat, ps: seq<Piece>)
    decreases |ps|
  {
    if ps == [] then k == |news|
    else
      IsPiece(ps[0]) &&
      var n := |Written(ps[0])|;
      k + n <= |news| && news[k] == Written(ps[0])[0] && (n > 1 ==> news[k + 1] == Written(ps[0])[1]) && Spelled(news, k + n, ps[1..])
  }

  function Flat(ts: seq<string>): string {
    if ts == [] then "" else ts[0] + Flat(ts[1..])
  }

  ghost predicate AllStand(sub: string, c: Cut, ps: seq<Piece>, ts: seq<string>) {
    |ts| == |ps| && forall i :: 0 <= i < |ps| ==> StandsFor(sub, c, ps[i], ts[i])
  }

  lemma FirstPiece(sub: string, c: Cut, news: string, k: nat, ps: seq<Piece>, to: nat) returns (t: string)
    requires InRange(sub, c.start, c.hit) && ps != [] && Spelled(news, k, ps) && to == k + |Written(ps[0])|
    ensures to <= |news| && Spelled(news, to, ps[1..])
    ensures if Has(c, ps[0]) then StandsFor(sub, c, ps[0], t) && Expand(sub, c, news, k) == After(t, Expand(sub, c, news, to))
      else Expand(sub, c, news, k).None?
  {
    var p := ps[0];
    if p.Char? {
      t := [p.c];
    } else {
      EscapeOf(sub, c, p);
      var r := Escape(sub, c, Written(p)[1]);
      t := if r.Some? then r.value else "";
    }
  }

  ghost predicate HasAll(c: Cut, ps: seq<Piece>) {
    forall i :: 0 <= i < |ps| ==> Has(c, ps[i])
  }

  lemma HasAllFrom(c: Cut, ps: seq<Piece>)
    requires ps != []
    ensures HasAll(c, ps) <==> Has(c, ps[0]) && HasAll(c, ps[1..])
  {
    if HasAll(c, ps[1..]) {
      assert forall i :: 0 < i < |ps| ==> ps[i] == ps[1..][i - 1];
    }
  }

  lemma AllStandFrom(sub: string, c: Cut, ps: seq<Piece>, t: string, us: seq<string>)
    requires ps != [] && StandsFor(sub, c, ps[0], t) && AllStand(sub, c, ps[1..], us)
    ensures AllStand(sub, c, ps, [t] + us) && Flat([t] + us) == t + Flat(us)
  {
    var ts := [t] + us;
    assert ts[1..] == us;
    forall i | 0 <= i < |ps|
      ensures StandsFor(sub, c, ps[i], ts[i])
    {
      if i > 0 {
        assert ps[1..][i - 1] == ps[i];
      }
    }
  }

  lemma {:induction false} ReplacementFrom(sub: string, c: Cut, news: string, k: nat, ps: seq<Piece>) returns (ts: seq<string>)
    requires InRange(sub, c.start, c.hit) && k <= |news| && Spelled(news, k, ps)
    ensures HasAll(c, ps) ==> AllStand(sub, c, ps, ts) && Expand(sub, c, news, k) == Some(Flat(ts))
    ensures !HasAll(c, ps) ==> Expand(sub, c, news, k).None?
    decreases |ps|
  {
    ts := [];
    if ps != [] {
      var to := k + |Written(ps[0])|;
      var t := FirstPiece(sub, c, news, k, ps, to);
      var us := ReplacementFrom(sub, c, news, to, ps[1..]);
      HasAllFrom(c, ps);
      if HasAll(c, ps) {
        AllStandFrom(sub, c, ps, t, us);
      }
      ts := [t] + us;
    }
  }

  /** gsub's replacement text, part by part; an error exactly where a part names a capture that is missing or open. */
  lemma ReplacementIs(sub: string, pat: string, s: nat, h: Hit, news: string, ps: seq<Piece>) returns (ts: seq<string>)
    requires s <= |sub| && h in All(sub, pat, s, 0, []) && Spelled(news, 0, ps)
    ensures HasAll(Cut(s, h), ps) ==> AllStand(sub, Cut(s, h), ps, ts) && Expand(sub, Cut(s, h), news, 0) == Some(Flat(ts))
    ensures !HasAll(Cut(s, h), ps) ==> Expand(sub, Cut(s, h), news, 0).None?
  {
    AllIsDerives(sub, pat, s, 0, [], h);
    DerivesInRange(sub, pat, s, 0, [], h);
    ts := ReplacementFrom(sub, Cut(s, h), news, 0, ps);
  }
}
