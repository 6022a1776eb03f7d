/**
 What a pattern says, apart from its text: a list of items with the meaning section 6.4.1 of
 the Lua 5.4 Reference Manual gives each. Written out as text, it matches exactly that.
 */
module LuaMeaning {
  import opened Common
  import opened LuaSpec

  // ----- Kinds of characters -----

  datatype Kind = Alpha | Control | Digit | Graphic | Lower | Punct | Space | Upper | Alnum | Hex | Zero

  /** The codes of a kind in the C locale. */
  predicate IsKind(k: Kind, c: char) {
    var n := c as int;
    match k
    case Alpha => 65 <= n <= 90 || 97 <= n <= 122
    case Control => 0 <= n <= 31 || n == 127
    case Digit => 48 <= n <= 57
    case Graphic => 33 <= n <= 126
    case Lower => 97 <= n <= 122
    case Punct => 33 <= n <= 47 || 58 <= n <= 64 || 91 <= n <= 96 || 123 <= n <= 126
    case Space => 9 <= n <= 13 || n == 32
    case Upper => 65 <= n <= 90
    case Alnum => 48 <= n <= 57 || 65 <= n <= 90 || 97 <= n <= 122
    case Hex => 48 <= n <= 57 || 65 <= n <= 70 || 97 <= n <= 102
    case Zero => n == 0
  }

  /** The letter that names a kind after '%'. */
  function LetterOf(k: Kind): char {
    match k
    case Alpha => 'a' case Control => 'c' case Digit => 'd' case Graphic => 'g' case Lower => 'l' case Punct => 'p'
    case Space => 's' case Upper => 'u' case Alnum => 'w' case Hex => 'x' case Zero => 'z'
  }

  /** And the capital that names everything else. */
  function CapitalOf(k: Kind): char {
    match k
    case Alpha => 'A' case Control => 'C' case Digit => 'D' case Graphic => 'G' case Lower => 'L' case Punct => 'P'
    case Space => 'S' case Upper => 'U' case Alnum => 'W' case Hex => 'X' case Zero => 'Z'
  }

  ghost predicate NamesKind(x: char) {
    exists k: Kind :: x == LetterOf(k) || x == CapitalOf(k)
  }

  lemma LetterIs(k: Kind, c: char)
    ensures MatchClass(c, LetterOf(k)) <==> IsKind(k, c)
  {
  }

  lemma CapitalIs(k: Kind, c: char)
    ensures MatchClass(c, CapitalOf(k)) <==> !IsKind(k, c)
  {
  }

  /** Any other character after '%' stands for itself. */
  lemma OtherIsItself(x: char, c: char)
    requires !NamesKind(x)
    ensures MatchClass(c, x) <==> c == x
  {
    forall k: Kind
      ensures x != LetterOf(k) && x != CapitalOf(k)
    {
    }
    assert x != LetterOf(Alpha) && x != LetterOf(Control) && x != LetterOf(Digit) && x != LetterOf(Graphic);
    assert x != LetterOf(Lower) && x != LetterOf(Punct) && x != LetterOf(Space) && x != LetterOf(Upper);
    assert x != LetterOf(Alnum) && x != LetterOf(Hex) && x != LetterOf(Zero);
    assert x != CapitalOf(Alpha) && x != CapitalOf(Control) && x != CapitalOf(Digit) && x != CapitalOf(Graphic);
    assert x != CapitalOf(Lower) && x != CapitalOf(Punct) && x != CapitalOf(Space) && x != CapitalOf(Upper);
    assert x != CapitalOf(Alnum) && x != CapitalOf(Hex) && x != CapitalOf(Zero);
  }

  // ----- Classes and sets -----

  datatype Member = One(c: char) | Range(a: char, b: char) | OfKind(k: Kind, all: bool)

  /** One character of the subject: any, a given one, one of a kind or not of it, one of a set or not of it. */
  datatype Class = Any | Itself(c: char) | Kinded(k: Kind, within: bool) | Set(members: seq<Member>, within: bool)

  predicate Names(m: Member, c: char) {
    match m
    case One(d) => c == d
    case Range(a, b) => a as int <= c as int <= b as int
    case OfKind(k, within) => IsKind(k, c) == within
  }

  predicate Listed(ms: seq<Member>, c: char) {
    exists i :: 0 <= i < |ms| && Names(ms[i], c)
  }

  predicate Accepts(k: Class, c: char) {
    match k
    case Any => true
    case Itself(d) => c == d
    case Kinded(kind, within) => IsKind(kind, c) == within
    case Set(ms, within) => Listed(ms, c) == within
  }

  // ----- As text -----

  /** A character that stands for itself: letters and digits do, the others after '%'. */
  function CharText(c: char): (t: string)
    ensures 1 <= |t| <= 2
  {
    if IsKind(Alnum, c) then [c] else ['%', c]
  }

  function KindText(k: Kind, within: bool): (t: string)
    ensures |t| == 2
  {
    ['%', if within then LetterOf(k) else CapitalOf(k)]
  }

  function MemberText(m: Member): (t: string)
    ensures 1 <= |t| <= 3
  {
    match m
    case One(c) => CharText(c)
    case Range(a, b) => [a, '-', b]
    case OfKind(k, within) => KindText(k, within)
  }

  /** A range's ends mean nothing else where they stand. */
  predicate Writable(m: Member) {
    m.Range? ==> m.a != '%' && m.a != ']' && m.a != '^' && m.a != '-' && m.b != '%' && m.b != ']'
  }

  function MembersText(ms: seq<Member>): string {
    if ms == [] then "" else MemberText(ms[0]) + MembersText(ms[1..])
  }

  function ClassText(k: Class): (t: string)
    ensures t != ""
  {
    match k
    case Any => "."
    case Itself(c) => CharText(c)
    case Kinded(kind, within) => KindText(kind, within)
    case Set(ms, within) => SetText(ms, within)
  }

  function SetOpening(within: bool): (t: string)
    ensures |t| == if within then 1 else 2
  {
    if within then "[" else "[^"
  }

  function SetText(ms: seq<Member>, within: bool): (t: string)
    ensures t != ""
  {
    SetOpening(within) + MembersText(ms) + "]"
  }

  predicate WritableClass(k: Class) {
    k.Set? ==> k.members != [] && AllWritable(k.members)
  }

  predicate AllWritable(ms: seq<Member>) {
    forall i :: 0 <= i < |ms| ==> Writable(ms[i])
  }

  /** t stands in pat at p. */
  predicate TextAt(pat: string, p: nat, t: string)
    decreases |t|
  {
    p + |t| <= |pat| && (t == "" || (pat[p] == t[0] && TextAt(pat, p + 1, t[1..])))
  }

  lemma {:induction false} CharInText(pat: string, p: nat, t: string, j: nat)
    requires TextAt(pat, p, t) && j < |t|
    ensures pat[p + j] == t[j]
    decreases j
  {
    if j > 0 {
      CharInText(pat, p + 1, t[1..], j - 1);
    }
  }

  lemma {:induction false} TwoTexts(pat: string, p: nat, a: string, b: string)
    requires TextAt(pat, p, a + b)
    ensures TextAt(pat, p, a) && TextAt(pat, p + |a|, b)
    decreases |a|
  {
    if a == "" {
      assert a + b == b;
    } else {
      assert (a + b)[1..] == a[1..] + b && (a + b)[0] == a[0];
      TwoTexts(pat, p + 1, a[1..], b);
    }
  }

  lemma {:induction false} OwnText(pat: string, p: nat)
    requires p <= |pat|
    ensures TextAt(pat, p, pat[p..])
    decreases |pat| - p
  {
    if p < |pat| {
      OwnText(pat, p + 1);
      assert pat[p..][1..] == pat[p + 1..];
    }
  }

  // ----- Members of a set -----

  lemma MemberFirst(m: Member)
    requires Writable(m)
    ensures MemberText(m)[0] !in ['-', ']', '^']
  {
  }

  /** The members stand from p to their bracket at ec. */
  ghost predicate MembersAt(pat: string, p: nat, ms: seq<Member>, ec: nat)
    decreases |ms|
  {
    p <= ec < |pat| && pat[ec] == ']' &&
    if ms == [] then p == ec
    else Writable(ms[0]) && TextAt(pat, p, MemberText(ms[0])) && MembersAt(pat, p + |MemberText(ms[0])|, ms[1..], ec)
  }

  lemma {:induction false} MembersStand(pat: string, p: nat, ms: seq<Member>)
    requires AllWritable(ms)
    requires TextAt(pat, p, MembersText(ms)) && p + |MembersText(ms)| < |pat| && pat[p + |MembersText(ms)|] == ']'
    ensures MembersAt(pat, p, ms, p + |MembersText(ms)|)
    decreases |ms|
  {
    if ms != [] {
      MembersStep(ms);
      SplitText(pat, p, MembersText(ms), MemberText(ms[0]), MembersText(ms[1..]));
      MembersStand(pat, p + |MemberText(ms[0])|, ms[1..]);
    }
  }

  lemma MembersStep(ms: seq<Member>)
    requires ms != []
    ensures MembersText(ms) == MemberText(ms[0]) + MembersText(ms[1..])
  {
  }

  lemma SplitText(pat: string, p: nat, t: string, a: string, b: string)
    requires t == a + b && TextAt(pat, p, t)
    ensures TextAt(pat, p, a) && TextAt(pat, p + |a|, b) && |t| == |a| + |b|
  {
    TwoTexts(pat, p, a, b);
  }

  /** What follows a member: the next one, or the bracket. */
  lemma AfterMember(pat: string, p: nat, ms: seq<Member>, ec: nat)
    requires MembersAt(pat, p, ms, ec)
    ensures pat[p] != '-' && pat[p] != '^' && (pat[p] == ']' <==> ms == [])
  {
    if ms != [] {
      MemberFirst(ms[0]);
      CharInText(pat, p, MemberText(ms[0]), 0);
    }
  }

  lemma CharIs(x: char, c: char)
    requires !IsKind(Alnum, x)
    ensures MatchClass(c, x) <==> c == x
  {
    OtherIsItself(x, c);
  }

  /** After '%', a member that takes two characters. */
  lemma EscapedMember(m: Member, c: char)
    requires Writable(m) && MemberText(m)[0] == '%'
    ensures |MemberText(m)| == 2 && (MatchClass(c, MemberText(m)[1]) <==> Names(m, c))
  {
    match m
    case One(d) => CharIs(d, c);
    case OfKind(k, within) =>
      LetterIs(k, c);
      CapitalIs(k, c);
    case Range(_, _) =>
  }

  lemma ListedFirst(ms: seq<Member>, c: char)
    requires ms != []
    ensures Listed(ms, c) <==> Names(ms[0], c) || Listed(ms[1..], c)
  {
    if Listed(ms[1..], c) {
      var i :| 0 <= i < |ms[1..]| && Names(ms[1..][i], c);
      assert ms[1..][i] == ms[i + 1];
    }
    if Listed(ms, c) && !Names(ms[0], c) {
      var i :| 0 <= i < |ms| && Names(ms[i], c);
      assert ms[1..][i - 1] == ms[i];
    }
  }

  lemma {:induction false} MembersIn(c: char, pat: string, p: nat, ms: seq<Member>, ec: nat)
    requires MembersAt(pat, p, ms, ec)
    ensures InSet(c, pat, p, ec) <==> Listed(ms, c)
    decreases |ms|
  {
    if ms != [] {
      var q := p + |MemberText(ms[0])|;
      AfterMember(pat, q, ms[1..], ec);
      MembersIn(c, pat, q, ms[1..], ec);
      ListedFirst(ms, c);
      MemberIn(c, pat, p, ms[0], ec);
    }
  }

  lemma MemberIn(c: char, pat: string, p: nat, m: Member, ec: nat)
    requires Writable(m) && TextAt(pat, p, MemberText(m)) && p + |MemberText(m)| <= ec < |pat| && pat[p + |MemberText(m)|] != '-'
    ensures InSet(c, pat, p, ec) <==> Names(m, c) || InSet(c, pat, p + |MemberText(m)|, ec)
  {
    var t := MemberText(m);
    CharInText(pat, p, t, 0);
    if t[0] == '%' {
      EscapedMember(m, c);
      CharInText(pat, p, t, 1);
    } else if m.Range? {
      CharInText(pat, p, t, 1);
      CharInText(pat, p, t, 2);
    }
  }

  lemma {:induction false} MembersEnd(pat: string, p: nat, ms: seq<Member>, ec: nat)
    requires ms != [] && MembersAt(pat, p, ms, ec)
    ensures SetEnd(pat, p) == Some(ec + 1)
    decreases |ms|
  {
    var q := p + |MemberText(ms[0])|;
    AfterMember(pat, q, ms[1..], ec);
    MemberEnd(pat, p, ms[0]);
    if |ms| > 1 {
      MembersEnd(pat, q, ms[1..], ec);
    } else {
      assert ms[1..] == [];
    }
  }

  lemma MemberEnd(pat: string, p: nat, m: Member)
    requires Writable(m) && TextAt(pat, p, MemberText(m)) && p + |MemberText(m)| < |pat|
    ensures var q := p + |MemberText(m)|; SetEnd(pat, p) == if pat[q] == ']' then Some(q + 1) else SetEnd(pat, q)
  {
    var t := MemberText(m);
    CharInText(pat, p, t, 0);
    if t[0] == '%' {
      EscapedMember(m, 'x');
    } else if m.Range? {
      assert t == [m.a, '-', m.b];
      CharInText(pat, p, t, 1);
      CharInText(pat, p, t, 2);
      assert SetEnd(pat, p) == SetEnd(pat, p + 1) == SetEnd(pat, p + 2);
    }
  }

  // ----- A class in a pattern -----

  lemma SetEnds(pat: string, p: nat, ms: seq<Member>, within: bool)
    requires ms != [] && AllWritable(ms) && TextAt(pat, p, SetText(ms, within))
    ensures ClassEnd(pat, p) == Some(p + |SetText(ms, within)|)
  {
    var ec := p + |SetText(ms, within)| - 1;
    SetTextAt(pat, p, ms, within);
    SetClassEnd(pat, p, ms, within, MembersText(ms), ec);
  }

  lemma SetClassEnd(pat: string, p: nat, ms: seq<Member>, within: bool, m: string, ec: nat)
    requires ms != [] && AllWritable(ms) && m == MembersText(ms) && Pieces(pat, p, within, m, ec)
    ensures ClassEnd(pat, p) == Some(ec + 1)
  {
    SetStands(pat, p, ms, within, m, ec);
    MembersEnd(pat, p + if within then 1 else 2, ms, ec);
  }

  /** The class that stands in the pattern at p ends where its text does. */
  lemma ClassEnds(pat: string, p: nat, k: Class)
    requires WritableClass(k) && TextAt(pat, p, ClassText(k))
    ensures ClassEnd(pat, p) == Some(p + |ClassText(k)|)
  {
    if k.Set? {
      SetEnds(pat, p, k.members, k.within);
    } else {
      CharInText(pat, p, ClassText(k), 0);
    }
  }

  /** The bracket, the members and the bracket that closes them. */
  lemma ThreeTexts(pat: string, p: nat, t: string, a: string, b: string)
    requires t == a + b + "]" && TextAt(pat, p, t)
    ensures TextAt(pat, p, a) && TextAt(pat, p + |a|, b) && |t| == |a| + |b| + 1 && p + |t| <= |pat| && pat[p + |t| - 1] == ']'
  {
    SplitText(pat, p, t, a + b, "]");
    SplitText(pat, p, a + b, a, b);
    CharInText(pat, p + |a + b|, "]", 0);
  }

  lemma OpeningIs(pat: string, p: nat, within: bool)
    requires TextAt(pat, p, SetOpening(within))
    ensures pat[p] == '[' && (!within ==> pat[p + 1] == '^')
  {
    CharInText(pat, p, SetOpening(within), 0);
    if !within {
      CharInText(pat, p, SetOpening(within), 1);
    }
  }

  /** A set whose members' text is m stands between p and its bracket at ec. */
  predicate Pieces(pat: string, p: nat, within: bool, m: string, ec: nat) {
    var q := p + if within then 1 else 2;
    && q + |m| == ec < |pat| && pat[p] == '[' && (!within ==> pat[p + 1] == '^') && TextAt(pat, q, m) && pat[ec] == ']'
  }

  lemma SetPieces(pat: string, p: nat, t: string, within: bool, m: string)
    requires TextAt(pat, p, t) && t == SetOpening(within) + m + "]"
    ensures Pieces(pat, p, within, m, p + |t| - 1)
  {
    ThreeTexts(pat, p, t, SetOpening(within), m);
    OpeningIs(pat, p, within);
  }

  lemma SetTextAt(pat: string, p: nat, ms: seq<Member>, within: bool)
    requires TextAt(pat, p, SetText(ms, within))
    ensures Pieces(pat, p, within, MembersText(ms), p + |SetText(ms, within)| - 1)
  {
    SetPieces(pat, p, SetText(ms, within), within, MembersText(ms));
  }

  /** A set opens with its bracket, and with '^' exactly when it means the others. */
  lemma SetStands(pat: string, p: nat, ms: seq<Member>, within: bool, m: string, ec: nat)
    requires AllWritable(ms) && m == MembersText(ms) && Pieces(pat, p, within, m, ec)
    ensures pat[p] == '[' && (At(pat, p + 1) == '^' <==> !within)
    ensures MembersAt(pat, p + (if within then 1 else 2), ms, ec)
  {
    SetMembers(pat, p + if within then 1 else 2, ms, m, ec);
  }

  lemma SetMembers(pat: string, q: nat, ms: seq<Member>, m: string, ec: nat)
    requires m == MembersText(ms) && AllWritable(ms)
    requires TextAt(pat, q, m) && q + |m| == ec < |pat| && pat[ec] == ']'
    ensures MembersAt(pat, q, ms, ec) && q < |pat| && pat[q] != '^'
  {
    MembersStand(pat, q, ms);
    AfterMember(pat, q, ms, ec);
  }

  /** And accepts the characters the class does. */
  lemma ClassAccepts(sub: string, s: nat, pat: string, p: nat, k: Class)
    requires WritableClass(k) && TextAt(pat, p, ClassText(k))
    ensures Single(sub, pat, s, p, p + |ClassText(k)|) <==> s < |sub| && Accepts(k, sub[s])
  {
    if s < |sub| {
      var c, t := sub[s], ClassText(k);
      CharInText(pat, p, t, 0);
      match k
      case Any =>
      case Itself(d) =>
        if !IsKind(Alnum, d) {
          CharIs(d, c);
          CharInText(pat, p, t, 1);
        }
      case Kinded(kind, within) =>
        LetterIs(kind, c);
        CapitalIs(kind, c);
        CharInText(pat, p, t, 1);
      case Set(ms, within) => SetAccepts(c, pat, p, k);
    }
  }

  lemma SetAccepts(c: char, pat: string, p: nat, k: Class)
    requires k.Set? && WritableClass(k) && TextAt(pat, p, ClassText(k))
    ensures pat[p] == '[' && (MatchSet(c, pat, p, p + |ClassText(k)| - 1) <==> Accepts(k, c))
  {
    SetMatches(c, pat, p, k.members, k.within);
  }

  lemma SetMatches(c: char, pat: string, p: nat, ms: seq<Member>, within: bool)
    requires AllWritable(ms) && TextAt(pat, p, SetText(ms, within))
    ensures pat[p] == '[' && (MatchSet(c, pat, p, p + |SetText(ms, within)| - 1) <==> (Listed(ms, c) == within))
  {
    var ec := p + |SetText(ms, within)| - 1;
    SetTextAt(pat, p, ms, within);
    SetStands(pat, p, ms, within, MembersText(ms), ec);
    MembersIn(c, pat, p + if within then 1 else 2, ms, ec);
  }

  // ----- Patterns -----

  /** How often a class is matched; few is as many, but shorter matches are preferred. */
  datatype Times = Once | Optional | Many | Repeated | Few

  datatype Node =
    | Chars(k: Class, times: Times)
    | Open
    | Position
    | Close
    | Nested(x: char, y: char)      // %bxy
    | Border(k: Class)              // %f[set]
    | Again(n: nat)                 // %1 to %9

  function TimesText(t: Times): string {
    match t
    case Once => "" case Optional => "?" case Many => "*" case Repeated => "+" case Few => "-"
  }

  function DigitOf(n: nat): char {
    (48 + n % 10) as char
  }

  function NodeText(n: Node): (t: string)
    ensures t != ""
  {
    match n
    case Chars(k, times) => ClassText(k) + TimesText(times)
    case Open => "("
    case Position => "()"
    case Close => ")"
    case Nested(x, y) => ['%', 'b', x, y]
    case Border(k) => "%f" + ClassText(k)
    case Again(n) => ['%', DigitOf(n)]
  }

  predicate WritableNode(n: Node) {
    match n
    case Chars(k, _) => WritableClass(k)
    case Border(k) => k.Set? && WritableClass(k)
    case Again(n) => 1 <= n <= 9
    case _ => true
  }

  /** An empty pair of parentheses would be a position. */
  predicate WritableAll(ns: seq<Node>) {
    && (forall i :: 0 <= i < |ns| ==> WritableNode(ns[i]))
    && (forall i :: 0 <= i < |ns| - 1 ==> NoEmptyPair(ns, i))
  }

  predicate NoEmptyPair(ns: seq<Node>, i: int)
    requires 0 <= i < |ns| - 1
  {
    !(ns[i].Open? && ns[i + 1].Close?)
  }

  /** The pattern's text; to the end of the subject, with '$'. */
  function PatternText(ns: seq<Node>, toEnd: bool): string
  {
    if ns == [] then if toEnd then "$" else "" else NodeText(ns[0]) + PatternText(ns[1..], toEnd)
  }

  // ----- What it matches -----

  predicate Allows(t: Times, n: nat) {
    match t
    case Once => n == 1
    case Optional => n <= 1
    case Many | Few => true
    case Repeated => n >= 1
  }

  ghost predicate AllAccepted(sub: string, k: Class, s: nat, t: nat) {
    t <= |sub| && forall i :: s <= i < t ==> Accepts(k, sub[i])
  }

  /** As many characters as allowed, each accepted. */
  ghost predicate Run(sub: string, k: Class, times: Times, s: nat, t: nat) {
    s <= t && Allows(times, t - s) && (s == t || AllAccepted(sub, k, s, t))
  }

  /** The subject's character at i; a zero before its start and after its end. */
  function CharAt(sub: string, i: int): char {
    if 0 <= i < |sub| then sub[i] else 0 as char
  }

  /** Capture l is open, and none after it. */
  predicate LastOpenIs(caps: Caps, l: nat) {
    l < |caps| && caps[l].len == CAP_UNFINISHED && forall i :: l < i < |caps| ==> caps[i].len != CAP_UNFINISHED
  }

  /** The text of a closed capture stands at s again. */
  predicate StandsAgain(sub: string, c: Capture, s: nat) {
    c.len >= 0 && c.init + c.len <= |sub| && s + c.len <= |sub| && sub[c.init..c.init + c.len] == sub[s..s + c.len]
  }

  /** h is a way for the items to match from s with captures caps so far. */
  ghost predicate Means(sub: string, ns: seq<Node>, toEnd: bool, s: nat, caps: Caps, h: Hit)
    decreases |ns|
  {
    if ns == [] then h == Hit(s, caps) && (toEnd ==> s == |sub|)
    else
      var rest := ns[1..];
      match ns[0]
      case Chars(k, times) =>
        exists t: nat :: Run(sub, k, times, s, t) && Means(sub, rest, toEnd, t, caps, h)
      case Open => |caps| < 32 && Means(sub, rest, toEnd, s, caps + [Capture(s, CAP_UNFINISHED)], h)
      case Position => |caps| < 32 && Means(sub, rest, toEnd, s, caps + [Capture(s, CAP_POSITION)], h)
      case Close =>
        exists l: nat :: LastOpenIs(caps, l) && Means(sub, rest, toEnd, s, caps[l := Capture(caps[l].init, s - caps[l].init)], h)
      case Nested(x, y) => exists t: nat :: s < |sub| && IsBalanced(sub, s, t, x, y) && Means(sub, rest, toEnd, t, caps, h)
      case Border(k) =>
        !Accepts(k, CharAt(sub, s - 1)) && Accepts(k, CharAt(sub, s)) && Means(sub, rest, toEnd, s, caps, h)
      case Again(n) =>
        1 <= n <= |caps| && StandsAgain(sub, caps[n - 1], s) && Means(sub, rest, toEnd, s + caps[n - 1].len, caps, h)
  }

  // ----- The items of the text -----

  lemma ClassItem(pat: string, p: nat, k: Class)
    requires WritableClass(k) && TextAt(pat, p, ClassText(k))
    ensures p < |pat| && ItemAt(pat, p) == LuaSpec.Class(p + |ClassText(k)|, At(pat, p + |ClassText(k)|))
  {
    ClassEnds(pat, p, k);
    CharInText(pat, p, ClassText(k), 0);
    if (k.Itself? && !IsKind(Alnum, k.c)) || k.Kinded? {
      CharInText(pat, p, ClassText(k), 1);
    }
  }

  lemma BorderItem(pat: string, p: nat, k: Class)
    requires k.Set? && WritableClass(k) && TextAt(pat, p + 2, ClassText(k)) && pat[p] == '%' && pat[p + 1] == 'f'
    ensures ItemAt(pat, p) == LuaSpec.FrontierSet(p + 2 + |ClassText(k)|)
  {
    ClassEnds(pat, p + 2, k);
    SetTextAt(pat, p + 2, k.members, k.within);
  }

  // ----- From items of the text to what they mean -----

  /** The class of the pattern between p and ep accepts the characters k does. */
  ghost predicate SameChars(sub: string, pat: string, p: nat, ep: nat, k: Class)
    requires p < ep <= |pat|
  {
    forall i: nat :: Single(sub, pat, i, p, ep) <==> i < |sub| && Accepts(k, sub[i])
  }

  lemma ClassSame(sub: string, pat: string, p: nat, k: Class)
    requires WritableClass(k) && TextAt(pat, p, ClassText(k))
    ensures SameChars(sub, pat, p, p + |ClassText(k)|, k)
  {
    forall i: nat
      ensures Single(sub, pat, i, p, p + |ClassText(k)|) <==> i < |sub| && Accepts(k, sub[i])
    {
      ClassAccepts(sub, i, pat, p, k);
    }
  }

  lemma SameRun(sub: string, s: nat, t: nat, pat: string, p: nat, ep: nat, k: Class)
    requires p < ep <= |pat| && SameChars(sub, pat, p, ep, k) && s < t
    ensures AllSingle(sub, pat, s, t, p, ep) <==> AllAccepted(sub, k, s, t)
  {
    if AllSingle(sub, pat, s, t, p, ep) {
      assert Single(sub, pat, t - 1, p, ep);
    }
  }

  predicate SuffixIs(x: char, times: Times) {
    match times
    case Once => x !in ['*', '+', '?', '-']
    case Optional => x == '?'
    case Many => x == '*'
    case Repeated => x == '+'
    case Few => x == '-'
  }

  /** A class item stands between p and q. */
  ghost predicate CharsAt(sub: string, pat: string, p: nat, k: Class, times: Times, q: nat) {
    && p < q <= |pat| && ItemAt(pat, p).Class? && SameChars(sub, pat, p, ItemAt(pat, p).ep, k)
    && SuffixIs(ItemAt(pat, p).suffix, times) && q == ItemAt(pat, p).ep + (if times == Once then 0 else 1)
  }

  ghost predicate BorderAt(sub: string, pat: string, p: nat, k: Class, q: nat)
    requires p < q
  {
    forall s: nat :: BorderHere(sub, pat, p, k, q, s)
  }

  ghost predicate BorderHere(sub: string, pat: string, p: nat, k: Class, q: nat, s: nat)
    requires p < q
  {
    Frontier(sub, pat, s, p, q) <==> !Accepts(k, CharAt(sub, s - 1)) && Accepts(k, CharAt(sub, s))
  }

  /** The item between p and q of the pattern is the one the node says. */
  ghost predicate ItemIs(sub: string, pat: string, p: nat, n: Node, q: nat) {
    p < q <= |pat| &&
    match n
    case Chars(k, times) => CharsAt(sub, pat, p, k, times, q)
    case Open => ItemAt(pat, p) == LuaSpec.Open(false) && q == p + 1
    case Position => ItemAt(pat, p) == LuaSpec.Open(true) && q == p + 2
    case Close => ItemAt(pat, p) == LuaSpec.Close && q == p + 1
    case Nested(x, y) => ItemAt(pat, p) == LuaSpec.Balanced && q == p + 4 && pat[p + 2] == x && pat[p + 3] == y
    case Border(k) => ItemAt(pat, p) == LuaSpec.FrontierSet(q) && p + 2 < q && BorderAt(sub, pat, p + 2, k, q)
    case Again(n) => 1 <= n <= 9 && ItemAt(pat, p) == LuaSpec.Back(DigitOf(n)) && q == p + 2
  }

  lemma SingleRun(sub: string, pat: string, p: nat, ep: nat, k: Class, times: Times, s: nat)
    requires p < ep <= |pat| && SameChars(sub, pat, p, ep, k) && (times == Once || times == Optional)
    ensures Single(sub, pat, s, p, ep) <==> Run(sub, k, times, s, s + 1)
  {
  }

  lemma LongRun(sub: string, pat: string, p: nat, ep: nat, k: Class, times: Times, s: nat, t: nat)
    requires p < ep <= |pat| && SameChars(sub, pat, p, ep, k) && s <= t
    requires times == Many || times == Few || (times == Repeated && s < t)
    ensures AllSingle(sub, pat, s, t, p, ep) <==> Run(sub, k, times, s, t)
  {
    if s < t {
      SameRun(sub, s, t, pat, p, ep, k);
    }
  }

  lemma RunOf(sub: string, pat: string, p: nat, k: Class, times: Times, s: nat, q: nat, caps: Caps, h: Hit) returns (t: nat)
    requires CharsAt(sub, pat, p, k, times, q) && Derives(sub, pat, s, p, caps, h)
    ensures Run(sub, k, times, s, t) && Derives(sub, pat, t, q, caps, h)
  {
    var ep := ItemAt(pat, p).ep;
    match times
    case Once =>
      t := s + 1;
      SingleRun(sub, pat, p, ep, k, times, s);
    case Optional =>
      t := if Derives(sub, pat, s, q, caps, h) then s else s + 1;
      SingleRun(sub, pat, p, ep, k, times, s);
    case Repeated =>
      t :| s < t && AllSingle(sub, pat, s, t, p, ep) && Derives(sub, pat, t, q, caps, h);
      LongRun(sub, pat, p, ep, k, times, s, t);
    case _ =>
      t :| s <= t && AllSingle(sub, pat, s, t, p, ep) && Derives(sub, pat, t, q, caps, h);
      LongRun(sub, pat, p, ep, k, times, s, t);
  }

  lemma OfRun(sub: string, pat: string, p: nat, k: Class, times: Times, s: nat, t: nat, q: nat, caps: Caps, h: Hit)
    requires CharsAt(sub, pat, p, k, times, q) && Run(sub, k, times, s, t) && Derives(sub, pat, t, q, caps, h)
    ensures Derives(sub, pat, s, p, caps, h)
  {
    if times == Once || times == Optional {
      SingleRun(sub, pat, p, ItemAt(pat, p).ep, k, times, s);
    } else {
      LongRun(sub, pat, p, ItemAt(pat, p).ep, k, times, s, t);
    }
  }

  /** The text from q on means what the items say, wherever it is come to. */
  ghost predicate RestMeans(sub: string, pat: string, q: nat, rest: seq<Node>, toEnd: bool) {
    q <= |pat| && forall s: nat, caps: Caps, h: Hit :: Same(sub, pat, q, rest, toEnd, s, caps, h)
  }

  ghost predicate Same(sub: string, pat: string, p: nat, ns: seq<Node>, toEnd: bool, s: nat, caps: Caps, h: Hit)
    requires p <= |pat|
  {
    Derives(sub, pat, s, p, caps, h) <==> Means(sub, ns, toEnd, s, caps, h)
  }

  lemma CharsSame(sub: string, pat: string, p: nat, ns: seq<Node>, toEnd: bool, q: nat, s: nat, caps: Caps, h: Hit)
    requires ns != [] && ns[0].Chars? && CharsAt(sub, pat, p, ns[0].k, ns[0].times, q) && RestMeans(sub, pat, q, ns[1..], toEnd)
    ensures Same(sub, pat, p, ns, toEnd, s, caps, h)
  {
    var k, times := ns[0].k, ns[0].times;
    if Derives(sub, pat, s, p, caps, h) {
      var t := RunOf(sub, pat, p, k, times, s, q, caps, h);
      assert Same(sub, pat, q, ns[1..], toEnd, t, caps, h);
    }
    if Means(sub, ns, toEnd, s, caps, h) {
      var t: nat :| Run(sub, k, times, s, t) && Means(sub, ns[1..], toEnd, t, caps, h);
      assert Same(sub, pat, q, ns[1..], toEnd, t, caps, h);
      OfRun(sub, pat, p, k, times, s, t, q, caps, h);
    }
  }

  lemma {:induction false} ToCloseIs(caps: Caps, l: nat)
    ensures ToClose(caps) == Some(l) <==> LastOpenIs(caps, l)
  {
    if caps != [] && caps[|caps| - 1].len != CAP_UNFINISHED {
      ToCloseIs(caps[..|caps| - 1], l);
    }
  }

  lemma CloseSame(sub: string, pat: string, p: nat, ns: seq<Node>, toEnd: bool, s: nat, caps: Caps, h: Hit)
    requires ns != [] && ns[0].Close? && ItemIs(sub, pat, p, ns[0], p + 1) && RestMeans(sub, pat, p + 1, ns[1..], toEnd)
    ensures Same(sub, pat, p, ns, toEnd, s, caps, h)
  {
    if ToClose(caps).Some? {
      var l := ToClose(caps).value;
      ToCloseIs(caps, l);
      assert Same(sub, pat, p + 1, ns[1..], toEnd, s, Closed(caps, l, s), h);
    }
    forall l: nat | LastOpenIs(caps, l)
      ensures ToClose(caps) == Some(l)
    {
      ToCloseIs(caps, l);
    }
  }

  lemma NestedSame(sub: string, pat: string, p: nat, ns: seq<Node>, toEnd: bool, s: nat, caps: Caps, h: Hit)
    requires ns != [] && ns[0].Nested? && ItemIs(sub, pat, p, ns[0], p + 4) && RestMeans(sub, pat, p + 4, ns[1..], toEnd)
    ensures Same(sub, pat, p, ns, toEnd, s, caps, h)
  {
    var b := Balance(sub, s, ns[0].x, ns[0].y);
    if b.Some? {
      BalanceIsShortest(sub, s, ns[0].x, ns[0].y, b.value);
      assert Same(sub, pat, p + 4, ns[1..], toEnd, b.value, caps, h);
    }
    forall t: nat | s < |sub| && IsBalanced(sub, s, t, ns[0].x, ns[0].y)
      ensures b == Some(t)
    {
      BalanceIsShortest(sub, s, ns[0].x, ns[0].y, t);
    }
  }

  lemma BorderSame(sub: string, pat: string, p: nat, ns: seq<Node>, toEnd: bool, q: nat, s: nat, caps: Caps, h: Hit)
    requires ns != [] && ns[0].Border? && ItemIs(sub, pat, p, ns[0], q) && RestMeans(sub, pat, q, ns[1..], toEnd)
    ensures Same(sub, pat, p, ns, toEnd, s, caps, h)
  {
    assert BorderHere(sub, pat, p + 2, ns[0].k, q, s);
    assert Same(sub, pat, q, ns[1..], toEnd, s, caps, h);
  }

  lemma BackRefIs(sub: string, s: nat, n: nat, caps: Caps)
    requires 1 <= n <= 9
    ensures BackRef(sub, s, DigitOf(n), caps)
         == if n <= |caps| && StandsAgain(sub, caps[n - 1], s) then Some(s + caps[n - 1].len) else None
  {
  }

  lemma AgainSame(sub: string, pat: string, p: nat, ns: seq<Node>, toEnd: bool, s: nat, caps: Caps, h: Hit)
    requires ns != [] && ns[0].Again? && ItemIs(sub, pat, p, ns[0], p + 2) && RestMeans(sub, pat, p + 2, ns[1..], toEnd)
    ensures Same(sub, pat, p, ns, toEnd, s, caps, h)
  {
    var n := ns[0].n;
    BackRefIs(sub, s, n, caps);
    if n <= |caps| && StandsAgain(sub, caps[n - 1], s) {
      assert Same(sub, pat, p + 2, ns[1..], toEnd, s + caps[n - 1].len, caps, h);
    }
  }

  lemma OpenSame(sub: string, pat: string, p: nat, ns: seq<Node>, toEnd: bool, q: nat, s: nat, caps: Caps, h: Hit)
    requires ns != [] && (ns[0].Open? || ns[0].Position?) && ItemIs(sub, pat, p, ns[0], q) && RestMeans(sub, pat, q, ns[1..], toEnd)
    ensures Same(sub, pat, p, ns, toEnd, s, caps, h)
  {
    var len := if ns[0].Open? then CAP_UNFINISHED else CAP_POSITION;
    assert Same(sub, pat, q, ns[1..], toEnd, s, caps + [Capture(s, len)], h);
  }

  lemma FirstSame(sub: string, pat: string, p: nat, ns: seq<Node>, toEnd: bool, q: nat, s: nat, caps: Caps, h: Hit)
    requires ns != [] && ItemIs(sub, pat, p, ns[0], q) && RestMeans(sub, pat, q, ns[1..], toEnd)
    ensures Same(sub, pat, p, ns, toEnd, s, caps, h)
  {
    match ns[0]
    case Chars(_, _) => CharsSame(sub, pat, p, ns, toEnd, q, s, caps, h);
    case Close => CloseSame(sub, pat, p, ns, toEnd, s, caps, h);
    case Nested(_, _) => NestedSame(sub, pat, p, ns, toEnd, s, caps, h);
    case Border(_) => BorderSame(sub, pat, p, ns, toEnd, q, s, caps, h);
    case Again(_) => AgainSame(sub, pat, p, ns, toEnd, s, caps, h);
    case _ => OpenSame(sub, pat, p, ns, toEnd, q, s, caps, h);
  }

  lemma FirstMeans(sub: string, pat: string, p: nat, ns: seq<Node>, toEnd: bool, q: nat)
    requires ns != [] && ItemIs(sub, pat, p, ns[0], q) && RestMeans(sub, pat, q, ns[1..], toEnd)
    ensures RestMeans(sub, pat, p, ns, toEnd)
  {
    forall s: nat, caps: Caps, h: Hit
      ensures Same(sub, pat, p, ns, toEnd, s, caps, h)
    {
      FirstSame(sub, pat, p, ns, toEnd, q, s, caps, h);
    }
  }

  lemma EndMeans(sub: string, pat: string, p: nat, toEnd: bool)
    requires if toEnd then p + 1 == |pat| && pat[p] == '$' else p == |pat|
    ensures RestMeans(sub, pat, p, [], toEnd)
  {
  }

  // ----- From the text to its items -----

  lemma BorderIs(sub: string, pat: string, p: nat, k: Class, s: nat)
    requires k.Set? && WritableClass(k) && TextAt(pat, p, ClassText(k))
    ensures BorderHere(sub, pat, p, k, p + |ClassText(k)|, s)
  {
    SetAccepts(CharAt(sub, s - 1), pat, p, k);
    SetAccepts(CharAt(sub, s), pat, p, k);
  }

  /** What may follow an item: no suffix, and no ')' after '('. */
  predicate Follows(n: Node, x: char) {
    x !in ['*', '+', '?', '-'] && (n.Open? ==> x != ')')
  }

  lemma CharsStand(sub: string, pat: string, p: nat, k: Class, times: Times, q: nat)
    requires WritableClass(k) && TextAt(pat, p, ClassText(k)) && q == p + |ClassText(k)| + (if times == Once then 0 else 1) <= |pat|
    requires At(pat, q) !in ['*', '+', '?', '-'] && (times != Once ==> SuffixIs(pat[q - 1], times))
    ensures CharsAt(sub, pat, p, k, times, q)
  {
    ClassItem(pat, p, k);
    ClassSame(sub, pat, p, k);
  }

  lemma BorderStands(sub: string, pat: string, p: nat, k: Class)
    requires k.Set? && WritableClass(k) && TextAt(pat, p + 2, ClassText(k)) && pat[p] == '%' && pat[p + 1] == 'f'
    ensures ItemIs(sub, pat, p, Border(k), p + 2 + |ClassText(k)|)
  {
    BorderItem(pat, p, k);
    BorderHolds(sub, pat, p + 2, k, p + 2 + |ClassText(k)|);
  }

  lemma BorderHolds(sub: string, pat: string, p: nat, k: Class, q: nat)
    requires k.Set? && WritableClass(k) && TextAt(pat, p, ClassText(k)) && q == p + |ClassText(k)|
    ensures BorderAt(sub, pat, p, k, q)
  {
    forall s: nat
      ensures BorderHere(sub, pat, p, k, q, s)
    {
      BorderIs(sub, pat, p, k, s);
    }
  }

  /** The node's text stands between p and q. */
  ghost predicate NodeAt(pat: string, p: nat, n: Node, q: nat) {
    p < q <= |pat| &&
    match n
    case Chars(k, times) =>
      && WritableClass(k) && TextAt(pat, p, ClassText(k))
      && q == p + |ClassText(k)| + (if times == Once then 0 else 1) && (times != Once ==> SuffixIs(pat[q - 1], times))
    case Open => q == p + 1 && pat[p] == '('
    case Position => q == p + 2 && pat[p] == '(' && pat[p + 1] == ')'
    case Close => q == p + 1 && pat[p] == ')'
    case Nested(x, y) => q == p + 4 && pat[p] == '%' && pat[p + 1] == 'b' && pat[p + 2] == x && pat[p + 3] == y
    case Border(k) =>
      && k.Set? && WritableClass(k) && q == p + 2 + |ClassText(k)| && pat[p] == '%' && pat[p + 1] == 'f'
      && TextAt(pat, p + 2, ClassText(k))
    case Again(n) => q == p + 2 && 1 <= n <= 9 && pat[p] == '%' && pat[p + 1] == DigitOf(n)
  }

  lemma CharsText(pat: string, p: nat, k: Class, times: Times, t: string)
    requires WritableClass(k) && t == ClassText(k) + TimesText(times) && TextAt(pat, p, t)
    ensures NodeAt(pat, p, Chars(k, times), p + |t|)
  {
    SplitText(pat, p, t, ClassText(k), TimesText(times));
    if times != Once {
      CharInText(pat, p + |ClassText(k)|, TimesText(times), 0);
    }
  }

  lemma BorderText(pat: string, p: nat, k: Class, t: string)
    requires k.Set? && WritableClass(k) && t == "%f" + ClassText(k) && TextAt(pat, p, t)
    ensures NodeAt(pat, p, Border(k), p + |t|)
  {
    SplitText(pat, p, t, "%f", ClassText(k));
    CharInText(pat, p, "%f", 0);
    CharInText(pat, p, "%f", 1);
  }

  lemma ShortText(pat: string, p: nat, n: Node, t: string)
    requires !n.Chars? && !n.Border? && WritableNode(n) && t == NodeText(n) && TextAt(pat, p, t)
    ensures NodeAt(pat, p, n, p + |t|)
  {
    CharInText(pat, p, t, 0);
    if |t| > 1 {
      CharInText(pat, p, t, 1);
    }
    if |t| > 2 {
      CharInText(pat, p, t, 2);
      CharInText(pat, p, t, 3);
    }
  }

  lemma NodeTextAt(pat: string, p: nat, n: Node, t: string)
    requires WritableNode(n) && t == NodeText(n) && TextAt(pat, p, t)
    ensures NodeAt(pat, p, n, p + |t|)
  {
    match n
    case Chars(k, times) => CharsText(pat, p, k, times, t);
    case Border(k) => BorderText(pat, p, k, t);
    case _ => ShortText(pat, p, n, t);
  }

  /** What a node begins with. */
  lemma NodeBegins(pat: string, p: nat, n: Node, q: nat)
    requires NodeAt(pat, p, n, q)
    ensures pat[p] !in ['*', '+', '?', '-'] && (pat[p] == ')' <==> n.Close?)
  {
    if n.Chars? {
      ClassBegins(n.k);
      CharInText(pat, p, ClassText(n.k), 0);
    }
  }

  lemma ClassBegins(k: Class)
    ensures ClassText(k)[0] !in ['*', '+', '?', '-', ')']
  {
  }

  lemma ShortStands(sub: string, pat: string, p: nat, n: Node, q: nat)
    requires NodeAt(pat, p, n, q) && Follows(n, At(pat, q)) && !n.Chars? && !n.Border?
    ensures ItemIs(sub, pat, p, n, q)
  {
  }

  lemma NodeStands(sub: string, pat: string, p: nat, n: Node, q: nat)
    requires NodeAt(pat, p, n, q) && Follows(n, At(pat, q))
    ensures ItemIs(sub, pat, p, n, q)
  {
    match n
    case Chars(k, times) => CharsStand(sub, pat, p, k, times, q);
    case Border(k) => BorderStands(sub, pat, p, k);
    case _ => ShortStands(sub, pat, p, n, q);
  }

  // ----- The whole text -----

  /** The nodes stand one after the other, each from its place in the list to the next. */
  ghost predicate LaidOut(pat: string, at: seq<nat>, ns: seq<Node>, toEnd: bool) {
    && |at| == |ns| + 1 && (forall i :: 0 <= i < |ns| ==> StandsAt(pat, at, ns, i))
    && (forall i :: 0 <= i < |ns| - 1 ==> NoEmptyPair(ns, i)) && EndsAt(pat, at[|ns|], toEnd)
  }

  ghost predicate StandsAt(pat: string, at: seq<nat>, ns: seq<Node>, i: int)
    requires 0 <= i < |ns| && |at| == |ns| + 1
  {
    NodeAt(pat, at[i], ns[i], at[i + 1])
  }

  predicate EndsAt(pat: string, p: nat, toEnd: bool) {
    if toEnd then p + 1 == |pat| && pat[p] == '$' else p == |pat|
  }

  lemma {:induction false} Places(pat: string, p: nat, ns: seq<Node>, toEnd: bool) returns (at: seq<nat>)
    requires (forall i :: 0 <= i < |ns| ==> WritableNode(ns[i])) && TextAt(pat, p, PatternText(ns, toEnd))
    requires p + |PatternText(ns, toEnd)| == |pat|
    ensures |at| == |ns| + 1 && at[0] == p && EndsAt(pat, at[|ns|], toEnd)
    ensures forall i :: 0 <= i < |ns| ==> StandsAt(pat, at, ns, i)
    decreases |ns|
  {
    if ns == [] {
      at := [p];
      if toEnd {
        CharInText(pat, p, "$", 0);
      }
    } else {
      var q := p + |NodeText(ns[0])|;
      FirstPlace(pat, p, ns, toEnd, q);
      var later := Places(pat, q, ns[1..], toEnd);
      at := [p] + later;
      MorePlaces(pat, p, later, ns);
    }
  }

  lemma FirstPlace(pat: string, p: nat, ns: seq<Node>, toEnd: bool, q: nat)
    requires ns != [] && WritableNode(ns[0]) && TextAt(pat, p, PatternText(ns, toEnd)) && p + |PatternText(ns, toEnd)| == |pat|
    requires q == p + |NodeText(ns[0])|
    ensures NodeAt(pat, p, ns[0], q) && TextAt(pat, q, PatternText(ns[1..], toEnd)) && q + |PatternText(ns[1..], toEnd)| == |pat|
  {
    PatternStep(ns, toEnd);
    SplitText(pat, p, PatternText(ns, toEnd), NodeText(ns[0]), PatternText(ns[1..], toEnd));
    NodeTextAt(pat, p, ns[0], NodeText(ns[0]));
  }

  lemma MorePlaces(pat: string, p: nat, later: seq<nat>, ns: seq<Node>)
    requires ns != [] && |later| == |ns| && NodeAt(pat, p, ns[0], later[0])
    requires forall i :: 0 <= i < |ns[1..]| ==> StandsAt(pat, later, ns[1..], i)
    ensures forall i :: 0 <= i < |ns| ==> StandsAt(pat, [p] + later, ns, i)
  {
    forall i | 0 <= i < |ns|
      ensures StandsAt(pat, [p] + later, ns, i)
    {
      if i > 0 {
        assert StandsAt(pat, later, ns[1..], i - 1);
      }
    }
  }

  lemma PatternStep(ns: seq<Node>, toEnd: bool)
    requires ns != []
    ensures PatternText(ns, toEnd) == NodeText(ns[0]) + PatternText(ns[1..], toEnd)
  {
  }

  lemma Following(pat: string, at: seq<nat>, ns: seq<Node>, toEnd: bool, i: nat)
    requires LaidOut(pat, at, ns, toEnd) && i < |ns|
    ensures NodeAt(pat, at[i], ns[i], at[i + 1]) && Follows(ns[i], At(pat, at[i + 1]))
  {
    assert StandsAt(pat, at, ns, i);
    if i + 1 < |ns| {
      assert StandsAt(pat, at, ns, i + 1) && NoEmptyPair(ns, i);
      NodeBegins(pat, at[i + 1], ns[i + 1], at[i + 2]);
    }
  }

  lemma {:induction false} RestIsMeant(sub: string, pat: string, at: seq<nat>, ns: seq<Node>, toEnd: bool, i: nat)
    requires LaidOut(pat, at, ns, toEnd) && i <= |ns|
    ensures RestMeans(sub, pat, at[i], ns[i..], toEnd)
    decreases |ns| - i
  {
    if i == |ns| {
      assert ns[i..] == [];
      EndMeans(sub, pat, at[i], toEnd);
    } else {
      Following(pat, at, ns, toEnd, i);
      NodeStands(sub, pat, at[i], ns[i], at[i + 1]);
      RestIsMeant(sub, pat, at, ns, toEnd, i + 1);
      assert ns[i..][0] == ns[i] && ns[i..][1..] == ns[i + 1..];
      FirstMeans(sub, pat, at[i], ns[i..], toEnd, at[i + 1]);
    }
  }

  /** A pattern's text matches, on every subject and from every place, exactly what its items mean. */
  lemma TextIsMeant(sub: string, ns: seq<Node>, toEnd: bool, s: nat, h: Hit)
    requires WritableAll(ns)
    ensures h in All(sub, PatternText(ns, toEnd), s, 0, []) <==> Means(sub, ns, toEnd, s, [], h)
  {
    var pat := PatternText(ns, toEnd);
    OwnText(pat, 0);
    assert pat[0..] == pat;
    var at := Places(pat, 0, ns, toEnd);
    MeantFrom(sub, pat, at, ns, toEnd, s, h);
  }

  lemma MeantFrom(sub: string, pat: string, at: seq<nat>, ns: seq<Node>, toEnd: bool, s: nat, h: Hit)
    requires LaidOut(pat, at, ns, toEnd) && at[0] == 0
    ensures h in All(sub, pat, s, 0, []) <==> Means(sub, ns, toEnd, s, [], h)
  {
    RestIsMeant(sub, pat, at, ns, toEnd, 0);
    assert ns[0..] == ns;
    assert Same(sub, pat, 0, ns, toEnd, s, [], h);
    AllIsDerives(sub, pat, s, 0, [], h);
  }
}
