/**
 What a Lua pattern matches (section 6.4.1 of the Lua 5.4 Reference Manual), said twice:
 as the relation Derives, and as the list All of every way to match in the order a
 backtracking matcher prefers them. A pattern error is no match here.
 */
module LuaSpec {
  import opened Common

  const MAX_CAPTURES: nat := 32
  const CAP_UNFINISHED: int := -1
  const CAP_POSITION: int := -2

  /** len is the length, or one of the two marks above. */
  datatype Capture = Capture(init: nat, len: int)

  type Caps = seq<Capture>

  /** One way to match: where it ends, and the captures then. */
  datatype Hit = Hit(end: nat, caps: Caps)

  /** C strings end in a zero byte. */
  function At(s: string, i: nat): char {
    if i < |s| then s[i] else '\0'
  }

  // ----- Character classes, in the C locale -----

  predicate IsLower(c: char) { 'a' <= c <= 'z' }
  predicate IsUpper(c: char) { 'A' <= c <= 'Z' }
  predicate IsAlpha(c: char) { IsLower(c) || IsUpper(c) }
  predicate IsDigit(c: char) { '0' <= c <= '9' }
  predicate IsAlnum(c: char) { IsAlpha(c) || IsDigit(c) }
  predicate IsGraph(c: char) { '!' <= c <= '~' }
  predicate IsCntrl(c: char) { c < ' ' || c == '\U{7f}' }
  predicate IsSpace(c: char) { c == ' ' || '\t' <= c <= '\r' }
  predicate IsHex(c: char) { IsDigit(c) || 'a' <= c <= 'f' || 'A' <= c <= 'F' }

  function ToLower(c: char): char {
    if IsUpper(c) then c + ('a' - 'A') else c
  }

  function MatchClass(c: char, cl: char): bool {
    var res := match ToLower(cl)
      case 'a' => Some(IsAlpha(c))
      case 'c' => Some(IsCntrl(c))
      case 'd' => Some(IsDigit(c))
      case 'g' => Some(IsGraph(c))
      case 'l' => Some(IsLower(c))
      case 'p' => Some(IsGraph(c) && !IsAlnum(c))
      case 's' => Some(IsSpace(c))
      case 'u' => Some(IsUpper(c))
      case 'w' => Some(IsAlnum(c))
      case 'x' => Some(IsHex(c))
      case 'z' => Some(c == '\0')
      case _ => None;
    if res.None? then cl == c else if IsLower(cl) then res.value else !res.value
  }

  /** The body of classend's loop over a set: one past its closing bracket, if there is one. */
  function SetEnd(pat: string, q: nat): (e: Option<nat>)
    requires q <= |pat|
    ensures e.Some? ==> q + 1 < e.value <= |pat|
    decreases |pat| - q
  {
    if q == |pat| then None
    else
      var n := if pat[q] == '%' && q + 1 < |pat| then q + 2 else q + 1;
      if At(pat, n) == ']' then Some(n + 1) else SetEnd(pat, n)
  }

  /** One past a single-character class; None for a malformed one. */
  function ClassEnd(pat: string, p: nat): (e: Option<nat>)
    requires p < |pat|
    ensures e.Some? ==> p < e.value <= |pat|
  {
    if pat[p] == '%' then (if p + 1 == |pat| then None else Some(p + 2))
    else if pat[p] == '[' then SetEnd(pat, if At(pat, p + 1) == '^' then p + 2 else p + 1)
    else Some(p + 1)
  }

  /** c is named by an item of the set between p and its closing bracket ec. */
  predicate InSet(c: char, pat: string, p: nat, ec: nat)
    decreases ec - p
  {
    p < ec &&
    (if At(pat, p) == '%' then MatchClass(c, At(pat, p + 1)) || InSet(c, pat, p + 2, ec)
     else if At(pat, p + 1) == '-' && p + 2 < ec then
       At(pat, p) <= c <= At(pat, p + 2) || InSet(c, pat, p + 3, ec)
     else At(pat, p) == c || InSet(c, pat, p + 1, ec))
  }

  /** The set opening at p, its bracket closing at ec. */
  predicate MatchSet(c: char, pat: string, p: nat, ec: nat) {
    if At(pat, p + 1) == '^' then !InSet(c, pat, p + 2, ec) else InSet(c, pat, p + 1, ec)
  }

  /** The subject's character at s is one the class pat[p..ep] accepts. */
  predicate Single(sub: string, pat: string, s: nat, p: nat, ep: nat)
    requires p < ep <= |pat|
  {
    s < |sub| &&
    match pat[p]
    case '.' => true
    case '%' => MatchClass(sub[s], At(pat, p + 1))
    case '[' => MatchSet(sub[s], pat, p, ep - 1)
    case c => c == sub[s]
  }

  /** Past the e that balances, scanning from s with depth open b's. */
  function BalanceFrom(sub: string, s: nat, b: char, e: char, depth: nat): (r: Option<nat>)
    requires depth > 0
    ensures r.Some? ==> s < r.value <= |sub|
    decreases |sub| - s
  {
    if s >= |sub| then None
    else if sub[s] == e then (if depth == 1 then Some(s + 1) else BalanceFrom(sub, s + 1, b, e, depth - 1))
    else BalanceFrom(sub, s + 1, b, e, if sub[s] == b then depth + 1 else depth)
  }

  function Balance(sub: string, s: nat, b: char, e: char): (r: Option<nat>)
    ensures r.Some? ==> s < r.value <= |sub|
  {
    if At(sub, s) != b then None else BalanceFrom(sub, s + 1, b, e, 1)
  }

  /** How many b's are open after sub[s..u], its first character one of them; a character that is both closes. */
  function OpenAt(sub: string, s: nat, u: nat, b: char, e: char): int
    requires s < u <= |sub|
    decreases u
  {
    if u == s + 1 then 1
    else OpenAt(sub, s, u - 1, b, e) + (if sub[u - 1] == e then -1 else if sub[u - 1] == b then 1 else 0)
  }

  /** sub[s..t] begins with b and closes it again at its end, and not before. */
  ghost predicate IsBalanced(sub: string, s: nat, t: nat, b: char, e: char) {
    && s < t <= |sub| && sub[s] == b && OpenAt(sub, s, t, b, e) == 0
    && forall u: nat :: s < u < t ==> OpenAt(sub, s, u, b, e) > 0
  }

  lemma {:induction false} BalanceScan(sub: string, s: nat, u: nat, b: char, e: char, t: nat)
    requires s < u <= |sub| && sub[s] == b && forall v: nat :: s < v <= u ==> OpenAt(sub, s, v, b, e) > 0
    ensures BalanceFrom(sub, u, b, e, OpenAt(sub, s, u, b, e)) == Some(t) <==> IsBalanced(sub, s, t, b, e)
    decreases |sub| - u
  {
    if u < |sub| {
      if OpenAt(sub, s, u + 1, b, e) > 0 {
        BalanceScan(sub, s, u + 1, b, e, t);
      } else {
        assert IsBalanced(sub, s, t, b, e) ==> t <= u + 1;
      }
    }
  }

  /** %bxy matches the shortest text that opens with x and in which it is closed again by y. */
  lemma BalanceIsShortest(sub: string, s: nat, b: char, e: char, t: nat)
    requires s < |sub|
    ensures Balance(sub, s, b, e) == Some(t) <==> IsBalanced(sub, s, t, b, e)
  {
    if sub[s] == b {
      BalanceScan(sub, s, s + 1, b, e, t);
    }
  }

  predicate Frontier(sub: string, pat: string, s: nat, p: nat, ep: nat)
    requires p < ep
  {
    !MatchSet(if s == 0 then '\0' else At(sub, s - 1), pat, p, ep - 1) && MatchSet(At(sub, s), pat, p, ep - 1)
  }

  // ----- Captures -----

  /** The last capture still open. */
  function ToClose(caps: Caps): (l: Option<nat>)
    ensures l.Some? ==> l.value < |caps| && caps[l.value].len == CAP_UNFINISHED
  {
    if caps == [] then None
    else if caps[|caps| - 1].len == CAP_UNFINISHED then Some(|caps| - 1)
    else ToClose(caps[..|caps| - 1])
  }

  /** Where the text of back-reference digit d ends, matched again at s. */
  function BackRef(sub: string, s: nat, d: char, caps: Caps): (e: Option<nat>)
    ensures e.Some? ==> s <= e.value <= |sub|
  {
    var l := d as int - '1' as int;
    if l < 0 || l >= |caps| || caps[l].len < 0 then None
    else
      var c := caps[l];
      if s + c.len <= |sub| && c.init + c.len <= |sub| && sub[c.init..c.init + c.len] == sub[s..s + c.len]
      then Some(s + c.len) else None
  }

  // ----- The pattern items -----

  /** What stands at p: how match() dispatches on it. */
  datatype Item =
    | End
    | Open(position: bool)
    | Close
    | EndAnchor
    | Balanced
    | FrontierSet(ep: nat)
    | Back(digit: char)
    | Class(ep: nat, suffix: char)    // '?', '+', '*', '-', or anything else for none
    | Malformed

  function ItemAt(pat: string, p: nat): (it: Item)
    requires p <= |pat|
    ensures it.End? <==> p == |pat|
    ensures it.Open? && it.position ==> p + 2 <= |pat|
    ensures it.Balanced? ==> p + 4 <= |pat|
    ensures it.FrontierSet? ==> p + 2 < it.ep <= |pat|
    ensures it.Back? ==> p + 2 <= |pat|
    ensures it.Class? ==> p < it.ep <= |pat| && it.suffix == At(pat, it.ep)
    ensures it.Class? && it.suffix != '\0' ==> it.ep < |pat|
  {
    if p == |pat| then End
    else if pat[p] == '(' then Open(At(pat, p + 1) == ')')
    else if pat[p] == ')' then Close
    else if pat[p] == '$' && p + 1 == |pat| then EndAnchor
    else if pat[p] == '%' && At(pat, p + 1) == 'b' then
      if p + 3 >= |pat| then Malformed else Balanced
    else if pat[p] == '%' && At(pat, p + 1) == 'f' then
      if At(pat, p + 2) != '[' || ClassEnd(pat, p + 2).None? then Malformed
      else FrontierSet(ClassEnd(pat, p + 2).value)
    else if pat[p] == '%' && IsDigit(At(pat, p + 1)) then Back(pat[p + 1])
    else if ClassEnd(pat, p).None? then Malformed
    else Class(ClassEnd(pat, p).value, At(pat, ClassEnd(pat, p).value))
  }

  // ----- The relation -----

  /** Every character of sub[s..t] is accepted. */
  ghost predicate AllSingle(sub: string, pat: string, s: nat, t: nat, p: nat, ep: nat)
    requires p < ep <= |pat|
  {
    forall i: nat :: s <= i < t ==> Single(sub, pat, i, p, ep)
  }

  /** h is one way for pat[p..] to match from s with captures caps so far. */
  ghost predicate Derives(sub: string, pat: string, s: nat, p: nat, caps: Caps, h: Hit)
    requires p <= |pat|
    decreases |pat| - p
  {
    match ItemAt(pat, p)
    case End => h == Hit(s, caps)
    case Open(position) =>
      |caps| < MAX_CAPTURES &&
      if position then Derives(sub, pat, s, p + 2, caps + [Capture(s, CAP_POSITION)], h)
      else Derives(sub, pat, s, p + 1, caps + [Capture(s, CAP_UNFINISHED)], h)
    case Close =>
      ToClose(caps).Some? &&
      Derives(sub, pat, s, p + 1, Closed(caps, ToClose(caps).value, s), h)
    case EndAnchor => s == |sub| && h == Hit(s, caps)
    case Balanced =>
      Balance(sub, s, pat[p + 2], pat[p + 3]).Some? &&
      Derives(sub, pat, Balance(sub, s, pat[p + 2], pat[p + 3]).value, p + 4, caps, h)
    case FrontierSet(ep) =>
      Frontier(sub, pat, s, p + 2, ep) && Derives(sub, pat, s, ep, caps, h)
    case Back(d) =>
      BackRef(sub, s, d, caps).Some? && Derives(sub, pat, BackRef(sub, s, d, caps).value, p + 2, caps, h)
    case Class(ep, suffix) =>
      if suffix == '?' then
        (Single(sub, pat, s, p, ep) && Derives(sub, pat, s + 1, ep + 1, caps, h))
        || Derives(sub, pat, s, ep + 1, caps, h)
      else if suffix == '*' || suffix == '-' then
        exists t: nat :: s <= t && AllSingle(sub, pat, s, t, p, ep) && Derives(sub, pat, t, ep + 1, caps, h)
      else if suffix == '+' then
        exists t: nat :: s < t && AllSingle(sub, pat, s, t, p, ep) && Derives(sub, pat, t, ep + 1, caps, h)
      else Single(sub, pat, s, p, ep) && Derives(sub, pat, s + 1, ep, caps, h)
    case Malformed => false
  }

  function Closed(caps: Caps, l: nat, s: nat): Caps
    requires l < |caps|
  {
    caps[l := Capture(caps[l].init, s - caps[l].init)]
  }

  // ----- Patterns without errors -----

  /** Which captures are still open. */
  function Shape(caps: Caps): (open: seq<bool>)
    ensures |open| == |caps| && forall i :: 0 <= i < |caps| ==> open[i] == (caps[i].len == CAP_UNFINISHED)
  {
    seq(|caps|, i requires 0 <= i < |caps| => caps[i].len == CAP_UNFINISHED)
  }

  function LastOpen(open: seq<bool>): (l: Option<nat>)
    ensures l.Some? ==> l.value < |open| && open[l.value]
  {
    if open == [] then None
    else if open[|open| - 1] then Some(|open| - 1)
    else LastOpen(open[..|open| - 1])
  }

  /** A back-reference to a capture there is, and that is closed. */
  predicate Refers(open: seq<bool>, d: char) {
    var l := d as int - '1' as int; 0 <= l < |open| && !open[l]
  }

  function AfterItem(it: Item, p: nat): nat {
    match it
    case Balanced => p + 4
    case FrontierSet(ep) => ep
    case Back(_) => p + 2
    case Class(ep, suffix) => if suffix in {'?', '*', '+', '-'} then ep + 1 else ep
    case _ => p + 1
  }

  /** The pattern from p on has no error in it, coming to p with these captures open. */
  predicate Fine(pat: string, p: nat, open: seq<bool>)
    requires p <= |pat|
    decreases |pat| - p
  {
    var it := ItemAt(pat, p);
    match it
    case End => true
    case EndAnchor => true
    case Malformed => false
    case Open(position) => |open| < MAX_CAPTURES && Fine(pat, if position then p + 2 else p + 1, open + [!position])
    case Close => LastOpen(open).Some? && Fine(pat, p + 1, open[LastOpen(open).value := false])
    case Back(d) => Refers(open, d) && Fine(pat, p + 2, open)
    case _ => Fine(pat, AfterItem(it, p), open)
  }

  /** Which captures are open where the pattern ends, coming to p with these: its errors aside, whatever it matches. */
  function EndShape(pat: string, p: nat, open: seq<bool>): seq<bool>
    requires p <= |pat|
    decreases |pat| - p
  {
    var it := ItemAt(pat, p);
    match it
    case End => open
    case EndAnchor => open
    case Malformed => open
    case Open(position) => EndShape(pat, if position then p + 2 else p + 1, open + [!position])
    case Close => if LastOpen(open).None? then open else EndShape(pat, p + 1, open[LastOpen(open).value := false])
    case _ => EndShape(pat, AfterItem(it, p), open)
  }

  /** The pattern ends with a capture it does not close. */
  predicate LeavesOpen(pat: string) {
    true in EndShape(pat, 0, [])
  }

  ghost predicate Clean(pat: string, p: nat, caps: Caps)
    requires p <= |pat|
  {
    Fine(pat, p, Shape(caps))
  }

  lemma {:induction false} ToCloseIsLastOpen(caps: Caps)
    ensures ToClose(caps) == LastOpen(Shape(caps))
  {
    if caps != [] {
      ToCloseIsLastOpen(caps[..|caps| - 1]);
      assert Shape(caps)[..|caps| - 1] == Shape(caps[..|caps| - 1]);
    }
  }

  lemma CleanOpen(pat: string, p: nat, caps: Caps, s: nat)
    requires p < |pat| && pat[p] == '(' && Clean(pat, p, caps)
    ensures |caps| < MAX_CAPTURES
    ensures At(pat, p + 1) == ')' ==> Clean(pat, p + 2, caps + [Capture(s, CAP_POSITION)])
    ensures At(pat, p + 1) != ')' ==> Clean(pat, p + 1, caps + [Capture(s, CAP_UNFINISHED)])
  {
    assert Shape(caps + [Capture(s, CAP_POSITION)]) == Shape(caps) + [false];
    assert Shape(caps + [Capture(s, CAP_UNFINISHED)]) == Shape(caps) + [true];
  }

  lemma MalformedIsNotClean(pat: string, p: nat, caps: Caps)
    requires p <= |pat| && ItemAt(pat, p).Malformed?
    ensures !Clean(pat, p, caps)
  {
  }

  lemma CleanPast(pat: string, p: nat, caps: Caps)
    requires p <= |pat| && (ItemAt(pat, p).Class? || ItemAt(pat, p).Balanced? || ItemAt(pat, p).FrontierSet?)
    ensures AfterItem(ItemAt(pat, p), p) <= |pat|
    ensures Clean(pat, p, caps) ==> Clean(pat, AfterItem(ItemAt(pat, p), p), caps)
  {
  }

  lemma CleanClose(pat: string, p: nat, caps: Caps, s: nat)
    requires p < |pat| && pat[p] == ')' && Clean(pat, p, caps) && CapsBy(caps, s)
    ensures ToClose(caps).Some? && Clean(pat, p + 1, Closed(caps, ToClose(caps).value, s))
  {
    ToCloseIsLastOpen(caps);
    var l := ToClose(caps).value;
    assert Shape(Closed(caps, l, s)) == Shape(caps)[l := false];
  }

  // ----- The list, in order of preference -----

  /** Where the longest run the class accepts from s ends. */
  function RunEnd(sub: string, pat: string, s: nat, p: nat, ep: nat): (t: nat)
    requires p < ep <= |pat|
    ensures s <= t && (s <= |sub| ==> t <= |sub|)
    decreases |sub| - s
  {
    if Single(sub, pat, s, p, ep) then RunEnd(sub, pat, s + 1, p, ep) else s
  }

  function All(sub: string, pat: string, s: nat, p: nat, caps: Caps): seq<Hit>
    requires p <= |pat|
    decreases |pat| - p, 0
  {
    match ItemAt(pat, p)
    case End => [Hit(s, caps)]
    case Open(position) =>
      if |caps| >= MAX_CAPTURES then []
      else if position then All(sub, pat, s, p + 2, caps + [Capture(s, CAP_POSITION)])
      else All(sub, pat, s, p + 1, caps + [Capture(s, CAP_UNFINISHED)])
    case Close =>
      if ToClose(caps).None? then []
      else All(sub, pat, s, p + 1, Closed(caps, ToClose(caps).value, s))
    case EndAnchor => if s == |sub| then [Hit(s, caps)] else []
    case Balanced =>
      var b := Balance(sub, s, pat[p + 2], pat[p + 3]);
      if b.None? then [] else All(sub, pat, b.value, p + 4, caps)
    case FrontierSet(ep) =>
      if Frontier(sub, pat, s, p + 2, ep) then All(sub, pat, s, ep, caps) else []
    case Back(d) =>
      var e := BackRef(sub, s, d, caps);
      if e.None? then [] else All(sub, pat, e.value, p + 2, caps)
    case Class(ep, suffix) =>
      if suffix == '?' then
        (if Single(sub, pat, s, p, ep) then All(sub, pat, s + 1, ep + 1, caps) else [])
        + All(sub, pat, s, ep + 1, caps)
      else if suffix == '*' then Greedy(sub, pat, s, ep, RunEnd(sub, pat, s, p, ep), caps)
      else if suffix == '+' then
        if Single(sub, pat, s, p, ep) then Greedy(sub, pat, s + 1, ep, RunEnd(sub, pat, s + 1, p, ep), caps)
        else []
      else if suffix == '-' then Lazy(sub, pat, s, ep, RunEnd(sub, pat, s, p, ep), caps)
      else if Single(sub, pat, s, p, ep) then All(sub, pat, s + 1, ep, caps)
      else []
    case Malformed => []
  }

  /** The rest from t first, then after one repetition less, down to s. */
  function Greedy(sub: string, pat: string, s: nat, ep: nat, t: nat, caps: Caps): seq<Hit>
    requires ep < |pat| && s <= t
    decreases |pat| - ep, t
  {
    All(sub, pat, t, ep + 1, caps) + (if t == s then [] else Greedy(sub, pat, s, ep, t - 1, caps))
  }

  /** The rest from s first, then after one repetition more, up to t. */
  function Lazy(sub: string, pat: string, s: nat, ep: nat, t: nat, caps: Caps): seq<Hit>
    requires ep < |pat| && s <= t
    decreases |pat| - ep, t - s
  {
    All(sub, pat, s, ep + 1, caps) + (if t == s then [] else Lazy(sub, pat, s + 1, ep, t, caps))
  }

  /** A class that does not accept the character at s can only be skipped, by the suffixes that allow it. */
  lemma RefusedWays(sub: string, pat: string, s: nat, p: nat, caps: Caps)
    requires p <= |pat| && ItemAt(pat, p).Class? && !Single(sub, pat, s, p, ItemAt(pat, p).ep)
    ensures var it := ItemAt(pat, p);
      All(sub, pat, s, p, caps)
      == if it.suffix in ['*', '?', '-'] then All(sub, pat, s, it.ep + 1, caps) else []
  {
  }

  lemma FrontierWays(sub: string, pat: string, s: nat, p: nat, ep: nat, caps: Caps)
    requires p <= |pat| && ItemAt(pat, p) == FrontierSet(ep)
    ensures All(sub, pat, s, p, caps) == if Frontier(sub, pat, s, p + 2, ep) then All(sub, pat, s, ep, caps) else []
  {
  }

  lemma PlusWays(sub: string, pat: string, s: nat, p: nat, caps: Caps)
    requires p <= |pat| && ItemAt(pat, p).Class? && ItemAt(pat, p).suffix == '+'
    ensures var ep := ItemAt(pat, p).ep;
      All(sub, pat, s, p, caps)
      == if Single(sub, pat, s, p, ep) then Greedy(sub, pat, s + 1, ep, RunEnd(sub, pat, s + 1, p, ep), caps) else []
  {
  }

  /** One repetition count tried: its ways come first, and none of them leaves the shorter ones. */
  lemma GreedyStep(sub: string, pat: string, s: nat, ep: nat, t: nat, caps: Caps)
    requires ep < |pat| && s <= t
    ensures var here, all := All(sub, pat, t, ep + 1, caps), Greedy(sub, pat, s, ep, t, caps);
      && (here != [] ==> all != [] && all[0] == here[0])
      && (here == [] ==> all == if t == s then [] else Greedy(sub, pat, s, ep, t - 1, caps))
  {
  }

  // ----- The two agree -----

  lemma {:induction false} RunEndIsLast(sub: string, pat: string, s: nat, t: nat, p: nat, ep: nat)
    requires p < ep <= |pat| && s <= t
    ensures AllSingle(sub, pat, s, t, p, ep) <==> t <= RunEnd(sub, pat, s, p, ep)
    decreases t - s
  {
    if s < t && Single(sub, pat, s, p, ep) {
      RunEndIsLast(sub, pat, s + 1, t, p, ep);
      assert AllSingle(sub, pat, s, t, p, ep) <==> AllSingle(sub, pat, s + 1, t, p, ep);
    }
  }

  /** h is among the ways to match from some position of s .. t. */
  ghost predicate Reaches(sub: string, pat: string, s: nat, t: nat, p: nat, caps: Caps, h: Hit)
    requires p <= |pat|
  {
    exists k: nat :: s <= k <= t && h in All(sub, pat, k, p, caps)
  }

  lemma ReachesMore(sub: string, pat: string, s: nat, t: nat, p: nat, caps: Caps, h: Hit)
    requires p <= |pat| && s < t
    ensures Reaches(sub, pat, s, t, p, caps, h) <==>
      h in All(sub, pat, t, p, caps) || Reaches(sub, pat, s, t - 1, p, caps, h)
    ensures Reaches(sub, pat, s, t, p, caps, h) <==>
      h in All(sub, pat, s, p, caps) || Reaches(sub, pat, s + 1, t, p, caps, h)
  {
  }

  lemma {:induction false} GreedyHas(sub: string, pat: string, s: nat, ep: nat, t: nat, caps: Caps, h: Hit)
    requires ep < |pat| && s <= t
    ensures h in Greedy(sub, pat, s, ep, t, caps) <==> Reaches(sub, pat, s, t, ep + 1, caps, h)
    decreases t
  {
    if s < t {
      GreedyHas(sub, pat, s, ep, t - 1, caps, h);
      ReachesMore(sub, pat, s, t, ep + 1, caps, h);
    }
  }

  lemma {:induction false} LazyHas(sub: string, pat: string, s: nat, ep: nat, t: nat, caps: Caps, h: Hit)
    requires ep < |pat| && s <= t
    ensures h in Lazy(sub, pat, s, ep, t, caps) <==> Reaches(sub, pat, s, t, ep + 1, caps, h)
    decreases t - s
  {
    if s < t {
      LazyHas(sub, pat, s + 1, ep, t, caps, h);
      ReachesMore(sub, pat, s, t, ep + 1, caps, h);
    }
  }

  ghost predicate Agrees(sub: string, pat: string, s: nat, p: nat, caps: Caps, h: Hit)
    requires p <= |pat|
  {
    h in All(sub, pat, s, p, caps) <==> Derives(sub, pat, s, p, caps, h)
  }

  /** The rest, from q on, matches after a run the class accepts. */
  ghost predicate AfterRun(sub: string, pat: string, s: nat, p: nat, ep: nat, q: nat, caps: Caps, h: Hit)
    requires p < ep <= |pat| && q <= |pat|
  {
    exists t: nat :: s <= t && AllSingle(sub, pat, s, t, p, ep) && Derives(sub, pat, t, q, caps, h)
  }

  lemma RepetitionAgrees(sub: string, pat: string, s: nat, p: nat, ep: nat, q: nat, caps: Caps, h: Hit)
    requires p < ep <= |pat| && q <= |pat|
    requires forall k: nat :: Agrees(sub, pat, k, q, caps, h)
    ensures Reaches(sub, pat, s, RunEnd(sub, pat, s, p, ep), q, caps, h) <==>
      AfterRun(sub, pat, s, p, ep, q, caps, h)
  {
    var top := RunEnd(sub, pat, s, p, ep);
    if Reaches(sub, pat, s, top, q, caps, h) {
      var k: nat :| s <= k <= top && h in All(sub, pat, k, q, caps);
      assert Agrees(sub, pat, k, q, caps, h);
      RunEndIsLast(sub, pat, s, k, p, ep);
    }
    if AfterRun(sub, pat, s, p, ep, q, caps, h) {
      var t: nat :| s <= t && AllSingle(sub, pat, s, t, p, ep) && Derives(sub, pat, t, q, caps, h);
      assert Agrees(sub, pat, t, q, caps, h);
      RunEndIsLast(sub, pat, s, t, p, ep);
    }
  }

  lemma {:induction false} StarAgrees(sub: string, pat: string, s: nat, p: nat, caps: Caps, h: Hit)
    requires p <= |pat| && ItemAt(pat, p).Class? && ItemAt(pat, p).suffix in ['*', '-']
    requires forall k: nat, q: nat :: p < q <= |pat| ==> Agrees(sub, pat, k, q, caps, h)
    ensures Agrees(sub, pat, s, p, caps, h)
  {
    var ep := ItemAt(pat, p).ep;
    GreedyHas(sub, pat, s, ep, RunEnd(sub, pat, s, p, ep), caps, h);
    LazyHas(sub, pat, s, ep, RunEnd(sub, pat, s, p, ep), caps, h);
    RepetitionAgrees(sub, pat, s, p, ep, ep + 1, caps, h);
  }

  /** One or more repetitions are one, then any number. */
  lemma PlusDerives(sub: string, pat: string, s: nat, p: nat, caps: Caps, h: Hit)
    requires p <= |pat| && ItemAt(pat, p).Class? && ItemAt(pat, p).suffix == '+'
    ensures var ep := ItemAt(pat, p).ep;
      Derives(sub, pat, s, p, caps, h) <==>
      Single(sub, pat, s, p, ep) && AfterRun(sub, pat, s + 1, p, ep, ep + 1, caps, h)
  {
    var ep := ItemAt(pat, p).ep;
    if Single(sub, pat, s, p, ep) {
      PlusIsOneAndStar(sub, pat, s, p, ep);
      if AfterRun(sub, pat, s + 1, p, ep, ep + 1, caps, h) {
        var t: nat :| s + 1 <= t && AllSingle(sub, pat, s + 1, t, p, ep) && Derives(sub, pat, t, ep + 1, caps, h);
        assert AllSingle(sub, pat, s, t, p, ep);
      }
      if t: nat :| s < t && AllSingle(sub, pat, s, t, p, ep) && Derives(sub, pat, t, ep + 1, caps, h) {
        assert AllSingle(sub, pat, s + 1, t, p, ep);
      }
    }
  }

  lemma PlusAgrees(sub: string, pat: string, s: nat, p: nat, caps: Caps, h: Hit)
    requires p <= |pat| && ItemAt(pat, p).Class? && ItemAt(pat, p).suffix == '+'
    requires forall k: nat, q: nat :: p < q <= |pat| ==> Agrees(sub, pat, k, q, caps, h)
    ensures Agrees(sub, pat, s, p, caps, h)
  {
    var ep := ItemAt(pat, p).ep;
    PlusDerives(sub, pat, s, p, caps, h);
    PlusWays(sub, pat, s, p, caps);
    if Single(sub, pat, s, p, ep) {
      GreedyHas(sub, pat, s + 1, ep, RunEnd(sub, pat, s + 1, p, ep), caps, h);
      RepetitionAgrees(sub, pat, s + 1, p, ep, ep + 1, caps, h);
    }
  }

  lemma PlusIsOneAndStar(sub: string, pat: string, s: nat, p: nat, ep: nat)
    requires p < ep <= |pat| && Single(sub, pat, s, p, ep)
    ensures forall t: nat :: s < t ==> (AllSingle(sub, pat, s, t, p, ep) <==> AllSingle(sub, pat, s + 1, t, p, ep))
  {
  }

  /** The list holds exactly the ways the relation allows: for every pattern, captures and all. */
  lemma {:induction false} AllIsDerives(sub: string, pat: string, s: nat, p: nat, caps: Caps, h: Hit)
    requires p <= |pat|
    ensures Agrees(sub, pat, s, p, caps, h)
    decreases |pat| - p
  {
    var it := ItemAt(pat, p);
    if it.Open? {
      AllIsDerives(sub, pat, s, if it.position then p + 2 else p + 1,
        caps + [Capture(s, if it.position then CAP_POSITION else CAP_UNFINISHED)], h);
    } else if it.Close? {
      if ToClose(caps).Some? {
        AllIsDerives(sub, pat, s, p + 1, Closed(caps, ToClose(caps).value, s), h);
      }
    } else {
      forall k: nat, q: nat | p < q <= |pat|
        ensures Agrees(sub, pat, k, q, caps, h)
      {
        AllIsDerives(sub, pat, k, q, caps, h);
      }
      if it.Class? && it.suffix in ['*', '-'] {
        StarAgrees(sub, pat, s, p, caps, h);
      } else if it.Class? && it.suffix == '+' {
        PlusAgrees(sub, pat, s, p, caps, h);
      } else {
        OtherAgrees(sub, pat, s, p, caps, h);
      }
    }
  }

  lemma {:induction false} OtherAgrees(sub: string, pat: string, s: nat, p: nat, caps: Caps, h: Hit)
    requires p <= |pat| && !ItemAt(pat, p).Open? && !ItemAt(pat, p).Close?
    requires ItemAt(pat, p).Class? ==> ItemAt(pat, p).suffix !in ['*', '-', '+']
    requires forall k: nat, q: nat :: p < q <= |pat| ==> Agrees(sub, pat, k, q, caps, h)
    ensures Agrees(sub, pat, s, p, caps, h)
  {
    match ItemAt(pat, p)
    case Balanced =>
      var b := Balance(sub, s, pat[p + 2], pat[p + 3]);
      assert b.Some? ==> Agrees(sub, pat, b.value, p + 4, caps, h);
    case FrontierSet(ep) => assert Agrees(sub, pat, s, ep, caps, h);
    case Back(d) =>
      var e := BackRef(sub, s, d, caps);
      assert e.Some? ==> Agrees(sub, pat, e.value, p + 2, caps, h);
    case Class(ep, suffix) =>
      if suffix == '?' {
        assert Agrees(sub, pat, s, ep + 1, caps, h) && Agrees(sub, pat, s + 1, ep + 1, caps, h);
      } else {
        assert Agrees(sub, pat, s + 1, ep, caps, h);
      }
    case _ =>
  }

  // ----- Preference -----

  ghost predicate NoWay(sub: string, pat: string, s: nat, p: nat, caps: Caps)
    requires p <= |pat|
  {
    All(sub, pat, s, p, caps) == []
  }

  /** Of the repetitions after which the rest matches, a greedy item takes the most. */
  lemma {:induction false} GreedyTakesMost(sub: string, pat: string, s: nat, ep: nat, t: nat, caps: Caps, k: nat, q: nat)
    requires q == ep + 1 <= |pat| && s <= k <= t && !NoWay(sub, pat, k, q, caps)
    requires forall j: nat :: k < j <= t ==> NoWay(sub, pat, j, q, caps)
    ensures Greedy(sub, pat, s, ep, t, caps) != []
    ensures Greedy(sub, pat, s, ep, t, caps)[0] == All(sub, pat, k, q, caps)[0]
    decreases t
  {
    if k < t {
      assert NoWay(sub, pat, t, q, caps);
      GreedyTakesMost(sub, pat, s, ep, t - 1, caps, k, q);
    }
  }

  /** A lazy item takes the fewest. */
  lemma {:induction false} LazyTakesFewest(sub: string, pat: string, s: nat, ep: nat, t: nat, caps: Caps, k: nat, q: nat)
    requires q == ep + 1 <= |pat| && s <= k <= t && !NoWay(sub, pat, k, q, caps)
    requires forall j: nat :: s <= j < k ==> NoWay(sub, pat, j, q, caps)
    ensures Lazy(sub, pat, s, ep, t, caps) != []
    ensures Lazy(sub, pat, s, ep, t, caps)[0] == All(sub, pat, k, q, caps)[0]
    decreases t - s
  {
    if s < k {
      assert NoWay(sub, pat, s, q, caps);
      LazyTakesFewest(sub, pat, s + 1, ep, t, caps, k, q);
    }
  }

  // ----- Ranges -----

  /** Every capture begins, and a finished one ends, by position s. */
  ghost predicate CapsBy(caps: Caps, s: nat) {
    |caps| <= MAX_CAPTURES && forall i :: 0 <= i < |caps| ==>
      caps[i].init <= s && caps[i].len >= CAP_POSITION && caps[i].init + caps[i].len <= s
  }

  ghost predicate InRange(sub: string, s: nat, h: Hit) {
    s <= h.end <= |sub| && CapsBy(h.caps, h.end)
  }

  lemma CapsByLater(caps: Caps, s: nat, t: nat)
    requires CapsBy(caps, s) && s <= t
    ensures CapsBy(caps, t)
  {
  }

  /** A match ends between where it began and the end of the subject, its captures inside it. */
  lemma {:induction false} DerivesInRange(sub: string, pat: string, s: nat, p: nat, caps: Caps, h: Hit)
    requires p <= |pat| && s <= |sub| && CapsBy(caps, s) && Derives(sub, pat, s, p, caps, h)
    ensures InRange(sub, s, h)
    decreases |pat| - p
  {
    match ItemAt(pat, p)
    case End =>
    case EndAnchor =>
    case Open(position) =>
      DerivesInRange(sub, pat, s, if position then p + 2 else p + 1,
        caps + [Capture(s, if position then CAP_POSITION else CAP_UNFINISHED)], h);
    case Close =>
      DerivesInRange(sub, pat, s, p + 1, Closed(caps, ToClose(caps).value, s), h);
    case Balanced =>
      DerivesInRange(sub, pat, Balance(sub, s, pat[p + 2], pat[p + 3]).value, p + 4, caps, h);
    case FrontierSet(ep) => DerivesInRange(sub, pat, s, ep, caps, h);
    case Back(d) => DerivesInRange(sub, pat, BackRef(sub, s, d, caps).value, p + 2, caps, h);
    case Class(ep, suffix) =>
      var t, q := ClassDerives(sub, pat, s, p, caps, h);
      RunEndIsLast(sub, pat, s, t, p, ep);
      DerivesInRange(sub, pat, t, q, caps, h);
  }

  /** Whatever its suffix, a class item consumes a run it accepts. */
  lemma ClassDerives(sub: string, pat: string, s: nat, p: nat, caps: Caps, h: Hit) returns (t: nat, q: nat)
    requires p <= |pat| && ItemAt(pat, p).Class? && Derives(sub, pat, s, p, caps, h)
    ensures s <= t && p < q <= |pat| && AllSingle(sub, pat, s, t, p, ItemAt(pat, p).ep)
    ensures q == AfterItem(ItemAt(pat, p), p)
    ensures Derives(sub, pat, t, q, caps, h)
  {
    var ep, suffix := ItemAt(pat, p).ep, ItemAt(pat, p).suffix;
    t, q := s, ep + 1;
    if suffix == '*' || suffix == '-' {
      t :| s <= t && AllSingle(sub, pat, s, t, p, ep) && Derives(sub, pat, t, ep + 1, caps, h);
    } else if suffix == '+' {
      t :| s < t && AllSingle(sub, pat, s, t, p, ep) && Derives(sub, pat, t, ep + 1, caps, h);
    } else if suffix == '?' {
      t := if Derives(sub, pat, s, ep + 1, caps, h) then s else s + 1;
    } else {
      t, q := s + 1, ep;
    }
  }

  lemma OpenShape(caps: Caps, s: nat, position: bool)
    ensures Shape(caps + [Capture(s, if position then CAP_POSITION else CAP_UNFINISHED)]) == Shape(caps) + [!position]
  {
  }

  lemma ClosedShape(caps: Caps, s: nat)
    requires ToClose(caps).Some? && CapsBy(caps, s)
    ensures LastOpen(Shape(caps)) == ToClose(caps)
    ensures Shape(Closed(caps, ToClose(caps).value, s)) == Shape(caps)[ToClose(caps).value := false]
  {
    ToCloseIsLastOpen(caps);
  }

  /** Every way to match ends with the same captures open: those the pattern does not close. */
  lemma {:induction false} EndsInShape(sub: string, pat: string, s: nat, p: nat, caps: Caps, h: Hit)
    requires p <= |pat| && s <= |sub| && CapsBy(caps, s) && Derives(sub, pat, s, p, caps, h)
    ensures Shape(h.caps) == EndShape(pat, p, Shape(caps))
    decreases |pat| - p
  {
    match ItemAt(pat, p)
    case End =>
    case EndAnchor =>
    case Open(position) =>
      OpenShape(caps, s, position);
      EndsInShape(sub, pat, s, if position then p + 2 else p + 1,
        caps + [Capture(s, if position then CAP_POSITION else CAP_UNFINISHED)], h);
    case Close =>
      ClosedShape(caps, s);
      EndsInShape(sub, pat, s, p + 1, Closed(caps, ToClose(caps).value, s), h);
    case Balanced =>
      EndsInShape(sub, pat, Balance(sub, s, pat[p + 2], pat[p + 3]).value, p + 4, caps, h);
    case FrontierSet(ep) => EndsInShape(sub, pat, s, ep, caps, h);
    case Back(d) => EndsInShape(sub, pat, BackRef(sub, s, d, caps).value, p + 2, caps, h);
    case Class(ep, suffix) =>
      var t, q := ClassDerives(sub, pat, s, p, caps, h);
      RunEndIsLast(sub, pat, s, t, p, ep);
      EndsInShape(sub, pat, t, q, caps, h);
  }
}
