/** string.find, string.match and string.gsub, over the counted matcher. */
module LuaLib {
  import opened Common
  import opened LuaSpec
  import opened LuaMatch
  import opened LuaCaptures

  // ----- Plain search -----

  /** needle stands in sub at i. */
  predicate OccursAt(sub: string, needle: string, i: nat) {
    i + |needle| <= |sub| && sub[i..i + |needle|] == needle
  }

  /** i is the first occurrence from init on; None when there is none. */
  ghost predicate FirstOccurrence(sub: string, init: nat, needle: string, r: Option<nat>) {
    if r.Some? then
      init <= r.value && OccursAt(sub, needle, r.value)
      && forall k: nat :: init <= k < r.value ==> !OccursAt(sub, needle, k)
    else forall k: nat :: init <= k ==> !OccursAt(sub, needle, k)
  }

  /** lmemfind. */
  method MemFind(ms: MatchState, init: nat, needle: string) returns (ok: bool, r: Option<nat>)
    requires ms.Tallied() && init <= |ms.sub|
    modifies ms`steps, ms`used, ms`work
    ensures ok ==> ms.Tallied() && FirstOccurrence(ms.sub, init, needle, r)
    ensures !ok ==> ms.work > ms.limit
  {
    var sub := ms.sub;
    ok, r := true, None;
    if |needle| == 0 {
      assert OccursAt(sub, needle, init);
      return true, Some(init);
    }
    if |needle| > |sub| - init {
      return;
    }
    var l2 := |needle| - 1;
    var last := |sub| - l2;
    var s1 := init;
    while s1 < last
      invariant init <= s1 <= last && ms.Tallied()
      invariant forall k: nat :: init <= k < s1 ==> !OccursAt(sub, needle, k)
    {
      var at := MemChr(sub, s1, last, needle[0]);
      if at.None? {
        NoFirstChar(sub, needle, s1, last);
        break;
      }
      NoFirstChar(sub, needle, s1, at.value);
      ok := ms.Count(1 + (at.value - s1) / 16 + l2 / 16);
      if !ok {
        return;
      }
      if sub[at.value + 1..at.value + 1 + l2] == needle[1..] {
        assert OccursAt(sub, needle, at.value);
        return true, at;
      }
      assert !OccursAt(sub, needle, at.value) by {
        assert needle[1..] == needle[1..1 + l2];
      }
      s1 := at.value + 1;
    }
    ok := ms.Count((last - s1) / 16);
  }

  lemma NoFirstChar(sub: string, needle: string, from: nat, to: nat)
    requires needle != [] && from <= to <= |sub| && needle[0] !in sub[from..to]
    ensures forall k: nat :: from <= k < to ==> !OccursAt(sub, needle, k)
  {
    forall k: nat | from <= k < to
      ensures !OccursAt(sub, needle, k)
    {
      assert sub[from..to][k - from] == sub[k];
      assert k + |needle| <= |sub| ==> sub[k..k + |needle|][0] == sub[k];
    }
  }

  // ----- Search by pattern -----

  datatype Search = SearchRaised | NotFound | FoundAt(start: nat, end: nat, values: seq<Value>)

  ghost predicate NoMatchIn(sub: string, pat: string, from: nat, to: nat) {
    forall k: nat :: from <= k < to ==> NoWay(sub, pat, k, 0, [])
  }

  /** A pattern without errors to match by, and not too long for the depth match allows itself. */
  ghost predicate Harmless(pat: string) {
    Clean(pat, 0, []) && |pat| < MAXCCALLS
  }

  /** reprepstate and match: the preferred match from s, if any. */
  method MatchAt(ms: MatchState, s: nat) returns (r: Outcome)
    requires ms.Valid() && s <= |ms.sub| < U64 - 2 && ms.depth == MAXCCALLS
    modifies ms, ms.capture
    ensures !r.Raised? ==> ms.Valid() && ms.depth == MAXCCALLS
    ensures r.Failed? ==> NoWay(ms.sub, ms.pat, s, 0, [])
    ensures r.Raised? && Harmless(ms.pat) ==> ms.work > ms.limit
    ensures r.Found? ==> s <= r.end <= |ms.sub| && IsMatch(ms.sub, ms.pat, s, Hit(r.end, ms.Caps()))
  {
    ms.level := 0;
    assert ms.Caps() == [];
    r := ms.Match(s, 0);
    if r.Found? {
      MatchEnds(ms.sub, ms.pat, s);
    }
  }

  /** h is the way to match from s that every other gives way to. */
  ghost predicate IsMatch(sub: string, pat: string, s: nat, h: Hit) {
    !NoWay(sub, pat, s, 0, []) && All(sub, pat, s, 0, [])[0] == h
  }

  /** Up to where a search looks. */
  function Reach(sub: string, init: nat, anchor: bool): nat {
    if anchor then init + 1 else |sub| + 1
  }

  /** The search comes to a match, whose captures the pattern does not all close. */
  ghost predicate Unfinished(sub: string, pat: string, init: nat, anchor: bool) {
    LeavesOpen(pat) && !NoMatchIn(sub, pat, init, Reach(sub, init, anchor))
  }

  /** What a search by pattern is to answer: the leftmost match, the preferred one there, and its captures. */
  ghost predicate PatternAnswer(sub: string, pat: string, init: nat, anchor: bool, find: bool, r: Search) {
    match r
    case SearchRaised => true
    case NotFound => NoMatchIn(sub, pat, init, Reach(sub, init, anchor))
    case FoundAt(start, end, values) =>
      && init <= start <= end <= |sub| && (anchor ==> start == init) && NoMatchIn(sub, pat, init, start)
      && !NoWay(sub, pat, start, 0, [])
      && var h := All(sub, pat, start, 0, [])[0]; h.end == end && Pushed(sub, Cut(start, h), !find) == Some(values)
  }

  /** A match found at s1: its captures are pushed, or it is an error that one is open. */
  method PushFound(ms: MatchState, init: nat, anchor: bool, find: bool, s1: nat, e: nat) returns (r: Search)
    requires ms.Valid() && init <= s1 <= e <= |ms.sub| && (anchor ==> s1 == init) && NoMatchIn(ms.sub, ms.pat, init, s1)
    requires IsMatch(ms.sub, ms.pat, s1, Hit(e, ms.Caps()))
    modifies ms`steps, ms`used
    ensures !r.SearchRaised? ==> ms.Valid() && ms.steps == 0 && ms.used == ms.work
    ensures r.SearchRaised? <==> ms.work > ms.limit || Unfinished(ms.sub, ms.pat, init, anchor)
    ensures PatternAnswer(ms.sub, ms.pat, init, anchor, find, r)
  {
    assert !NoMatchIn(ms.sub, ms.pat, init, Reach(ms.sub, init, anchor));
    OpenIffLeft(ms.sub, ms.pat, s1, Hit(e, ms.Caps()));
    var ok := ms.CountFlush();
    if !ok {
      return SearchRaised;
    }
    var values := PushCaptures(ms, s1, e, !find);
    return if values.None? then SearchRaised else FoundAt(s1, e, values.value);
  }

  /** The loop of str_find_aux: the leftmost match from init on, or at init only when anchored. */
  method FindPattern(ms: MatchState, init: nat, anchor: bool, find: bool) returns (r: Search)
    requires ms.Valid() && init <= |ms.sub| < U64 - 2 && ms.depth == MAXCCALLS
    modifies ms, ms.capture
    ensures !r.SearchRaised? ==> ms.Valid() && ms.steps == 0 && ms.used == ms.work
    ensures PatternAnswer(ms.sub, ms.pat, init, anchor, find, r)
    ensures ms.work > ms.limit || Unfinished(ms.sub, ms.pat, init, anchor) ==> r.SearchRaised?
    ensures r.SearchRaised? && Harmless(ms.pat) ==> ms.work > ms.limit || Unfinished(ms.sub, ms.pat, init, anchor)
  {
    var s1 := init;
    while true
      invariant init <= s1 <= |ms.sub| && ms.Valid() && ms.depth == MAXCCALLS
      invariant NoMatchIn(ms.sub, ms.pat, init, s1) && (anchor ==> s1 == init)
      decreases |ms.sub| - s1
    {
      var res := MatchAt(ms, s1);
      if res.Raised? {
        return SearchRaised;
      }
      if res.Found? {
        r := PushFound(ms, init, anchor, find, s1, res.end);
        return;
      }
      if s1 == |ms.sub| || anchor {
        break;
      }
      s1 := s1 + 1;
    }
    var ok := ms.CountFlush();
    return if ok then NotFound else SearchRaised;
  }

  /** A pattern that matches and leaves its capture open: "(a". The search is raised, however high the limit. */
  lemma UnclosedRaises()
    ensures Harmless("(a") && Unfinished("a", "(a", 0, false) && !NoSpecials("(a")
  {
    var pat := "(a";
    assert ItemAt(pat, 0) == Open(false) && ItemAt(pat, 1) == Class(2, '\0') && ItemAt(pat, 2) == End;
    assert IsSpecial(pat[0]);
    assert EndShape(pat, 2, [true]) == [true];
    assert EndShape(pat, 1, [true]) == [true];
    assert EndShape(pat, 0, []) == [true] by {
      assert [] + [true] == [true];
    }
    assert [true][0];
    var c := Capture(0, CAP_UNFINISHED);
    assert Single("a", pat, 0, 1, 2);
    assert All("a", pat, 1, 2, [c]) == [Hit(1, [c])];
    assert All("a", pat, 0, 1, [c]) == [Hit(1, [c])];
    assert [] + [c] == [c];
    assert All("a", pat, 0, 0, []) == [Hit(1, [c])];
    assert !NoWay("a", pat, 0, 0, []);
    assert Fine(pat, 2, [true]) && Fine(pat, 1, [true]);
    assert Shape([]) == [];
  }

  /** The first way to match ends inside the subject. */
  lemma MatchEnds(sub: string, pat: string, s: nat)
    requires s <= |sub| && !NoWay(sub, pat, s, 0, [])
    ensures InRange(sub, s, All(sub, pat, s, 0, [])[0])
  {
    var h := All(sub, pat, s, 0, [])[0];
    AllIsDerives(sub, pat, s, 0, [], h);
    DerivesInRange(sub, pat, s, 0, [], h);
  }

  // ----- The plain search stands for the pattern search -----

  predicate IsSpecial(c: char) {
    c in "^$*+?.([%-"
  }

  /** nospecials: the pattern is searched for plainly. */
  predicate NoSpecials(pat: string) {
    forall i :: 0 <= i < |pat| ==> !IsSpecial(pat[i])
  }

  /** Past the first character of what is left, the rest must occur past it. */
  lemma OccursStep(sub: string, pat: string, s: nat, p: nat)
    requires p < |pat| && s <= |sub|
    ensures OccursAt(sub, pat[p..], s) <==> s < |sub| && sub[s] == pat[p] && OccursAt(sub, pat[p + 1..], s + 1)
  {
    var n := |pat| - p;
    assert pat[p..] == [pat[p]] + pat[p + 1..];
    if s + n <= |sub| {
      assert sub[s..s + n] == [sub[s]] + sub[s + 1..s + n];
      assert s + n == s + 1 + |pat[p + 1..]|;
    }
  }

  /** A character that is no special and no ')', with none after it, is a class of itself. */
  lemma PlainItem(pat: string, p: nat)
    requires p < |pat| && NoSpecials(pat) && pat[p] != ')'
    ensures ItemAt(pat, p) == Class(p + 1, At(pat, p + 1))
    ensures At(pat, p + 1) !in ['*', '?', '-', '+'] && pat[p] !in ['.', '%', '[']
  {
    assert !IsSpecial(pat[p]);
    assert p + 1 < |pat| ==> !IsSpecial(pat[p + 1]);
  }

  /** Without special characters and without ')', a pattern matches itself and nothing else. */
  lemma {:induction false} PlainWays(sub: string, pat: string, s: nat, p: nat)
    requires p <= |pat| && s <= |sub| && NoSpecials(pat) && ')' !in pat
    ensures All(sub, pat, s, p, []) == if OccursAt(sub, pat[p..], s) then [Hit(s + |pat| - p, [])] else []
    decreases |pat| - p
  {
    if p < |pat| {
      assert pat[p] in pat;
      PlainItem(pat, p);
      OccursStep(sub, pat, s, p);
      if s < |sub| {
        PlainWays(sub, pat, s + 1, p + 1);
      }
    }
  }

  /** With a ')' it is an error: the pattern search finds nothing where the plain one might. */
  lemma {:induction false} CloseBreaks(sub: string, pat: string, s: nat, p: nat)
    requires p <= |pat| && NoSpecials(pat) && ')' in pat[p..]
    ensures All(sub, pat, s, p, []) == []
    decreases |pat| - p
  {
    assert pat[p..] == [pat[p]] + pat[p + 1..];
    if pat[p] != ')' {
      PlainItem(pat, p);
      CloseBreaks(sub, pat, s + 1, p + 1);
    }
  }

  /**
   For a pattern nospecials() accepts, the plain search gives the pattern search's answer
   on every subject exactly when the pattern holds no ')': lstrlib's list leaves that out.
   */
  lemma PlainIsPattern(pat: string)
    requires NoSpecials(pat)
    ensures ')' !in pat <==>
      forall sub: string, s: nat :: s <= |sub| ==> (NoWay(sub, pat, s, 0, []) <==> !OccursAt(sub, pat, s))
  {
    assert pat[0..] == pat;
    if ')' !in pat {
      forall sub: string, s: nat | s <= |sub|
        ensures NoWay(sub, pat, s, 0, []) <==> !OccursAt(sub, pat, s)
      {
        PlainWays(sub, pat, s, 0);
      }
    } else {
      CloseBreaks(pat, pat, 0, 0);
      assert OccursAt(pat, pat, 0) && NoWay(pat, pat, 0, 0, []);
    }
  }

  /** ")" in itself: found plainly, no match as a pattern. */
  lemma ParenFoundPlainly()
    ensures NoSpecials(")") && OccursAt(")", ")", 0) && NoWay(")", ")", 0, 0, [])
  {
    var pat := ")";
    assert pat[0..] == pat && pat[0] == ')';
    CloseBreaks(pat, pat, 0, 0);
  }

  /** Then it gives the very match the pattern search would. */
  lemma PlainFindsPattern(sub: string, pat: string, init: nat, r: Option<nat>)
    requires NoSpecials(pat) && ')' !in pat && init <= |sub| && FirstOccurrence(sub, init, pat, r)
    ensures r.None? ==> NoMatchIn(sub, pat, init, |sub| + 1)
    ensures r.Some? ==> NoMatchIn(sub, pat, init, r.value) && IsMatch(sub, pat, r.value, Hit(r.value + |pat|, []))
  {
    assert pat[0..] == pat;
    forall k: nat | k <= |sub|
      ensures NoWay(sub, pat, k, 0, []) <==> !OccursAt(sub, pat, k)
      ensures OccursAt(sub, pat, k) ==> All(sub, pat, k, 0, [])[0] == Hit(k + |pat|, [])
    {
      PlainWays(sub, pat, k, 0);
    }
  }

  predicate Anchored(pat: string) {
    pat != [] && pat[0] == '^'
  }

  function Unanchored(pat: string): string {
    if Anchored(pat) then pat[1..] else pat
  }

  /** What a search for the text itself is to answer. */
  ghost predicate PlainAnswer(sub: string, pat: string, init: nat, r: Search) {
    match r
    case SearchRaised => true
    case NotFound => FirstOccurrence(sub, init, pat, None)
    case FoundAt(start, end, values) => FirstOccurrence(sub, init, pat, Some(start)) && end == start + |pat| && values == []
  }

  /** The branch of str_find_aux that searches plainly. */
  method FindPlain(ms: MatchState, init: nat) returns (r: Search)
    requires ms.Valid() && init <= |ms.sub|
    modifies ms`steps, ms`used, ms`work
    ensures PlainAnswer(ms.sub, ms.pat, init, r)
    ensures r.SearchRaised? <==> ms.work > ms.limit
  {
    var ok, at := MemFind(ms, init, ms.pat);
    if !ok {
      return SearchRaised;
    }
    ok := ms.CountFlush();
    if !ok {
      return SearchRaised;
    }
    return if at.None? then NotFound else FoundAt(at.value, at.value + |ms.pat|, []);
  }

  /**
   str_find_aux, for string.find and for string.match: plainly on request or without special
   characters, by pattern otherwise. A pattern search is raised past the limit and at a match
   that leaves a capture open; if the pattern is harmless, for nothing else.
   */
  method StrFind(sub: string, pat: string, init: nat, find: bool, explicit: bool, limit: nat, used: nat)
    returns (r: Search, ghost work: nat)
    requires |sub| < U64 - 2 && used <= limit
    ensures init > |sub| ==> r.NotFound?
    ensures init <= |sub| && find && (explicit || NoSpecials(pat)) ==>
      PlainAnswer(sub, pat, init, r) && (r.SearchRaised? <==> work > limit)
    ensures init <= |sub| && !(find && (explicit || NoSpecials(pat))) ==>
      PatternAnswer(sub, Unanchored(pat), init, Anchored(pat), find, r)
    ensures init <= |sub| && !(find && (explicit || NoSpecials(pat))) && Harmless(Unanchored(pat)) ==>
      (r.SearchRaised? <==> work > limit || Unfinished(sub, Unanchored(pat), init, Anchored(pat)))
  {
    work := used;
    if init > |sub| {
      return NotFound, work;
    }
    if find && (explicit || NoSpecials(pat)) {
      var ms := new MatchState.Prepare(sub, pat, limit, used);
      r := FindPlain(ms, init);
      work := ms.work;
    } else {
      var ms := new MatchState.Prepare(sub, Unanchored(pat), limit, used);
      r := FindPattern(ms, init, Anchored(pat), find);
      work := ms.work;
    }
  }

  // ----- gsub -----

  function TextOf(sub: string, c: Cut, repl: Repl): string
    requires c.start <= c.hit.end <= |sub|
  {
    if ReplyTo(sub, repl, c).Put? then ReplyTo(sub, repl, c).text else sub[c.start..c.hit.end]
  }

  /** What gsub did, round by round: replaced a match, or copied the character it could not match at. */
  datatype Round = Replace(c: Cut) | Copy

  /** Where the subject has been dealt with up to. */
  function Src(rounds: seq<Round>): nat {
    if rounds == [] then 0
    else
      match rounds[|rounds| - 1]
      case Replace(c) => c.hit.end
      case Copy => Src(rounds[..|rounds| - 1]) + 1
  }

  /** Where the last replaced match ends; -1 before the first. */
  function LastEnd(rounds: seq<Round>): int {
    if rounds == [] then -1
    else
      match rounds[|rounds| - 1]
      case Replace(c) => c.hit.end
      case Copy => LastEnd(rounds[..|rounds| - 1])
  }

  /** At k there is nothing to replace: no match, or only an empty one where the last replaced ended. */
  ghost predicate NothingNew(sub: string, pat: string, k: nat, last: int) {
    NoWay(sub, pat, k, 0, []) || (last == k && All(sub, pat, k, 0, [])[0].end == k)
  }

  /** The rounds follow each other through the subject. */
  ghost predicate InOrder(sub: string, rounds: seq<Round>) {
    rounds == [] ||
    var before := rounds[..|rounds| - 1];
    InOrder(sub, before) &&
    match rounds[|rounds| - 1]
    case Replace(c) => c.start == Src(before) <= c.hit.end <= |sub|
    case Copy => Src(before) < |sub|
  }

  /** A match is replaced wherever there is a new one, the preferred one; the rest is copied. */
  ghost predicate Lawful(sub: string, pat: string, rounds: seq<Round>) {
    rounds == [] ||
    var before := rounds[..|rounds| - 1];
    Lawful(sub, pat, before) &&
    match rounds[|rounds| - 1]
    case Replace(c) => c.hit.end != LastEnd(before) && IsMatch(sub, pat, c.start, c.hit)
    case Copy => NothingNew(sub, pat, Src(before), LastEnd(before))
  }

  /** The text made of the rounds. */
  function Made(sub: string, rounds: seq<Round>, repl: Repl): string {
    if rounds == [] then []
    else
      var before := rounds[..|rounds| - 1];
      Made(sub, before, repl) +
      match rounds[|rounds| - 1]
      case Replace(c) => if c.start <= c.hit.end <= |sub| then TextOf(sub, c, repl) else []
      case Copy => if Src(before) < |sub| then [sub[Src(before)]] else []
  }

  function Replacements(rounds: seq<Round>): nat {
    if rounds == [] then 0
    else Replacements(rounds[..|rounds| - 1]) + (if rounds[|rounds| - 1].Replace? then 1 else 0)
  }

  /** Some match was given a text of its own. */
  predicate Changed(sub: string, rounds: seq<Round>, repl: Repl) {
    rounds != [] &&
    (Changed(sub, rounds[..|rounds| - 1], repl)
     || (rounds[|rounds| - 1].Replace? && ReplyTo(sub, repl, rounds[|rounds| - 1].c).Put?))
  }

  /** Matches put back as they were, or kept, leave the subject as it was. */
  lemma {:induction false} KeepingRebuilds(sub: string, rounds: seq<Round>, repl: Repl)
    requires InOrder(sub, rounds)
    requires !Changed(sub, rounds, repl) ||
      forall c: Cut :: c.start <= c.hit.end <= |sub| ==> TextOf(sub, c, repl) == sub[c.start..c.hit.end]
    ensures Src(rounds) <= |sub| && Made(sub, rounds, repl) == sub[..Src(rounds)]
  {
    if rounds != [] {
      var before := rounds[..|rounds| - 1];
      KeepingRebuilds(sub, before, repl);
      match rounds[|rounds| - 1]
      case Replace(c) => assert sub[..c.hit.end] == sub[..c.start] + sub[c.start..c.hit.end];
      case Copy => assert sub[..Src(rounds)] == sub[..Src(before)] + [sub[Src(before)]];
    }
  }

  /** Position k lies in a replaced match. */
  ghost predicate Inside(rounds: seq<Round>, k: nat) {
    exists i :: 0 <= i < |rounds| && rounds[i].Replace? && rounds[i].c.start <= k < rounds[i].c.hit.end
  }

  /** Round i copied the character at k, where there was nothing new to replace. */
  ghost predicate CopiedAt(sub: string, pat: string, rounds: seq<Round>, i: nat, k: nat) {
    i < |rounds| && rounds[i].Copy? && Src(rounds[..i]) == k && NothingNew(sub, pat, k, LastEnd(rounds[..i]))
  }

  /** No match is passed over: every position dealt with is in a replaced match, or was copied for want of a new one. */
  lemma {:induction false} NonePassedOver(sub: string, pat: string, rounds: seq<Round>, k: nat)
    requires InOrder(sub, rounds) && Lawful(sub, pat, rounds) && k < Src(rounds)
    ensures Inside(rounds, k) || exists i: nat :: CopiedAt(sub, pat, rounds, i, k)
  {
    var n := |rounds| - 1;
    var before := rounds[..n];
    if k < Src(before) {
      NonePassedOver(sub, pat, before, k);
      if Inside(before, k) {
        var i :| 0 <= i < |before| && before[i].Replace? && before[i].c.start <= k < before[i].c.hit.end;
        assert rounds[i] == before[i];
      } else {
        var i: nat :| CopiedAt(sub, pat, before, i, k);
        assert rounds[i] == before[i] && rounds[..i] == before[..i];
        assert CopiedAt(sub, pat, rounds, i, k);
      }
    } else if rounds[n].Copy? {
      assert CopiedAt(sub, pat, rounds, n, k);
    } else {
      assert rounds[n].Replace?;
    }
  }

  /** The match at src that gsub would replace next is one the replacement refuses. */
  ghost predicate Refused(sub: string, pat: string, src: nat, last: int, repl: Repl) {
    exists h: Hit :: IsMatch(sub, pat, src, h) && h.end != last && ReplyTo(sub, repl, Cut(src, h)).Bad?
  }

  /** A text is refused at a new match exactly when it does not fit the pattern, whatever the subject. */
  lemma RefusedTextIff(sub: string, pat: string, src: nat, last: int, news: string)
    requires src <= |sub|
    ensures Refused(sub, pat, src, last, Str(news)) <==>
      !NoWay(sub, pat, src, 0, []) && All(sub, pat, src, 0, [])[0].end != last && !Fits(news, 0, EndShape(pat, 0, []))
  {
    if !NoWay(sub, pat, src, 0, []) {
      var h := All(sub, pat, src, 0, [])[0];
      TextRefusedIff(sub, pat, src, h, news);
      assert IsMatch(sub, pat, src, h);
    }
  }

  /** One round more. */
  lemma OneMore(sub: string, rounds: seq<Round>, x: Round, repl: Repl)
    ensures var more := rounds + [x];
      && Src(more) == (if x.Copy? then Src(rounds) + 1 else x.c.hit.end)
      && LastEnd(more) == (if x.Copy? then LastEnd(rounds) else x.c.hit.end)
      && Replacements(more) == Replacements(rounds) + (if x.Copy? then 0 else 1)
      && Changed(sub, more, repl) == (Changed(sub, rounds, repl) || (x.Replace? && ReplyTo(sub, repl, x.c).Put?))
      && more != [] && more[..|more| - 1] == rounds && more[|more| - 1] == x
  {
    assert (rounds + [x])[..|rounds|] == rounds;
  }

  lemma OneMoreMade(sub: string, rounds: seq<Round>, x: Round, repl: Repl)
    requires x.Replace? ==> x.c.start <= x.c.hit.end <= |sub|
    requires x.Copy? ==> Src(rounds) < |sub|
    ensures Made(sub, rounds + [x], repl) ==
      Made(sub, rounds, repl) + if x.Replace? then TextOf(sub, x.c, repl) else [sub[Src(rounds)]]
  {
    assert (rounds + [x])[..|rounds|] == rounds;
  }

  lemma OneMoreLawful(sub: string, pat: string, rounds: seq<Round>, x: Round)
    requires InOrder(sub, rounds) && Lawful(sub, pat, rounds)
    requires x.Replace? ==>
      x.c.start == Src(rounds) <= x.c.hit.end <= |sub| && x.c.hit.end != LastEnd(rounds) && IsMatch(sub, pat, x.c.start, x.c.hit)
    requires x.Copy? ==> Src(rounds) < |sub| && NothingNew(sub, pat, Src(rounds), LastEnd(rounds))
    ensures InOrder(sub, rounds + [x]) && Lawful(sub, pat, rounds + [x])
  {
    assert (rounds + [x])[..|rounds|] == rounds;
  }

  /** What the variables of gsub's loop are after these rounds. */
  ghost predicate Stands(
      sub: string, pat: string, repl: Repl, rounds: seq<Round>, b: string, src: nat, last: int, changed: bool, n: nat) {
    && InOrder(sub, rounds) && Lawful(sub, pat, rounds)
    && src == Src(rounds) <= |sub| && last == LastEnd(rounds) <= src
    && b == Made(sub, rounds, repl) && changed == Changed(sub, rounds, repl) && n == Replacements(rounds)
  }

  lemma StandsAtFirst(sub: string, pat: string, repl: Repl)
    ensures Stands(sub, pat, repl, [], "", 0, -1, false, 0)
  {
  }

  lemma StandsReplaced(
      sub: string, pat: string, repl: Repl, rounds: seq<Round>, b: string, src: nat, last: int, changed: bool, n: nat, c: Cut)
    requires Stands(sub, pat, repl, rounds, b, src, last, changed, n)
    requires c.start == src <= c.hit.end <= |sub| && c.hit.end != last && IsMatch(sub, pat, src, c.hit)
    ensures Stands(sub, pat, repl, rounds + [Replace(c)], b + TextOf(sub, c, repl), c.hit.end, c.hit.end,
                   changed || ReplyTo(sub, repl, c).Put?, n + 1)
  {
    OneMore(sub, rounds, Replace(c), repl);
    OneMoreMade(sub, rounds, Replace(c), repl);
    OneMoreLawful(sub, pat, rounds, Replace(c));
  }

  lemma StandsCopied(
      sub: string, pat: string, repl: Repl, rounds: seq<Round>, b: string, src: nat, last: int, changed: bool, n: nat)
    requires Stands(sub, pat, repl, rounds, b, src, last, changed, n) && src < |sub| && NothingNew(sub, pat, src, last)
    ensures Stands(sub, pat, repl, rounds + [Copy], b + [sub[src]], src + 1, last, changed, n)
  {
    OneMore(sub, rounds, Copy, repl);
    OneMoreMade(sub, rounds, Copy, repl);
    OneMoreLawful(sub, pat, rounds, Copy);
  }

  /** One round of gsub at src; None is an error: the limit, the pattern's or the replacement's. */
  method GsubRound(ms: MatchState, src: nat, last: int, repl: Repl) returns (r: Option<Round>, reply: Reply)
    requires ms.Valid() && src <= |ms.sub| < U64 - 2 && ms.depth == MAXCCALLS && last <= src
    modifies ms, ms.capture
    ensures r.Some? ==> ms.Valid() && ms.depth == MAXCCALLS
    ensures r.Some? && r.value.Copy? ==> NothingNew(ms.sub, ms.pat, src, last)
    ensures r.Some? && r.value.Replace? ==>
      var c := r.value.c;
      c.start == src <= c.hit.end <= |ms.sub| && c.hit.end != last && IsMatch(ms.sub, ms.pat, src, c.hit)
    ensures r.Some? && r.value.Replace? ==> reply == ReplyTo(ms.sub, repl, r.value.c) && !reply.Bad?
    ensures r.None? && Harmless(ms.pat) ==>
      ms.work > ms.limit || Refused(ms.sub, ms.pat, src, last, repl)
  {
    reply := Keep;
    var m := MatchAt(ms, src);
    if m.Raised? {
      return None, Keep;
    }
    if m.Found? && m.end != last {
      reply := AddValue(ms, src, m.end, repl);
      var c := Cut(src, Hit(m.end, ms.capture[..ms.level]));
      assert c == CutOf(ms, src, m.end);
      assert ReplyTo(ms.sub, repl, c) == reply;
      return if reply.Bad? then None else Some(Replace(c)), reply;
    }
    return Some(Copy), Keep;
  }

  /** How a loop over rounds that stopped at src may have ended. */
  ghost predicate Ended(sub: string, pat: string, rounds: seq<Round>, anchor: bool, max: int) {
    || Replacements(rounds) >= max
    || (anchor && |rounds| == 1)
    || (Src(rounds) == |sub| && NothingNew(sub, pat, |sub|, LastEnd(rounds)))
  }

  /**
   The loop of gsub: rounds left to right until max replacements, the end of the subject,
   or one round when anchored. It ends on every subject and pattern: a round moves on, or
   replaces an empty match where none was replaced.
   */
  method GsubLoop(ms: MatchState, anchor: bool, max: int, repl: Repl)
    returns (ok: bool, b: string, src: nat, changed: bool, n: nat, ghost rounds: seq<Round>)
    requires ms.Valid() && |ms.sub| < U64 - 2 && ms.depth == MAXCCALLS
    modifies ms, ms.capture
    ensures InOrder(ms.sub, rounds) && Lawful(ms.sub, ms.pat, rounds)
    ensures ok ==> Ended(ms.sub, ms.pat, rounds, anchor, max) && ms.Valid()
    ensures !ok && Harmless(ms.pat) ==>
      ms.work > ms.limit || Refused(ms.sub, ms.pat, Src(rounds), LastEnd(rounds), repl)
    ensures src == Src(rounds) <= |ms.sub|
    ensures b == Made(ms.sub, rounds, repl) && changed == Changed(ms.sub, rounds, repl)
    ensures n == Replacements(rounds) && (max >= 0 ==> n <= max)
  {
    src, b, changed, n, rounds, ok := 0, "", false, 0, [], false;
    var last: int := -1;
    StandsAtFirst(ms.sub, ms.pat, repl);
    while n < max
      invariant Stands(ms.sub, ms.pat, repl, rounds, b, src, last, changed, n) && last <= src <= |ms.sub|
      invariant (max >= 0 ==> n <= max) && (anchor ==> rounds == []) && ms.Valid() && ms.depth == MAXCCALLS
      decreases |ms.sub| - src, if last == src then 0 else 1
    {
      var r, reply := GsubRound(ms, src, last, repl);
      if r.None? {
        return;
      }
      match r.value {
        case Replace(c) =>
          StandsReplaced(ms.sub, ms.pat, repl, rounds, b, src, last, changed, n, c);
          n := n + 1;
          changed := changed || reply.Put?;
          b := b + if reply.Put? then reply.text else ms.sub[c.start..c.hit.end];
          src, last := c.hit.end, c.hit.end;
        case Copy =>
          if src == |ms.sub| {
            break;
          }
          StandsCopied(ms.sub, ms.pat, repl, rounds, b, src, last, changed, n);
          b := b + [ms.sub[src]];
          src := src + 1;
      }
      rounds := rounds + [r.value];
      if anchor {
        break;
      }
    }
    ok := true;
  }

  /** gsub: the text of its rounds and what is left of the subject; none changed, the subject itself. */
  method Gsub(ms: MatchState, anchor: bool, max: int, repl: Repl)
    returns (ok: bool, out: string, n: nat, ghost rounds: seq<Round>)
    requires ms.Valid() && |ms.sub| < U64 - 2 && ms.depth == MAXCCALLS
    modifies ms, ms.capture
    ensures InOrder(ms.sub, rounds) && Lawful(ms.sub, ms.pat, rounds) && Src(rounds) <= |ms.sub|
    ensures !ok && Harmless(ms.pat) ==>
      ms.work > ms.limit || Refused(ms.sub, ms.pat, Src(rounds), LastEnd(rounds), repl)
    ensures ok ==> Ended(ms.sub, ms.pat, rounds, anchor, max)
    ensures ok ==> out == Made(ms.sub, rounds, repl) + ms.sub[Src(rounds)..]
    ensures ok ==> n == Replacements(rounds) && (max >= 0 ==> n <= max)
    ensures ok ==> ms.steps == 0 && ms.used == ms.work
  {
    var b, src, changed;
    out := "";
    ok, b, src, changed, n, rounds := GsubLoop(ms, anchor, max, repl);
    if !ok {
      return;
    }
    ok := ms.CountFlush();
    if !changed {
      KeepingRebuilds(ms.sub, rounds, repl);
      assert ms.sub == ms.sub[..src] + ms.sub[src..];
      out := ms.sub;
    } else {
      out := b + ms.sub[src..];
    }
  }

  /** A text that puts every match back gives the subject back. */
  lemma PutBack(sub: string, rounds: seq<Round>, repl: Repl)
    requires InOrder(sub, rounds)
    requires forall c: Cut :: ReplyTo(sub, repl, c) == Put(Part(sub, c.start, c.hit.end))
    ensures Src(rounds) <= |sub| && Made(sub, rounds, repl) + sub[Src(rounds)..] == sub
  {
    forall c: Cut | c.start <= c.hit.end <= |sub|
      ensures TextOf(sub, c, repl) == sub[c.start..c.hit.end]
    {
      assert ReplyTo(sub, repl, c) == Put(Part(sub, c.start, c.hit.end));
    }
    KeepingRebuilds(sub, rounds, repl);
    assert sub == sub[..Src(rounds)] + sub[Src(rounds)..];
  }

  /** Replacing every match by itself, with "%0", gives the subject back. */
  lemma GsubIdentity(sub: string, rounds: seq<Round>)
    requires InOrder(sub, rounds)
    ensures Src(rounds) <= |sub| && Made(sub, rounds, Str("%0")) + sub[Src(rounds)..] == sub
  {
    var repl := Str("%0");
    forall c: Cut
      ensures ReplyTo(sub, repl, c) == Put(Part(sub, c.start, c.hit.end))
    {
      WholeIsMatch(sub, c);
    }
    PutBack(sub, rounds, repl);
  }
}
