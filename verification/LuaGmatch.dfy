/** string.gmatch, and the matches it and string.gsub go through. */
module LuaGmatch {
  import opened Common
  import opened LuaSpec
  import opened LuaMatch
  import opened LuaCaptures
  import opened LuaLib

  /** The preferred match at k is a new one. */
  ghost predicate New(sub: string, pat: string, k: nat, last: int) {
    !NothingNew(sub, pat, k, last)
  }

  ghost function MatchFrom(sub: string, pat: string, k: nat, last: int): (c: Cut)
    requires k <= |sub| && last <= k && New(sub, pat, k, last)
    ensures c.start == k <= c.hit.end <= |sub| && c.hit.end != last && IsMatch(sub, pat, k, c.hit)
  {
    MatchEnds(sub, pat, k);
    Cut(k, All(sub, pat, k, 0, [])[0])
  }

  /** Every match from src on, left to right, each the preferred one at its place and none where the one before ended and empty. */
  ghost function Matches(sub: string, pat: string, src: nat, last: int): seq<Cut>
    requires src <= |sub| + 1 && last <= src
    decreases |sub| + 1 - src, if last == src then 0 else 1
  {
    if src > |sub| then []
    else if New(sub, pat, src, last) then
      var c := MatchFrom(sub, pat, src, last);
      [c] + Matches(sub, pat, c.hit.end, c.hit.end)
    else Matches(sub, pat, src + 1, last)
  }

  // ----- gmatch -----

  /** What one call of the iterator gives: an error, the end, or a match and its captures. */
  datatype Yield = YieldRaised | Over | Yields(c: Cut, values: seq<Value>)

  /** What a call from src is to give, the last match having ended at last. */
  ghost predicate NextYield(sub: string, pat: string, src: nat, last: int, r: Yield)
    requires src <= |sub| + 1 && last <= src
  {
    match r
    case YieldRaised => true
    case Over => Matches(sub, pat, src, last) == []
    case Yields(c, values) =>
      && src <= c.start <= c.hit.end <= |sub| && Pushed(sub, c, true) == Some(values)
      && Matches(sub, pat, src, last) == [c] + Matches(sub, pat, c.hit.end, c.hit.end)
  }

  /** A call with an open capture at its match. */
  ghost predicate Unclosed(sub: string, pat: string, src: nat, last: int)
    requires src <= |sub| + 1 && last <= src
  {
    LeavesOpen(pat) && Matches(sub, pat, src, last) != []
  }

  /** gmatch_aux: the next match that does not end where the last one did, if any. */
  method GmatchNext(ms: MatchState, src: nat, last: int) returns (r: Yield)
    requires ms.Valid() && |ms.sub| < U64 - 2 && ms.depth == MAXCCALLS && last <= src <= |ms.sub| + 1
    modifies ms, ms.capture
    ensures NextYield(ms.sub, ms.pat, src, last, r)
    ensures !r.YieldRaised? ==> ms.Valid() && ms.depth == MAXCCALLS && ms.steps == 0 && ms.used == ms.work
    ensures r.YieldRaised? && Harmless(ms.pat) ==> ms.work > ms.limit || Unclosed(ms.sub, ms.pat, src, last)
    ensures ms.work > ms.limit || Unclosed(ms.sub, ms.pat, src, last) ==> r.YieldRaised?
  {
    var k := src;
    while k <= |ms.sub|
      invariant src <= k <= |ms.sub| + 1 && ms.Valid() && ms.depth == MAXCCALLS
      invariant Matches(ms.sub, ms.pat, k, last) == Matches(ms.sub, ms.pat, src, last)
    {
      var m := MatchAt(ms, k);
      if m.Raised? {
        return YieldRaised;
      }
      if m.Found? && m.end != last {
        r := YieldFound(ms, k, last, m.end);
        return;
      }
      k := k + 1;
    }
    var ok := ms.CountFlush();
    return if ok then Over else YieldRaised;
  }

  method YieldFound(ms: MatchState, k: nat, last: int, e: nat) returns (r: Yield)
    requires ms.Valid() && last <= k <= e <= |ms.sub| && e != last && IsMatch(ms.sub, ms.pat, k, Hit(e, ms.Caps()))
    modifies ms`steps, ms`used
    ensures NextYield(ms.sub, ms.pat, k, last, r)
    ensures !r.YieldRaised? ==> ms.Valid() && ms.steps == 0 && ms.used == ms.work
    ensures r.YieldRaised? <==> ms.work > ms.limit || Unclosed(ms.sub, ms.pat, k, last)
  {
    assert New(ms.sub, ms.pat, k, last);
    OpenIffLeft(ms.sub, ms.pat, k, Hit(e, ms.Caps()));
    var ok := ms.CountFlush();
    if !ok {
      return YieldRaised;
    }
    var values := PushCaptures(ms, k, e, true);
    return if values.None? then YieldRaised else Yields(Cut(k, Hit(e, ms.capture[..ms.level])), values.value);
  }

  // ----- gsub -----

  /** The matches replaced. */
  function Cuts(rounds: seq<Round>): seq<Cut> {
    if rounds == [] then []
    else Cuts(rounds[..|rounds| - 1]) + match rounds[|rounds| - 1] case Replace(c) => [c] case Copy => []
  }

  lemma LastEndBy(sub: string, rounds: seq<Round>)
    requires InOrder(sub, rounds)
    ensures LastEnd(rounds) <= Src(rounds) <= |sub|
  {
    if rounds != [] {
      LastEndBy(sub, rounds[..|rounds| - 1]);
    }
  }

  /** What gsub has replaced and what is left to replace are all the matches there are. */
  lemma {:induction false} CutsAreMatches(sub: string, pat: string, rounds: seq<Round>)
    requires InOrder(sub, rounds) && Lawful(sub, pat, rounds)
    ensures LastEnd(rounds) <= Src(rounds) <= |sub|
    ensures Matches(sub, pat, 0, -1) == Cuts(rounds) + Matches(sub, pat, Src(rounds), LastEnd(rounds))
  {
    LastEndBy(sub, rounds);
    if rounds != [] {
      var before, x := rounds[..|rounds| - 1], rounds[|rounds| - 1];
      LastEndBy(sub, before);
      CutsAreMatches(sub, pat, before);
      var src, last := Src(before), LastEnd(before);
      if x.Replace? {
        assert New(sub, pat, src, last);
        assert MatchFrom(sub, pat, src, last) == x.c;
        assert Matches(sub, pat, src, last) == [x.c] + Matches(sub, pat, Src(rounds), LastEnd(rounds));
      } else {
        assert !New(sub, pat, src, last);
        assert Matches(sub, pat, src, last) == Matches(sub, pat, src + 1, last);
      }
    }
  }

  lemma {:induction false} CutsCount(rounds: seq<Round>)
    ensures |Cuts(rounds)| == Replacements(rounds)
  {
    if rounds != [] {
      CutsCount(rounds[..|rounds| - 1]);
    }
  }

  /** There is at most one match for each position and for the end. */
  lemma {:induction false} MatchesFit(sub: string, pat: string, src: nat, last: int)
    requires src <= |sub| + 1 && last <= src
    ensures src <= |sub| ==> |Matches(sub, pat, src, last)| + src + (if last == src then 1 else 0) <= |sub| + 1
    ensures src > |sub| ==> Matches(sub, pat, src, last) == []
    decreases |sub| + 1 - src, if last == src then 0 else 1
  {
    if src <= |sub| {
      if New(sub, pat, src, last) {
        var e := MatchFrom(sub, pat, src, last).hit.end;
        MatchesFit(sub, pat, e, e);
      } else {
        MatchesFit(sub, pat, src + 1, last);
      }
    }
  }

  /**
   gsub without an anchor, and without a number of replacements or with one past the subject's
   length, which is the default, replaces exactly the matches gmatch goes through, in order.
   */
  lemma GsubReplacesGmatch(sub: string, pat: string, rounds: seq<Round>, max: int)
    requires InOrder(sub, rounds) && Lawful(sub, pat, rounds) && Ended(sub, pat, rounds, false, max)
    requires Replacements(rounds) < max || max > |sub|
    ensures Cuts(rounds) == Matches(sub, pat, 0, -1)
  {
    CutsAreMatches(sub, pat, rounds);
    CutsCount(rounds);
    MatchesFit(sub, pat, 0, -1);
    if Replacements(rounds) < max {
      AtTheEnd(sub, pat, LastEnd(rounds));
    }
    assert Cuts(rounds) + [] == Cuts(rounds);
  }

  lemma AtTheEnd(sub: string, pat: string, last: int)
    requires last <= |sub| && NothingNew(sub, pat, |sub|, last)
    ensures Matches(sub, pat, |sub|, last) == []
  {
    assert !New(sub, pat, |sub|, last);
    assert Matches(sub, pat, |sub| + 1, last) == [];
  }
}
