/**
 The counted backtracking matcher: match() and its helpers over one mutated MatchState.
 A raised error (luaL_error, or the instruction limit spent) is the outcome Raised.
 */
module LuaMatch {
  import opened Common
  import opened LuaSpec

  const STEP_CHUNK: nat := 1024
  const MAXCCALLS: nat := 200

  datatype Outcome = Raised | Failed | Found(end: nat)

  /** How one round of match() ends: with an outcome, or by going on at s, p (its goto init). */
  datatype Next = Done(r: Outcome) | Goto(s: nat, p: nat)

  class MatchState {
    const sub: string
    const pat: string
    const limit: nat                  // the rules' instruction limit
    const capture: array<Capture>
    var level: nat                    // captures open or finished
    var depth: nat                    // matchdepth
    var steps: nat                    // counted, not yet charged
    var used: nat                     // charged
    ghost var work: nat               // everything counted

    /** Nothing counted is lost, and less than a chunk waits to be charged. */
    ghost predicate Tallied()
      reads this
    {
      used + steps == work && used <= limit && steps < STEP_CHUNK
    }

    ghost predicate Valid()
      reads this
    {
      Tallied() && capture.Length == MAX_CAPTURES && level <= MAX_CAPTURES
    }

    ghost function Caps(): Caps
      requires Valid()
      reads this, capture
    {
      capture[..level]
    }

    /** A whole answer: the first of hits with its captures, or none and the captures as they were. */
    ghost predicate Answers(r: Outcome, hits: seq<Hit>, caps: Caps)
      reads this, capture
    {
      Valid() &&
      match r
      case Raised => true
      case Failed => hits == [] && Caps() == caps
      case Found(e) => hits != [] && hits[0] == Hit(e, Caps())
    }

    /** prepstate, then reprepstate, before a call of match. */
    constructor Prepare(sub: string, pat: string, limit: nat, used: nat)
      requires used <= limit
      ensures Valid() && Caps() == [] && depth == MAXCCALLS && fresh(capture)
      ensures this.sub == sub && this.pat == pat && this.limit == limit && this.used == used && steps == 0
    {
      this.sub, this.pat, this.limit, this.used := sub, pat, limit, used;
      capture := new Capture[MAX_CAPTURES](_ => Capture(0, CAP_POSITION));
      level, depth, steps := 0, MAXCCALLS, 0;
      work := used;
    }

    /** budyk_lua_charge: raises once the limit is spent. */
    method Charge(n: nat) returns (ok: bool)
      requires used <= limit
      modifies this`used
      ensures ok <==> old(used) + n <= limit
      ensures used == if ok then old(used) + n else limit + 1
    {
      var room := if used < limit then limit - used else 0;
      if n > room || used > limit {
        used := limit + 1;
        return false;
      }
      used := used + n;
      return true;
    }

    /** count: raises exactly when a chunk is full and all that was counted passes the limit. */
    method Count(n: nat) returns (ok: bool)
      requires Tallied()
      modifies this`steps, this`used, this`work
      ensures work == old(work) + n
      ensures ok ==> Tallied()
      ensures !ok <==> old(steps) + n >= STEP_CHUNK && work > limit
    {
      work := work + n;
      steps := steps + n;
      ok := true;
      if steps >= STEP_CHUNK {
        var s := steps;
        steps := 0;
        ok := Charge(s);
      }
    }

    /** count_flush: what is left is charged; raises exactly when all that was counted passes the limit. */
    method CountFlush() returns (ok: bool)
      requires Tallied()
      modifies this`steps, this`used
      ensures ok <==> work <= limit
      ensures ok ==> Tallied() && steps == 0 && used == work
    {
      var s := steps;
      steps := 0;
      ok := true;
      if s > 0 {
        ok := Charge(s);
      }
    }

    /** classend; None once it has raised: for a malformed class, or for the limit. */
    method FindClassEnd(p: nat) returns (e: Option<nat>)
      requires Valid() && p < |pat|
      modifies this`steps, this`used, this`work
      ensures e.Some? ==> Tallied() && e == ClassEnd(pat, p)
      ensures e.None? ==> ClassEnd(pat, p).None? || work > limit
    {
      if pat[p] == '%' {
        return if p + 1 == |pat| then None else Some(p + 2);
      }
      if pat[p] != '[' {
        return Some(p + 1);
      }
      var q := if At(pat, p + 1) == '^' then p + 2 else p + 1;
      ghost var from := q;
      while true
        invariant p < q <= |pat| && SetEnd(pat, q) == SetEnd(pat, from)
        invariant steps == old(steps) && used == old(used) && work == old(work)
        decreases |pat| - q
      {
        if q == |pat| {
          return None;
        }
        var c := pat[q];
        q := q + 1;
        if c == '%' && q < |pat| {
          q := q + 1;
        }
        if At(pat, q) == ']' {
          break;
        }
      }
      var ok := Count((q - p) / 16);
      return if ok then Some(q + 1) else None;
    }

    /** matchbracketclass, for the set opening at p and closing at ec. */
    method MatchBracketClass(c: char, p: nat, ec: nat) returns (b: bool)
      ensures b == MatchSet(c, pat, p, ec)
    {
      var sig, q := true, p;
      if At(pat, p + 1) == '^' {
        sig, q := false, p + 1;
      }
      q := q + 1;
      ghost var from := q;
      while q < ec
        invariant InSet(c, pat, q, ec) == InSet(c, pat, from, ec)
      {
        if At(pat, q) == '%' {
          q := q + 1;
          if MatchClass(c, At(pat, q)) {
            return sig;
          }
        } else if At(pat, q + 1) == '-' && q + 2 < ec {
          q := q + 2;
          if At(pat, q - 2) <= c <= At(pat, q) {
            return sig;
          }
        } else if At(pat, q) == c {
          return sig;
        }
        q := q + 1;
      }
      return !sig;
    }

    method SingleMatch(s: nat, p: nat, ep: nat) returns (ok: bool, b: bool)
      requires Valid() && p < ep <= |pat|
      modifies this`steps, this`used, this`work
      ensures ok ==> Tallied() && b == Single(sub, pat, s, p, ep)
      ensures !ok ==> work > limit
    {
      b := false;
      ok := Count(1);
      if !ok || s >= |sub| {
        return;
      }
      var c := sub[s];
      match pat[p]
      case '.' => b := true;
      case '%' => b := MatchClass(c, At(pat, p + 1));
      case '[' =>
        ok := Count((ep - p) / 16);
        b := MatchBracketClass(c, p, ep - 1);
      case x => b := x == c;
    }

    method MatchBalance(s: nat, p: nat) returns (ok: bool, r: Option<nat>)
      requires Valid() && s <= |sub| && p + 1 < |pat|
      modifies this`steps, this`used, this`work
      ensures ok ==> Tallied() && r == Balance(sub, s, pat[p], pat[p + 1])
      ensures !ok ==> work > limit
    {
      ok, r := true, None;
      if At(sub, s) != pat[p] {
        return;
      }
      var b, e, cont := pat[p], pat[p + 1], 1;
      var t := s + 1;
      while t < |sub|
        invariant s < t && cont > 0
        invariant BalanceFrom(sub, t, b, e, cont) == BalanceFrom(sub, s + 1, b, e, 1)
        invariant steps == old(steps) && used == old(used) && work == old(work)
      {
        if sub[t] == e {
          cont := cont - 1;
          if cont == 0 {
            ok := Count(t - s);
            return ok, Some(t + 1);
          }
        } else if sub[t] == b {
          cont := cont + 1;
        }
        t := t + 1;
      }
      ok := Count(t - s);
    }

    /** capture_to_close; None is the error. */
    method CaptureToClose() returns (l: Option<nat>)
      requires Valid()
      ensures l == ToClose(Caps())
    {
      var k := level;
      while k > 0
        invariant 0 <= k <= level && ToClose(capture[..k]) == ToClose(Caps())
      {
        k := k - 1;
        assert capture[..k + 1][..k] == capture[..k];
        if capture[k].len == CAP_UNFINISHED {
          return Some(k);
        }
      }
      return None;
    }

    /** match_capture; the length of a position capture, read as a size_t, fits no subject. */
    method MatchCapture(s: nat, d: char) returns (ok: bool, r: Option<nat>)
      requires Valid() && CapsBy(Caps(), s) && s <= |sub| < U64 - 2
      modifies this`steps, this`used, this`work
      ensures ok ==> Tallied() && r == BackRef(sub, s, d, old(Caps()))
      ensures !ok ==> !Refers(Shape(old(Caps())), d) || work > limit
    {
      var l := d as int - '1' as int;
      if l < 0 || l >= level || capture[l].len == CAP_UNFINISHED {
        return false, None;
      }
      assert capture[l] == Caps()[l];
      var init, len := capture[l].init, if capture[l].len < 0 then U64 + capture[l].len else capture[l].len;
      r := None;
      ok := Count(1 + len / 16);
      if |sub| - s >= len && sub[init..init + len] == sub[s..s + len] {
        r := Some(s + len);
      }
    }

    // ----- The recursion: the rest of the pattern shrinks at every call -----

    /** What match and each helper below is called with. */
    ghost predicate Ready(s: nat, p: nat)
      reads this, capture
    {
      Valid() && s <= |sub| < U64 - 2 && p <= |pat| && CapsBy(Caps(), s)
    }

    /** Without an error in the rest of the pattern, and with depth enough for it, only the limit raises. */
    ghost predicate Safe(p: nat, caps: Caps, room: int)
      reads this
      requires p <= |pat|
    {
      Clean(pat, p, caps) && |pat| - p <= room
    }

    /** A round's result against the ways to match it stands for. */
    ghost predicate Rounds(n: Next, hits: seq<Hit>, caps: Caps)
      reads this, capture
    {
      if n.Done? then Answers(n.r, hits, caps)
      else Ready(n.s, n.p) && Caps() == caps && All(sub, pat, n.s, n.p, caps) == hits
    }

    method StartCapture(s: nat, p: nat, what: int, ghost item: nat) returns (r: Outcome)
      requires Ready(s, p) && item < p && (what == CAP_POSITION || what == CAP_UNFINISHED)
      modifies this, capture
      ensures !r.Raised? ==> depth == old(depth) && old(level) < MAX_CAPTURES
      ensures !r.Raised? ==>
        Answers(r, All(sub, pat, s, p, old(Caps()) + [Capture(s, what)]), old(Caps()))
      ensures r.Raised? && old(level) < MAX_CAPTURES && Safe(p, old(Caps()) + [Capture(s, what)], old(depth) - 1) ==> work > limit
      decreases |pat| - item, 0
    {
      ghost var caps := Caps();
      if level >= MAX_CAPTURES {
        return Raised;
      }
      capture[level] := Capture(s, what);
      level := level + 1;
      assert Caps() == caps + [Capture(s, what)];
      r := Match(s, p);
      if r.Failed? {
        assert level == |caps| + 1;
        level := level - 1;
        assert Caps() == caps;
      }
    }

    method EndCapture(s: nat, p: nat, ghost item: nat) returns (r: Outcome)
      requires Ready(s, p) && item < p
      modifies this, capture
      ensures !r.Raised? ==> depth == old(depth) && ToClose(old(Caps())).Some?
      ensures !r.Raised? ==>
        Answers(r, All(sub, pat, s, p, Closed(old(Caps()), ToClose(old(Caps())).value, s)), old(Caps()))
      ensures var l := ToClose(old(Caps()));
        r.Raised? && l.Some? && Safe(p, Closed(old(Caps()), l.value, s), old(depth) - 1) ==> work > limit
      decreases |pat| - item, 0
    {
      ghost var caps := Caps();
      var found := CaptureToClose();
      if found.None? {
        return Raised;
      }
      var l := found.value;
      var open := capture[l];
      assert open == caps[l];
      capture[l] := Capture(open.init, s - open.init);
      assert Caps() == Closed(caps, l, s);
      r := Match(s, p);
      if r.Failed? {
        assert level == |caps| && capture[l] == Caps()[l];
        capture[l] := Capture(capture[l].init, CAP_UNFINISHED);
        assert Caps() == caps;
      }
    }

    /** The first loop of max_expand: one past the last character the class accepts in a row. */
    method Repetitions(s: nat, p: nat, ep: nat) returns (ok: bool, end: nat)
      requires Valid() && p < ep <= |pat|
      modifies this`steps, this`used, this`work
      ensures ok ==> Tallied() && end == RunEnd(sub, pat, s, p, ep)
      ensures !ok ==> work > limit
    {
      end := s;
      while true
        invariant Valid() && s <= end <= RunEnd(sub, pat, s, p, ep)
        invariant RunEnd(sub, pat, end, p, ep) == RunEnd(sub, pat, s, p, ep)
        decreases RunEnd(sub, pat, s, p, ep) - end
      {
        var b;
        ok, b := SingleMatch(end, p, ep);
        if !ok || !b {
          return;
        }
        end := end + 1;
      }
    }

    /** max_expand: the longest run first, then one character less at a time. */
    method MaxExpand(s: nat, p: nat, ep: nat) returns (r: Outcome)
      requires Ready(s, p) && p < ep < |pat|
      modifies this, capture
      ensures !r.Raised? ==> depth == old(depth)
      ensures !r.Raised? ==>
        Answers(r, Greedy(sub, pat, s, ep, RunEnd(sub, pat, s, p, ep), old(Caps())), old(Caps()))
      ensures r.Raised? && Safe(ep + 1, old(Caps()), old(depth) - 1) ==> work > limit
      decreases |pat| - p, 0
    {
      ghost var caps := Caps();
      var ok, end := Repetitions(s, p, ep);
      if !ok {
        return Raised;
      }
      r := Descend(s, p, ep, end);
    }

    /** The second loop of max_expand. */
    method Descend(s: nat, p: nat, ep: nat, end: nat) returns (r: Outcome)
      requires Ready(s, p) && p < ep < |pat| && s <= end <= |sub|
      modifies this, capture
      ensures !r.Raised? ==> depth == old(depth)
      ensures !r.Raised? ==> Answers(r, Greedy(sub, pat, s, ep, end, old(Caps())), old(Caps()))
      ensures r.Raised? && Safe(ep + 1, old(Caps()), old(depth) - 1) ==> work > limit
      decreases |pat| - ep, 0
    {
      ghost var caps := Caps();
      ghost var hits := Greedy(sub, pat, s, ep, end, caps);
      var t := end;
      while true
        invariant s <= t <= end <= |sub| && Valid() && Caps() == caps && depth == old(depth)
        invariant Greedy(sub, pat, s, ep, t, caps) == hits
        decreases t
      {
        CapsByLater(caps, s, t);
        ghost var here := All(sub, pat, t, ep + 1, caps);
        r := Match(t, ep + 1);
        if r.Raised? {
          return;
        }
        assert Answers(r, here, caps);
        GreedyStep(sub, pat, s, ep, t, caps);
        if r.Found? || t == s {
          assert Answers(r, hits, caps);
          return;
        }
        t := t - 1;
      }
    }

    method MinExpand(s: nat, p: nat, ep: nat) returns (r: Outcome)
      requires Ready(s, p) && p < ep < |pat|
      modifies this, capture
      ensures !r.Raised? ==> depth == old(depth)
      ensures !r.Raised? ==>
        Answers(r, Lazy(sub, pat, s, ep, RunEnd(sub, pat, s, p, ep), old(Caps())), old(Caps()))
      ensures r.Raised? && Safe(ep + 1, old(Caps()), old(depth) - 1) ==> work > limit
      decreases |pat| - p, 0
    {
      ghost var caps := Caps();
      ghost var end := RunEnd(sub, pat, s, p, ep);
      var t := s;
      while true
        invariant s <= t <= end && RunEnd(sub, pat, t, p, ep) == end
        invariant Ready(t, p) && Caps() == caps && depth == old(depth)
        invariant Lazy(sub, pat, s, ep, end, caps) == Lazy(sub, pat, t, ep, end, caps)
        decreases end - t
      {
        r := Match(t, ep + 1);
        if !r.Failed? {
          return;
        }
        var ok, b := SingleMatch(t, p, ep);
        if !ok {
          return Raised;
        }
        if !b {
          return Failed;
        }
        CapsByLater(caps, t, t + 1);
        t := t + 1;
      }
    }

    /** An optional class that accepts the character at s: with it first, then without. */
    method MatchOptional(s: nat, p: nat, ep: nat) returns (n: Next)
      requires Ready(s, p) && p < |pat| && ItemAt(pat, p) == Class(ep, '?') && Single(sub, pat, s, p, ep)
      modifies this, capture
      ensures n != Done(Raised) ==> depth == old(depth) && (n.Goto? ==> n.p > p)
      ensures n != Done(Raised) ==> Rounds(n, All(sub, pat, s, p, old(Caps())), old(Caps()))
      ensures Clean(pat, p, old(Caps())) && n.Goto? ==> n.p <= |pat| && Clean(pat, n.p, old(Caps()))
      ensures n == Done(Raised) && Safe(p, old(Caps()), old(depth)) ==> work > limit
      decreases |pat| - p, 0
    {
      ghost var with := All(sub, pat, s + 1, ep + 1, Caps());
      ghost var without := All(sub, pat, s, ep + 1, Caps());
      assert All(sub, pat, s, p, Caps()) == with + without;
      CapsByLater(Caps(), s, s + 1);
      var r := Match(s + 1, ep + 1);
      if r.Failed? {
        return Goto(s, ep + 1);
      }
      return Done(r);
    }

    /** A class that accepts the character at s, by its suffix. */
    method MatchSuffix(s: nat, p: nat, ep: nat) returns (n: Next)
      requires Ready(s, p) && p < |pat| && ItemAt(pat, p).Class? && ep == ItemAt(pat, p).ep
      requires Single(sub, pat, s, p, ep)
      modifies this, capture
      ensures n != Done(Raised) ==> depth == old(depth) && (n.Goto? ==> n.p > p)
      ensures n != Done(Raised) ==> Rounds(n, All(sub, pat, s, p, old(Caps())), old(Caps()))
      ensures Clean(pat, p, old(Caps())) && n.Goto? ==> n.p <= |pat| && Clean(pat, n.p, old(Caps()))
      ensures n == Done(Raised) && Safe(p, old(Caps()), old(depth)) ==> work > limit
      decreases |pat| - p, 1
    {
      CapsByLater(Caps(), s, s + 1);
      var r: Outcome;
      match At(pat, ep) {
        case '?' =>
          n := MatchOptional(s, p, ep);
          return;
        case '+' => r := MaxExpand(s + 1, p, ep);
        case '*' => r := MaxExpand(s, p, ep);
        case '-' => r := MinExpand(s, p, ep);
        case _ => return Goto(s + 1, ep);
      }
      n := Done(r);
    }

    /** The default case of match: a class and its optional suffix. */
    method MatchDefault(s: nat, p: nat) returns (n: Next)
      requires Ready(s, p) && p < |pat| && (ItemAt(pat, p).Class? || ClassEnd(pat, p).None?)
      modifies this, capture
      ensures n != Done(Raised) ==> depth == old(depth) && (n.Goto? ==> n.p > p)
      ensures n != Done(Raised) ==> Rounds(n, All(sub, pat, s, p, old(Caps())), old(Caps()))
      ensures Clean(pat, p, old(Caps())) && n.Goto? ==> n.p <= |pat| && Clean(pat, n.p, old(Caps()))
      ensures n == Done(Raised) && Safe(p, old(Caps()), old(depth)) ==> work > limit
      decreases |pat| - p, 2
    {
      var end := FindClassEnd(p);
      if end.None? {
        return Done(Raised);
      }
      var ep := end.value;
      var ok, b := SingleMatch(s, p, ep);
      if !ok {
        return Done(Raised);
      }
      if b {
        n := MatchSuffix(s, p, ep);
      } else {
        n := Refused(s, p, ep);
      }
    }

    /** A class that does not accept the character at s: passed over by the suffixes that allow it. */
    method Refused(s: nat, p: nat, ep: nat) returns (n: Next)
      requires Ready(s, p) && p < |pat| && ItemAt(pat, p).Class? && ep == ItemAt(pat, p).ep
      requires !Single(sub, pat, s, p, ep)
      ensures n.Goto? ==> p < n.p <= |pat| && (Clean(pat, p, Caps()) ==> Clean(pat, n.p, Caps()))
      ensures n != Done(Raised) && Rounds(n, All(sub, pat, s, p, Caps()), Caps())
    {
      RefusedWays(sub, pat, s, p, Caps());
      var suffix := At(pat, ep);
      if suffix == '*' || suffix == '?' || suffix == '-' {
        CleanPast(pat, p, Caps());
        return Goto(s, ep + 1);
      }
      return Done(Failed);
    }

    /** %bxy in match. */
    method RoundBalance(s: nat, p: nat) returns (n: Next)
      requires Ready(s, p) && p < |pat| && pat[p] == '%' && At(pat, p + 1) == 'b'
      modifies this`steps, this`used, this`work
      ensures n != Done(Raised) ==> (n.Goto? ==> n.p > p)
      ensures n != Done(Raised) ==> Rounds(n, All(sub, pat, s, p, old(Caps())), old(Caps()))
      ensures Clean(pat, p, old(Caps())) && n.Goto? ==> n.p <= |pat| && Clean(pat, n.p, old(Caps()))
      ensures n == Done(Raised) && Safe(p, old(Caps()), old(depth)) ==> work > limit
    {
      ghost var caps := Caps();
      if p + 3 >= |pat| {
        return Done(Raised);
      }
      var ok, r := MatchBalance(s, p + 2);
      if !ok {
        return Done(Raised);
      }
      if r.None? {
        return Done(Failed);
      }
      CapsByLater(caps, s, r.value);
      return Goto(r.value, p + 4);
    }

    method AtFrontier(s: nat, p: nat, ep: nat) returns (b: bool)
      requires p < ep
      ensures b == Frontier(sub, pat, s, p, ep)
    {
      var previous := if s == 0 then '\0' else At(sub, s - 1);
      var before := MatchBracketClass(previous, p, ep - 1);
      var here := MatchBracketClass(At(sub, s), p, ep - 1);
      b := !before && here;
    }

    /** %f[set] in match. */
    method RoundFrontier(s: nat, p: nat) returns (n: Next)
      requires Ready(s, p) && p < |pat| && pat[p] == '%' && At(pat, p + 1) == 'f'
      modifies this`steps, this`used, this`work
      ensures n != Done(Raised) ==> (n.Goto? ==> n.p > p)
      ensures n != Done(Raised) ==> Rounds(n, All(sub, pat, s, p, old(Caps())), old(Caps()))
      ensures Clean(pat, p, old(Caps())) && n.Goto? ==> n.p <= |pat| && Clean(pat, n.p, old(Caps()))
      ensures n == Done(Raised) && Safe(p, old(Caps()), old(depth)) ==> work > limit
    {
      ghost var caps := Caps();
      if At(pat, p + 2) != '[' {
        MalformedIsNotClean(pat, p, caps);
        return Done(Raised);
      }
      var end := FindClassEnd(p + 2);
      if end.None? {
        assert ClassEnd(pat, p + 2).None? || work > limit;
        if work <= limit {
          MalformedIsNotClean(pat, p, caps);
        }
        return Done(Raised);
      }
      CleanPast(pat, p, caps);
      FrontierWays(sub, pat, s, p, end.value, caps);
      var here := AtFrontier(s, p + 2, end.value);
      return if here then Goto(s, end.value) else Done(Failed);
    }

    /** %0-%9 in match. */
    method RoundBack(s: nat, p: nat) returns (n: Next)
      requires Ready(s, p) && p < |pat| && pat[p] == '%' && IsDigit(At(pat, p + 1))
      modifies this`steps, this`used, this`work
      ensures n != Done(Raised) ==> (n.Goto? ==> n.p > p)
      ensures n != Done(Raised) ==> Rounds(n, All(sub, pat, s, p, old(Caps())), old(Caps()))
      ensures Clean(pat, p, old(Caps())) && n.Goto? ==> n.p <= |pat| && Clean(pat, n.p, old(Caps()))
      ensures n == Done(Raised) && Safe(p, old(Caps()), old(depth)) ==> work > limit
    {
      ghost var caps := Caps();
      var ok, r := MatchCapture(s, pat[p + 1]);
      if !ok {
        return Done(Raised);
      }
      if r.None? {
        return Done(Failed);
      }
      CapsByLater(caps, s, r.value);
      return Goto(r.value, p + 2);
    }

    /** '(' in match. */
    method RoundOpen(s: nat, p: nat) returns (n: Next)
      requires Ready(s, p) && p < |pat| && pat[p] == '('
      modifies this, capture
      ensures n.Done? && (n.r.Raised? || depth == old(depth))
      ensures !n.r.Raised? ==> Rounds(n, All(sub, pat, s, p, old(Caps())), old(Caps()))
      ensures n.r.Raised? && Safe(p, old(Caps()), old(depth)) ==> work > limit
      decreases |pat| - p, 2
    {
      if Clean(pat, p, Caps()) {
        CleanOpen(pat, p, Caps(), s);
      }
      var r: Outcome;
      if At(pat, p + 1) == ')' {
        r := StartCapture(s, p + 2, CAP_POSITION, p);
      } else {
        r := StartCapture(s, p + 1, CAP_UNFINISHED, p);
      }
      n := Done(r);
    }

    /** ')' in match. */
    method RoundClose(s: nat, p: nat) returns (n: Next)
      requires Ready(s, p) && p < |pat| && pat[p] == ')'
      modifies this, capture
      ensures n.Done? && (n.r.Raised? || depth == old(depth))
      ensures !n.r.Raised? ==> Rounds(n, All(sub, pat, s, p, old(Caps())), old(Caps()))
      ensures n.r.Raised? && Safe(p, old(Caps()), old(depth)) ==> work > limit
      decreases |pat| - p, 2
    {
      if Clean(pat, p, Caps()) {
        CleanClose(pat, p, Caps(), s);
      }
      var r := EndCapture(s, p + 1, p);
      n := Done(r);
    }

    /** One round of match from its label init. */
    method MatchRound(s: nat, p: nat) returns (n: Next)
      requires Ready(s, p)
      modifies this, capture
      ensures n != Done(Raised) ==> depth == old(depth) && (n.Goto? ==> n.p > p)
      ensures n != Done(Raised) ==> Rounds(n, All(sub, pat, s, p, old(Caps())), old(Caps()))
      ensures Clean(pat, p, old(Caps())) && n.Goto? ==> n.p <= |pat| && Clean(pat, n.p, old(Caps()))
      ensures n == Done(Raised) && Safe(p, old(Caps()), old(depth)) ==> work > limit
      decreases |pat| - p, 3
    {
      var ok := Count(1);
      if !ok {
        return Done(Raised);
      }
      if p == |pat| {
        return Done(Found(s));
      }
      var c := pat[p];
      if c == '(' {
        n := RoundOpen(s, p);
      } else if c == ')' {
        n := RoundClose(s, p);
      } else if c == '$' && p + 1 == |pat| {
        return Done(if s == |sub| then Found(s) else Failed);
      } else if c == '%' && At(pat, p + 1) == 'b' {
        n := RoundBalance(s, p);
      } else if c == '%' && At(pat, p + 1) == 'f' {
        n := RoundFrontier(s, p);
      } else if c == '%' && IsDigit(At(pat, p + 1)) {
        n := RoundBack(s, p);
      } else {
        n := MatchDefault(s, p);
      }
    }

    /**
     match: unless it raises, the first of all the ways to match, in order of preference,
     or none when there is none; the depth as it was, and the captures too on failure.
     */
    method Match(s: nat, p: nat) returns (r: Outcome)
      requires Ready(s, p)
      modifies this, capture
      ensures !r.Raised? ==> depth == old(depth)
      ensures !r.Raised? ==>
        Answers(r, All(sub, pat, s, p, old(Caps())), old(Caps()))
      ensures r.Raised? && Safe(p, old(Caps()), old(depth) - 1) ==> work > limit
      decreases |pat| - p, 4
    {
      ghost var caps := Caps();
      ghost var hits := All(sub, pat, s, p, caps);
      if depth == 0 {
        return Raised;
      }
      depth := depth - 1;
      var n := Goto(s, p);
      while n.Goto?
        invariant n != Done(Raised) ==> depth == old(depth) - 1 && Rounds(n, hits, caps)
        invariant n.Goto? ==> n.p >= p
        invariant n.Goto? && Clean(pat, p, caps) ==> n.p <= |pat| && Clean(pat, n.p, caps)
        invariant n == Done(Raised) && Safe(p, caps, old(depth) - 1) ==> work > limit
        decreases n.Goto?, if n.Goto? then |pat| - n.p else 0
      {
        n := MatchRound(n.s, n.p);
      }
      r := n.r;
      if !r.Raised? {
        depth := depth + 1;
      }
    }
  }
}
