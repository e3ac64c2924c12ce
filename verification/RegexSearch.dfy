/** The search for the leftmost match. */
module RegexSearch {
  import opened RegexSyntax
  import opened RegexCaptures
  import opened RegexCode
  import opened RegexMachine
  import opened RegexCost

  // ---- searching -------------------------------------------------------------

  function Budget(len: nat): (b: int) { 200000 + len * 400 }

  /** The slots at the beginning of an attempt at `start`. */
  function Blank(start: nat): (cap: Slots)
    ensures |cap| == CAP_SLOTS
  {
    seq(CAP_SLOTS, _ => -1)[0 := start]
  }

  function Attempt(p: seq<Inst>, x: Subject, start: nat): (r: Run)
    requires start <= |x.s|
  {
    RunFrom(p, x, 0, start, Budget(|x.s|), 0, Blank(start))
  }

  datatype Found = NoMatch | Match(start: nat, spans: seq<(int, int)>)

  /** What the caller is told about group `i`. */
  function Span(cap: Slots, nsub: nat, i: nat): (s: (int, int))
    requires |cap| == CAP_SLOTS && nsub <= MAX_SUB
  {
    if i <= nsub && cap[2 * i] >= 0
    then (cap[2 * i], if cap[2 * i + 1] >= 0 then cap[2 * i + 1] else cap[1])
    else (-1, -1)
  }

  /** Fill in what the caller is told about the first `nmatch` groups. */
  method Report(cap: array<int>, nsub: nat, nmatch: nat) returns (spans: seq<(int, int)>)
    requires cap.Length == CAP_SLOTS && nsub <= MAX_SUB
    ensures |spans| == nmatch && forall i | 0 <= i < nmatch :: spans[i] == Span(cap[..], nsub, i)
  {
    spans := [];
    for i := 0 to nmatch
      invariant |spans| == i && forall k | 0 <= k < i :: spans[k] == Span(cap[..], nsub, k)
    {
      if i <= nsub && cap[2 * i] >= 0 {
        spans := spans + [(cap[2 * i], if cap[2 * i + 1] >= 0 then cap[2 * i + 1] else cap[1])];
      } else {
        spans := spans + [(-1, -1)];
      }
    }
  }

  // ---- what a search means -----------------------------------------------------

  /** Some word takes `n` from `start` to `end`, and it is the first, in the
      engine's order, of all words that match at all. */
  ghost predicate Preferred(n: Node, x: Subject, start: nat, end: nat, cap: Slots)
    requires start <= |x.s|
  {
    exists w: Word ::
      && Eval(PlanOf(n), x, start, Blank(start), w) == Done(end, cap, [])
      && forall v: Word | Concludes(n, x, start, v) :: Earlier(w, v)
  }

  ghost predicate Concludes(n: Node, x: Subject, start: nat, v: Word)
    requires start <= |x.s|
  {
    var r := Eval(PlanOf(n), x, start, Blank(start), v); r.Done? && r.rest == []
  }

  /** A successful attempt is the preferred match of the AST at that start. */
  lemma AttemptSound(n: Node, p: seq<Inst>, x: Subject, start: nat)
    requires start <= |x.s| && Compiled(p, n)
    requires Attempt(p, x, start).ok
    ensures var a := Attempt(p, x, start);
            Matches(n, x, start, a.end) && Preferred(n, x, start, a.end, a.cap)
  {
    var a := Attempt(p, x, start);
    var cap := Blank(start);
    var w := SuccessIsFirst(p, x, 0, start, Budget(|x.s|), 0, cap);
    var k: nat :| Accepts(k, p, x, 0, start, cap, w) == Yes(a.end, a.cap);
    CompiledSound(n, p, x, k, start, cap, w, a.end, a.cap);
    EvalMatches(n, x, start, cap, w);
    forall v: Word | Concludes(n, x, start, v)
      ensures Earlier(w, v)
    {
      var h := CompiledComplete(n, p, x, start, cap, v);
    }
  }

  /** A failed attempt that did not run out of steps rules every match out. */
  lemma AttemptComplete(n: Node, p: seq<Inst>, x: Subject, start: nat, j: nat)
    requires start <= |x.s| && Compiled(p, n)
    requires var a := Attempt(p, x, start); !a.ok && a.left >= 0
    ensures !Matches(n, x, start, j)
  {
    var cap := Blank(start);
    FailureIsFinal(p, x, 0, start, Budget(|x.s|), 0, cap);
    if Matches(n, x, start, j) {
      var w := MatchesEval(n, x, start, j, cap);
      var k := CompiledComplete(n, p, x, start, cap, w);
    }
  }

  /** After a successful attempt every group is unset or holds a span, inside
      the match, that the body of the group matches. */
  lemma AttemptCaptures(n: Node, p: seq<Inst>, x: Subject, start: nat, g: nat)
    requires start <= |x.s| && Compiled(p, n) && DistinctGroups(n)
    requires 1 <= g <= MAX_SUB && Attempt(p, x, start).ok
    ensures var a := Attempt(p, x, start);
            || (a.cap[2 * g] == -1 && a.cap[2 * g + 1] == -1)
            || (g in Groups(n) && Captured(Body(n, g), x, g, start, a.end, a.cap))
  {
    AttemptSound(n, p, x, start);
    var a := Attempt(p, x, start);
    var w :| Eval(PlanOf(n), x, start, Blank(start), w) == Done(a.end, a.cap, []);
    EvalDisciplined(n, x, start, Blank(start), w, g);
  }

  // ---- what the budget allows -----------------------------------------------------

  /** The attempt at `start` ends within its budget. Neither the program nor a
      run of it is needed to tell. */
  predicate Affordable(n: Node, x: Subject, start: nat)
    requires start <= |x.s|
  {
    Fits(PriceOf(n, x, start), Budget(|x.s|))
  }

  ghost predicate MatchesAt(n: Node, x: Subject, start: nat) {
    start <= |x.s| && exists j: nat :: Matches(n, x, start, j)
  }

  /** The starts a search can find. */
  ghost predicate Reachable(n: Node, x: Subject, start: nat) { MatchesAt(n, x, start) && Affordable(n, x, start) }

  /** An attempt succeeds exactly if there is a match at its start and its price
      is within the budget, and it runs out exactly if the price is not. */
  lemma AttemptExact(n: Node, p: seq<Inst>, x: Subject, start: nat)
    requires start <= |x.s| && Compiled(p, n)
    ensures Attempt(p, x, start).ok <==> Reachable(n, x, start)
    ensures Attempt(p, x, start).left < 0 <==> !Affordable(n, x, start)
    ensures Affordable(n, x, start) <==>
              PriceOf(n, x, start).Toll? && PriceOf(n, x, start).steps <= 200000 + 400 * |x.s|
  {
    var a := Attempt(p, x, start);
    RunPriced(n, p, x, start, Budget(|x.s|), 0, Blank(start));
    if a.ok { AttemptSound(n, p, x, start); }
    if !a.ok && a.left >= 0 {
      forall j: nat ensures !Matches(n, x, start, j) { AttemptComplete(n, p, x, start, j); }
    }
  }

  /** A pattern all of whose unbounded repetitions move in every round, and
      whose bound for a subject of this length is within the budget, is found
      wherever it matches. */
  lemma ProductiveIsAffordable(n: Node, x: Subject, start: nat)
    requires start <= |x.s| && Productive(PlanOf(n))
    requires Bound(PlanOf(n), |x.s|, 1) <= Budget(|x.s|)
    ensures Affordable(n, x, start)
  {
    hide Bound, Price;
    assert Afforded(PlanOf(n), x, start, Arrived(), 1);
    PriceBounded(PlanOf(n), x, start, Arrived(), 1);
    BoundGrows(PlanOf(n), |x.s| - start, |x.s|, 1, 1);
  }

  /** For instance: a test that consumes a byte, repeated, is found on subjects
      of every length. */
  lemma RepeatedTestIsAffordable(t: Test, x: Subject, start: nat)
    requires start <= |x.s| && Width(t) == 1
    ensures Affordable(Rep(Atom(t), 0, -1), x, start)
  {
    hide Price;
    var n := Rep(Atom(t), 0, -1);
    RepeatedTestBound(t, |x.s|);
    var c := Star(Check(t));
    assert PlanOf(n) == Then(Skip, c);
    assert Productive(Skip) && Productive(c);
    assert Productive(PlanOf(n));
    assert Bound(PlanOf(n), |x.s|, 1) == Bound(Star(Check(t)), |x.s|, 1);
    ProductiveIsAffordable(n, x, start);
  }

  lemma {:induction false} RepeatedTestBound(t: Test, r: nat)
    ensures Bound(Star(Check(t)), r, 1) == 4 * r + 3
  {
    if r > 0 { RepeatedTestBound(t, r - 1); }
    assert Bound(Check(t), r, NextRound(Check(t), r, 1)) == 1 + NextRound(Check(t), r, 1);
  }

  /** A pattern every way through which enters a repetition of something that
      can match the empty string is found nowhere. */
  lemma DoomedIsUnreachable(n: Node, p: seq<Inst>, x: Subject, start: nat)
    requires start <= |x.s| && Compiled(p, n) && Doomed(PlanOf(n))
    ensures !Reachable(n, x, start)
    ensures forall steps: int :: !RunFrom(p, x, 0, start, steps, 0, Blank(start)).ok
  {
    DoomedNeverHits(PlanOf(n), x, start, Arrived());
    forall steps: int ensures !RunFrom(p, x, 0, start, steps, 0, Blank(start)).ok {
      RunPriced(n, p, x, start, steps, 0, Blank(start));
    }
    AttemptExact(n, p, x, start);
  }

  /** An unbounded repetition of something that matches the empty string
      everywhere in the subject matches everywhere and is found nowhere. */
  lemma EmptyRepetitionNeverFound(a: Node, min: nat, p: seq<Inst>, x: Subject, start: nat)
    requires start <= |x.s| && Compiled(p, Rep(a, min, -1)) && forall j: nat | j <= |x.s| :: Matches(a, x, j, j)
    ensures var n := Rep(a, min, -1); MatchesAt(n, x, start) && !Reachable(n, x, start)
  {
    hide Price;
    var n, c := Rep(a, min, -1), PlanOf(a);
    ManyEmptyRounds(a, x, min, start);
    assert Matches(n, x, start, start);
    forall j: nat | j <= |x.s| ensures StaysAt(c, x, j) { StaysIsMatch(a, x, j); }
    forall j: nat | start <= j <= |x.s| ensures !Hits(Onward(Star(c), x, Arrived())(j)) {
      EmptyRoundsNeverEnd(c, x, j, Arrived());
    }
    NoHitAhead(Times(c, min), x, start, Onward(Star(c), x, Arrived()));
    RepetitionPrice(a, min, x, start);
    RunPriced(n, p, x, start, Budget(|x.s|), 0, Blank(start));
    AttemptExact(n, p, x, start);
  }

  lemma RepetitionPrice(a: Node, min: nat, x: Subject, start: nat)
    requires start <= |x.s|
    ensures PriceOf(Rep(a, min, -1), x, start) ==
            Price(Times(PlanOf(a), min), x, start, Onward(Star(PlanOf(a)), x, Arrived()))
  {
  }

  // ---- the search ------------------------------------------------------------------

  /** What the caller is told about group `i` of the match [start, end). */
  ghost predicate Told(n: Node, x: Subject, i: nat, start: nat, end: nat, cap: Slots, s: (int, int))
    requires |cap| == CAP_SLOTS
  {
    if i == 0 then s == (start, end)
    else if i in Groups(n) && i <= MAX_SUB && cap[2 * i] >= 0
    then s == (cap[2 * i], cap[2 * i + 1]) && Captured(Body(n, i), x, i, start, end, cap)
    else s == (-1, -1)
  }

  ghost predicate AllTold(n: Node, x: Subject, start: nat, end: nat, cap: Slots, spans: seq<(int, int)>)
    requires |cap| == CAP_SLOTS
  {
    forall i | 0 <= i < |spans| :: Told(n, x, i, start, end, cap, spans[i])
  }

  /** The spans describe the match that comes first in the engine's order of
      preference. */
  ghost predicate Reported(n: Node, x: Subject, start: nat, spans: seq<(int, int)>) {
    start <= |x.s| &&
    exists end: nat, cap: Slots | |cap| == CAP_SLOTS && Preferred(n, x, start, end, cap) ::
      Matches(n, x, start, end) && AllTold(n, x, start, end, cap, spans)
  }

  lemma SpanTold(n: Node, p: seq<Inst>, x: Subject, nsub: nat, start: nat, i: nat)
    requires start <= |x.s| && Runnable(p, n, nsub) && Attempt(p, x, start).ok
    ensures var a := Attempt(p, x, start);
            |a.cap| == CAP_SLOTS && Told(n, x, i, start, a.end, a.cap, Span(a.cap[1 := a.end], nsub, i))
  {
    hide RunFrom, Matches;
    var a := Attempt(p, x, start);
    AttemptSound(n, p, x, start);
    var w :| Eval(PlanOf(n), x, start, Blank(start), w) == Done(a.end, a.cap, []);
    if i == 0 {
      EvalDisciplined(n, x, start, Blank(start), w, 0);
    } else if i <= nsub {
      AttemptCaptures(n, p, x, start, i);
    }
  }

  /** Try every start in turn and stop at the first that succeeds. That is the
      leftmost of the reachable starts, and the report is about its preferred
      match; there is no report exactly if no start is reachable. */
  method Regexec(p: seq<Inst>, x: Subject, nsub: nat, nmatch: nat, ghost n: Node) returns (r: Found)
    requires Runnable(p, n, nsub)
    ensures r.NoMatch? ==> forall h: nat | h <= |x.s| :: !Reachable(n, x, h)
    ensures r.Match? ==>
              && Reachable(n, x, r.start) && (forall h: nat | h < r.start :: !Reachable(n, x, h))
              && |r.spans| == nmatch && Reported(n, x, r.start, r.spans)
  {
    hide Reachable, Told;
    var m := new Machine(p, x);
    var start := 0;
    while start <= |x.s|
      invariant start <= |x.s| + 1 && m.end == 0 && m.p == p && m.x == x && fresh(m) && fresh(m.cap)
      invariant m.cap.Length == CAP_SLOTS
      invariant forall h: nat | h < start :: !Reachable(n, x, h)
    {
      m.steps := Budget(|x.s|);
      forall i | 0 <= i < CAP_SLOTS { m.cap[i] := -1; }
      m.cap[0] := start;
      assert m.cap[..] == Blank(start);
      FailureRestores(p, x, 0, start, m.steps, 0, m.cap[..]);
      AttemptExact(n, p, x, start);
      var ok := m.Go(0, start);
      if ok {
        ghost var a := Attempt(p, x, start);
        assert a.cap == m.cap[..];
        m.cap[1] := m.end;
        assert m.cap[..] == a.cap[1 := a.end];
        var spans := Report(m.cap, nsub, nmatch);
        AttemptSound(n, p, x, start);
        forall i | 0 <= i < nmatch ensures Told(n, x, i, start, a.end, a.cap, spans[i]) {
          SpanTold(n, p, x, nsub, start, i);
        }
        assert AllTold(n, x, start, a.end, a.cap, spans);
        return Match(start, spans);
      }
      start := start + 1;
    }
    return NoMatch;
  }

  // ---- a pattern that always runs out --------------------------------------------

  /** The AST of the extended pattern (a*)*. */
  const LOOPING: Node := Rep(Group(Rep(Atom(Char(97)), 0, -1), 1), 0, -1)

  const LOOPING_CODE: seq<Inst> :=
    [ISplit(1, 7), ISave(2), ISplit(3, 5), ITest(Char(97)), IJmp(2), ISave(3), IJmp(0), IMatch]

  /** Completeness needs the budget: the pattern matches the empty string at
      every place of every subject, yet is found nowhere. */
  lemma LoopingMissesItsMatch(x: Subject, start: nat)
    requires start <= |x.s|
    ensures Compiled(LOOPING_CODE, LOOPING) && Matches(LOOPING, x, start, start) && !Attempt(LOOPING_CODE, x, start).ok
  {
    hide RunFrom;
    LoopingCompiled();
    DoomedIsUnreachable(LOOPING, LOOPING_CODE, x, start);
    assert Iterates(LOOPING.a, x, 0, start, start);
  }

  const LOOPING_PLAN: Plan := Then(Skip, Star(Bracket(Then(Skip, Star(Check(Char(97)))), 1)))

  lemma LoopingCompiled()
    ensures Compiled(LOOPING_CODE, LOOPING)
  {
    hide Placed;
    LoopingPlaced();
    assert PlanOf(LOOPING.a.a) == Then(Skip, Star(Check(Char(97))));
    assert PlanOf(LOOPING) == LOOPING_PLAN;
  }

  lemma LoopingPlaced()
    ensures Size(LOOPING_PLAN) == 7 && Placed(LOOPING_CODE, LOOPING_PLAN, 0)
  {
    var inner := Then(Skip, Star(Check(Char(97))));
    assert Size(inner) == 3;
    assert Placed(LOOPING_CODE, Star(Check(Char(97))), 2);
    assert Placed(LOOPING_CODE, Bracket(inner, 1), 1);
  }
}
