/** The regular-expression AST of libc-fantuan and what it means.

    Two meanings are given. `Matches` is the plain denotation: which spans of
    the subject a node matches. `Eval` follows the engine's own order of
    preference: every place where the engine can go two ways consumes one
    letter of a choice word, `true` being the branch tried first, so for a
    given word there is at most one outcome, capture slots included. It works
    on `Plan`, which spells a counted repetition out into its rounds.
    `EvalMatches` and `MatchesEval` show that the two meanings agree. */
module RegexSyntax {
  import opened Bytes

  const MAX_SUB := 8
  const CAP_SLOTS := 2 * (MAX_SUB + 1)
  const NEWLINE: Byte := 10

  /** The five node types that look at one place of the subject. */
  datatype Test = Char(ch: int) | Any | Class(cls: nat) | Bol | Eol

  /** `Null` is the null pointer the parser leaves for an empty branch. */
  datatype Node =
    | Null
    | Empty
    | Atom(t: Test)
    | Cat(a: Node, b: Node)
    | Alt(a: Node, b: Node)
    | Rep(a: Node, min: nat, max: int)
    | Group(a: Node, cap: nat)

  /** Subject string and the flags that stay fixed during one search. */
  datatype Subject = Subject(s: seq<Byte>, icase: bool, newline: bool, notbol: bool, noteol: bool,
                             classes: seq<set<Byte>>)

  predicate NoNull(n: Node) {
    match n
    case Null => false
    case Cat(a, b) => NoNull(a) && NoNull(b)
    case Alt(a, b) => NoNull(a) && NoNull(b)
    case Rep(a, _, _) => NoNull(a)
    case Group(a, _) => NoNull(a)
    case _ => true
  }

  function ToLower(c: int): (r: int) {
    if 65 <= c <= 90 then c + 32 else c
  }

  predicate SameChar(x: Subject, ch: int, c: Byte) {
    if x.icase then ToLower(ch % 256) == ToLower(c) else ch % 256 == c
  }

  /** The test succeeds at position `i`. */
  predicate Passes(x: Subject, t: Test, i: nat)
    requires i <= |x.s|
  {
    match t
    case Char(ch) => i < |x.s| && SameChar(x, ch, x.s[i])
    case Any => i < |x.s| && !(x.newline && x.s[i] == NEWLINE)
    case Class(cls) => i < |x.s| && cls < |x.classes| && x.s[i] in x.classes[cls]
    case Bol => if i == 0 then !x.notbol else x.newline && x.s[i - 1] == NEWLINE
    case Eol => if i == |x.s| then !x.noteol else x.newline && x.s[i] == NEWLINE
  }

  /** How many bytes a successful test consumes. */
  function Width(t: Test): (w: nat) { if t.Bol? || t.Eol? then 0 else 1 }

  // ---- plain denotation --------------------------------------------------

  /** The largest repetition count; an upper bound below `min` adds nothing. */
  function Upper(min: nat, max: int): (u: nat) { if max < min then min else max }

  /** Node `n` matches the span [i, j) of the subject. */
  ghost predicate Matches(n: Node, x: Subject, i: nat, j: nat)
    requires i <= |x.s|
    decreases n, 0, 0
  {
    i <= j <= |x.s| &&
    match n
    case Null => false
    case Empty => i == j
    case Atom(t) => j == i + Width(t) && Passes(x, t, i)
    case Cat(a, b) => exists m: nat | m <= |x.s| :: Matches(a, x, i, m) && Matches(b, x, m, j)
    case Alt(a, b) => Matches(a, x, i, j) || Matches(b, x, i, j)
    case Rep(a, min, max) =>
      exists k: nat :: min <= k && (max < 0 || k <= Upper(min, max)) && Iterates(a, x, k, i, j)
    case Group(a, _) => Matches(a, x, i, j)
  }

  /** `k` consecutive matches of `a` cover [i, j). */
  ghost predicate Iterates(a: Node, x: Subject, k: nat, i: nat, j: nat)
    requires i <= |x.s|
    decreases a, 1, k
  {
    if k == 0 then i == j
    else exists m: nat | m <= |x.s| :: Iterates(a, x, k - 1, i, m) && Matches(a, x, m, j)
  }

  // ---- meaning with captures and preference ------------------------------

  type Word = seq<bool>
  type Slots = seq<int>

  /** What the engine carries out, with repetition counts spelled out. */
  datatype Plan =
    | Skip
    | Stuck
    | Check(t: Test)
    | Then(a: Plan, b: Plan)
    | Either(a: Plan, b: Plan)
    | Maybe(a: Plan)
    | Star(a: Plan)
    | Bracket(a: Plan, g: nat)

  function PlanOf(n: Node): (p: Plan) {
    match n
    case Null => Stuck
    case Empty => Skip
    case Atom(t) => Check(t)
    case Cat(a, b) => Then(PlanOf(a), PlanOf(b))
    case Alt(a, b) => Either(PlanOf(a), PlanOf(b))
    case Rep(a, min, max) =>
      Then(Times(PlanOf(a), min), if max < 0 then Star(PlanOf(a)) else Maybes(PlanOf(a), Upper(min, max) - min))
    case Group(a, g) => Bracket(PlanOf(a), g)
  }

  function Times(p: Plan, k: nat): (r: Plan) {
    if k == 0 then Skip else Then(Times(p, k - 1), p)
  }

  function Maybes(p: Plan, k: nat): (r: Plan) {
    if k == 0 then Skip else Then(Maybes(p, k - 1), Maybe(p))
  }

  datatype Outcome = Fail | Done(pos: nat, cap: Slots, rest: Word)

  function Save(cap: Slots, slot: nat, v: int): (r: Slots)
    ensures |r| == |cap|
  {
    if slot < |cap| then cap[slot := v] else cap
  }

  function Eval(p: Plan, x: Subject, i: nat, cap: Slots, w: Word): (r: Outcome)
    requires i <= |x.s|
    ensures r.Done? ==> i <= r.pos <= |x.s| && |r.rest| <= |w| && |r.cap| == |cap|
    decreases p, |w|
  {
    match p
    case Skip => Done(i, cap, w)
    case Stuck => Fail
    case Check(t) => if Passes(x, t, i) then Done(i + Width(t), cap, w) else Fail
    case Then(a, b) =>
      (match Eval(a, x, i, cap, w)
       case Fail => Fail
       case Done(m, c, v) => Eval(b, x, m, c, v))
    case Either(a, b) =>
      if w == [] then Fail else if w[0] then Eval(a, x, i, cap, w[1..]) else Eval(b, x, i, cap, w[1..])
    case Maybe(a) => if w == [] then Fail else if w[0] then Eval(a, x, i, cap, w[1..]) else Done(i, cap, w[1..])
    case Star(a) =>
      if w == [] then Fail
      else if !w[0] then Done(i, cap, w[1..])
      else (match Eval(a, x, i, cap, w[1..])
            case Fail => Fail
            case Done(m, c, v) => Eval(Star(a), x, m, c, v))
    case Bracket(a, g) =>
      (match Eval(a, x, i, Save(cap, 2 * g, i), w)
       case Fail => Fail
       case Done(j, c, v) => Done(j, Save(c, 2 * g + 1, j), v))
  }

  // ---- every outcome is a match --------------------------------------------

  /** `k` rounds followed by `l` rounds are `k + l` rounds. */
  lemma {:induction false} IteratesConcat(a: Node, x: Subject, k: nat, l: nat, i: nat, m: nat, j: nat)
    requires i <= |x.s| && m <= |x.s|
    requires Iterates(a, x, k, i, m) && Iterates(a, x, l, m, j)
    ensures Iterates(a, x, k + l, i, j)
    decreases l
  {
    if l > 0 {
      var h: nat :| h <= |x.s| && Iterates(a, x, l - 1, m, h) && Matches(a, x, h, j);
      IteratesConcat(a, x, k, l - 1, i, m, h);
      assert Iterates(a, x, k + l - 1, i, h);
    }
  }

  /** Whatever the choices, the engine only reports spans the node matches. */
  lemma {:induction false} EvalMatches(n: Node, x: Subject, i: nat, cap: Slots, w: Word)
    requires i <= |x.s|
    requires Eval(PlanOf(n), x, i, cap, w).Done?
    ensures Matches(n, x, i, Eval(PlanOf(n), x, i, cap, w).pos)
    decreases n, 0, 0
  {
    match n
    case Cat(a, b) =>
      EvalMatches(a, x, i, cap, w);
      var r := Eval(PlanOf(a), x, i, cap, w);
      EvalMatches(b, x, r.pos, r.cap, r.rest);
    case Alt(a, b) => EvalMatches(if w[0] then a else b, x, i, cap, w[1..]);
    case Rep(a, min, max) =>
      TimesIterates(a, x, min, i, cap, w);
      var r := Eval(Times(PlanOf(a), min), x, i, cap, w);
      var k := if max < 0 then StarRounds(a, x, r.pos, r.cap, r.rest)
               else MaybeRounds(a, x, Upper(min, max) - min, r.pos, r.cap, r.rest);
      IteratesConcat(a, x, min, k, i, r.pos, Eval(PlanOf(n), x, i, cap, w).pos);
    case Group(a, g) => EvalMatches(a, x, i, Save(cap, 2 * g, i), w);
    case _ =>
  }

  lemma {:induction false} TimesIterates(a: Node, x: Subject, k: nat, i: nat, cap: Slots, w: Word)
    requires i <= |x.s|
    requires Eval(Times(PlanOf(a), k), x, i, cap, w).Done?
    ensures Iterates(a, x, k, i, Eval(Times(PlanOf(a), k), x, i, cap, w).pos)
    decreases a, 1, k
  {
    if k > 0 {
      TimesIterates(a, x, k - 1, i, cap, w);
      var r := Eval(Times(PlanOf(a), k - 1), x, i, cap, w);
      EvalMatches(a, x, r.pos, r.cap, r.rest);
    }
  }

  /** How many of `k` optional rounds were taken. */
  ghost function MaybeRounds(a: Node, x: Subject, k: nat, i: nat, cap: Slots, w: Word): (l: nat)
    requires i <= |x.s|
    requires Eval(Maybes(PlanOf(a), k), x, i, cap, w).Done?
    ensures l <= k && Iterates(a, x, l, i, Eval(Maybes(PlanOf(a), k), x, i, cap, w).pos)
    decreases a, 1, k
  {
    if k == 0 then 0
    else
      var l := MaybeRounds(a, x, k - 1, i, cap, w);
      var r := Eval(Maybes(PlanOf(a), k - 1), x, i, cap, w);
      assert Eval(Maybe(PlanOf(a)), x, r.pos, r.cap, r.rest).Done?;
      if r.rest[0] then EvalMatches(a, x, r.pos, r.cap, r.rest[1..]); l + 1 else l
  }

  /** How many rounds an unbounded repetition made. */
  ghost function StarRounds(a: Node, x: Subject, i: nat, cap: Slots, w: Word): (l: nat)
    requires i <= |x.s|
    requires Eval(Star(PlanOf(a)), x, i, cap, w).Done?
    ensures Iterates(a, x, l, i, Eval(Star(PlanOf(a)), x, i, cap, w).pos)
    decreases a, 1, |w|
  {
    if !w[0] then 0
    else
      EvalMatches(a, x, i, cap, w[1..]);
      var r := Eval(PlanOf(a), x, i, cap, w[1..]);
      var l := StarRounds(a, x, r.pos, r.cap, r.rest);
      assert Iterates(a, x, 0, i, i);
      assert Iterates(a, x, 1, i, r.pos);
      IteratesConcat(a, x, 1, l, i, r.pos, Eval(Star(PlanOf(a)), x, i, cap, w).pos);
      1 + l
  }

  // ---- every match is an outcome -------------------------------------------

  /** Choices a plan does not look at do not affect it. */
  lemma {:induction false} EvalFrame(p: Plan, x: Subject, i: nat, cap: Slots, w: Word, v: Word)
    requires i <= |x.s|
    requires Eval(p, x, i, cap, w).Done?
    ensures var r := Eval(p, x, i, cap, w); Eval(p, x, i, cap, w + v) == Done(r.pos, r.cap, r.rest + v)
    decreases p, |w|
  {
    match p
    case Then(a, b) =>
      EvalFrame(a, x, i, cap, w, v);
      var r := Eval(a, x, i, cap, w);
      EvalFrame(b, x, r.pos, r.cap, r.rest, v);
    case Either(a, b) =>
      assert (w + v)[1..] == w[1..] + v;
      EvalFrame(if w[0] then a else b, x, i, cap, w[1..], v);
    case Maybe(a) =>
      assert (w + v)[1..] == w[1..] + v;
      if w[0] { EvalFrame(a, x, i, cap, w[1..], v); }
    case Star(a) =>
      assert (w + v)[1..] == w[1..] + v;
      if w[0] {
        EvalFrame(a, x, i, cap, w[1..], v);
        var r := Eval(a, x, i, cap, w[1..]);
        EvalFrame(p, x, r.pos, r.cap, r.rest, v);
      }
    case Bracket(a, g) => EvalFrame(a, x, i, Save(cap, 2 * g, i), w, v);
    case _ =>
  }

  /** With exactly the word `w` the plan goes from `i` to `j`. */
  ghost predicate Reaches(p: Plan, x: Subject, i: nat, cap: Slots, w: Word, j: nat)
    requires i <= |x.s|
  {
    var r := Eval(p, x, i, cap, w); r.Done? && r.pos == j && r.rest == []
  }

  lemma ThenReaches(a: Plan, b: Plan, x: Subject, i: nat, m: nat, j: nat, cap: Slots, u: Word, v: Word)
    requires i <= |x.s| && Reaches(a, x, i, cap, u, m)
    requires Reaches(b, x, m, Eval(a, x, i, cap, u).cap, v, j)
    ensures Reaches(Then(a, b), x, i, cap, u + v, j)
  {
    EvalFrame(a, x, i, cap, u, v);
    assert [] + v == v;
  }

  /** Every span a node matches is reached by some choices, whatever the
      capture slots hold. */
  lemma {:induction false} MatchesEval(n: Node, x: Subject, i: nat, j: nat, cap: Slots) returns (w: Word)
    requires i <= |x.s|
    requires Matches(n, x, i, j)
    ensures Reaches(PlanOf(n), x, i, cap, w, j)
    decreases n, 0, 0
  {
    match n
    case Cat(a, b) =>
      var m: nat :| m <= |x.s| && Matches(a, x, i, m) && Matches(b, x, m, j);
      var u := MatchesEval(a, x, i, m, cap);
      var v := MatchesEval(b, x, m, j, Eval(PlanOf(a), x, i, cap, u).cap);
      ThenReaches(PlanOf(a), PlanOf(b), x, i, m, j, cap, u, v);
      w := u + v;
    case Alt(a, b) =>
      var left := Matches(a, x, i, j);
      var u := MatchesEval(if left then a else b, x, i, j, cap);
      w := [left] + u;
      assert w[1..] == u;
    case Rep(a, min, max) =>
      var k: nat :| min <= k && (max < 0 || k <= Upper(min, max)) && Iterates(a, x, k, i, j);
      var m := IteratesSplit(a, x, min, k - min, i, j);
      var u := TimesReach(a, x, min, i, m, cap);
      var c := Eval(Times(PlanOf(a), min), x, i, cap, u).cap;
      var v;
      if max < 0 {
        v := StarReaches(a, x, k - min, m, j, c);
        ThenReaches(Times(PlanOf(a), min), Star(PlanOf(a)), x, i, m, j, cap, u, v);
      } else {
        v := MaybesReach(a, x, Upper(min, max) - min, k - min, m, j, c);
        ThenReaches(Times(PlanOf(a), min), Maybes(PlanOf(a), Upper(min, max) - min), x, i, m, j, cap, u, v);
      }
      w := u + v;
    case Group(a, g) =>
      w := MatchesEval(a, x, i, j, Save(cap, 2 * g, i));
    case _ =>
      w := [];
  }

  lemma {:induction false} IteratesSplit(a: Node, x: Subject, k: nat, l: nat, i: nat, j: nat) returns (m: nat)
    requires i <= |x.s|
    requires Iterates(a, x, k + l, i, j)
    ensures m <= |x.s| && Iterates(a, x, k, i, m) && Iterates(a, x, l, m, j)
    decreases l
  {
    if l == 0 {
      IteratesInside(a, x, k, i, j);
      m := j;
    } else {
      var h: nat :| h <= |x.s| && Iterates(a, x, k + l - 1, i, h) && Matches(a, x, h, j);
      m := IteratesSplit(a, x, k, l - 1, i, h);
    }
  }

  lemma {:induction false} IteratesInside(a: Node, x: Subject, k: nat, i: nat, j: nat)
    requires i <= |x.s|
    requires Iterates(a, x, k, i, j)
    ensures i <= j <= |x.s|
  {
    if k > 0 {
      var h: nat :| h <= |x.s| && Iterates(a, x, k - 1, i, h) && Matches(a, x, h, j);
      IteratesInside(a, x, k - 1, i, h);
    }
  }

  lemma {:induction false} TimesReach(a: Node, x: Subject, k: nat, i: nat, j: nat, cap: Slots) returns (w: Word)
    requires i <= |x.s|
    requires Iterates(a, x, k, i, j)
    ensures Reaches(Times(PlanOf(a), k), x, i, cap, w, j)
    decreases a, 1, k
  {
    w := [];
    if k > 0 {
      var m: nat :| m <= |x.s| && Iterates(a, x, k - 1, i, m) && Matches(a, x, m, j);
      var u := TimesReach(a, x, k - 1, i, m, cap);
      var v := MatchesEval(a, x, m, j, Eval(Times(PlanOf(a), k - 1), x, i, cap, u).cap);
      ThenReaches(Times(PlanOf(a), k - 1), PlanOf(a), x, i, m, j, cap, u, v);
      w := u + v;
    }
  }

  lemma {:induction false} MaybesReach(a: Node, x: Subject, k: nat, l: nat, i: nat, j: nat, cap: Slots)
    returns (w: Word)
    requires i <= |x.s| && l <= k
    requires Iterates(a, x, l, i, j)
    ensures Reaches(Maybes(PlanOf(a), k), x, i, cap, w, j)
    decreases a, 1, k
  {
    w := [];
    if k > 0 {
      var p := PlanOf(a);
      if l < k {
        var u := MaybesReach(a, x, k - 1, l, i, j, cap);
        ThenReaches(Maybes(p, k - 1), Maybe(p), x, i, j, j, cap, u, [false]);
        w := u + [false];
      } else {
        var m: nat :| m <= |x.s| && Iterates(a, x, l - 1, i, m) && Matches(a, x, m, j);
        var u := MaybesReach(a, x, k - 1, l - 1, i, m, cap);
        var z := MatchesEval(a, x, m, j, Eval(Maybes(p, k - 1), x, i, cap, u).cap);
        assert ([true] + z)[1..] == z;
        ThenReaches(Maybes(p, k - 1), Maybe(p), x, i, m, j, cap, u, [true] + z);
        w := u + ([true] + z);
      }
    }
  }

  lemma {:induction false} StarReaches(a: Node, x: Subject, k: nat, i: nat, j: nat, cap: Slots) returns (w: Word)
    requires i <= |x.s|
    requires Iterates(a, x, k, i, j)
    ensures Reaches(Star(PlanOf(a)), x, i, cap, w, j)
    decreases a, 1, k
  {
    w := [false];
    if k > 0 {
      var p := PlanOf(a);
      var m := IteratesSplit(a, x, 1, k - 1, i, j);
      assert Iterates(a, x, 1, i, m);
      var h: nat :| h <= |x.s| && Iterates(a, x, 0, i, h) && Matches(a, x, h, m);
      var u := MatchesEval(a, x, i, m, cap);
      var v := StarReaches(a, x, k - 1, m, j, Eval(p, x, i, cap, u).cap);
      EvalFrame(p, x, i, cap, u, v);
      assert [] + v == v;
      w := [true] + (u + v);
      assert w[1..] == u + v;
    }
  }
}
