/** One NVMe queue pair: a host that polls one command at a time, and a
    controller that fetches and completes commands in order. */
module NvmeProtocol {

  /** The dwords of a submission entry the driver fills in. */
  datatype Cmd = Cmd(cdw0: nat, nsid: nat, prp1: nat, cdw10: nat, cdw11: nat, cdw12: nat)

  /** A completion entry. `num` is which command, in order of issue, it is for;
      the host never looks at it. */
  datatype Cqe = Cqe(phase: nat, status: nat, num: nat)

  /** Both rings, the doorbells, the host's and the controller's positions, and
      the history: every command issued, every command completed, how many
      completions were consumed and how many commands were given up on. */
  datatype State = State(
    n: nat, sq: seq<Cmd>, cq: seq<Cqe>, tailDoorbell: nat, headDoorbell: nat,
    tail: nat, head: nat, phase: nat, waiting: bool,
    sqHead: nat, cqTail: nat, cqPhase: nat, inflight: seq<Cmd>,
    log: seq<Cmd>, done: seq<Cmd>, consumed: nat, lost: nat)

  function Next(i: nat, n: nat): (r: nat)
    requires 0 < n
  {
    (i + 1) % n
  }

  /** Both sides flip their phase when their index comes round to 0. */
  function Flip(phase: nat, index: nat): (r: nat) { if index == 0 then (if phase == 0 then 1 else 0) else phase }

  predicate Sized(s: State) {
    2 <= s.n && |s.sq| == s.n && |s.cq| == s.n && s.tail < s.n && s.head < s.n && s.sqHead < s.n && s.cqTail < s.n
  }

  function Initial(n: nat, sq: seq<Cmd>): (s: State)
    requires 2 <= n && |sq| == n
  {
    State(n, sq, seq(n, _ => Cqe(0, 0, 0)), 0, 0, 0, 0, 1, false, 0, 0, 1, [], [], [], 0, 0)
  }

  // ---- the host's steps ----------------------------------------------------------------

  function Issue(s: State, cmd: Cmd): (r: State)
    requires Sized(s)
  {
    var t := Next(s.tail, s.n);
    s.(sq := s.sq[s.tail := cmd], tail := t, tailDoorbell := t, waiting := true, log := s.log + [cmd])
  }

  /** The poll's test: the entry at the head carries the phase expected now. */
  predicate Seen(s: State)
    requires Sized(s)
  {
    s.cq[s.head].phase == s.phase
  }

  function Consume(s: State): (r: State)
    requires Sized(s)
  {
    var h := Next(s.head, s.n);
    s.(head := h, headDoorbell := h, phase := Flip(s.phase, h), waiting := false, consumed := s.consumed + 1)
  }

  /** The command times out; the driver forgets it. */
  function GiveUp(s: State): (r: State) { s.(waiting := false, lost := s.lost + 1) }

  // ---- the controller's steps ----------------------------------------------------------

  function Fetch(s: State): (r: State)
    requires Sized(s)
  {
    if s.sqHead == s.tailDoorbell then s
    else s.(inflight := s.inflight + [s.sq[s.sqHead]], sqHead := Next(s.sqHead, s.n))
  }

  predicate CanPost(s: State)
    requires Sized(s)
  {
    s.inflight != [] && Next(s.cqTail, s.n) != s.headDoorbell
  }

  function Post(s: State, status: nat): (r: State)
    requires Sized(s)
  {
    if !CanPost(s) then s
    else
      var t := Next(s.cqTail, s.n);
      s.(cq := s.cq[s.cqTail := Cqe(s.cqPhase, status, |s.done|)], cqTail := t, cqPhase := Flip(s.cqPhase, t),
         done := s.done + [s.inflight[0]], inflight := s.inflight[1..])
  }

  // ---- the invariant -------------------------------------------------------------------

  /** The ring entry the `j`-th use of a ring falls on. */
  function Slot(j: nat, n: nat): (r: nat)
    requires 0 < n
    ensures r < n
  {
    if j < n then j else Slot(j - n, n)
  }

  /** The phase tag of the `j`-th completion. */
  function PhaseOf(j: nat, n: nat): (r: nat)
    requires 0 < n
    ensures r == 0 || r == 1
  {
    if j < n then 1 else 1 - PhaseOf(j - n, n)
  }

  ghost predicate Counters(s: State) {
    && Sized(s)
    && s.tail == s.tailDoorbell == Slot(|s.log|, s.n)
    && s.sqHead == Slot(|s.done| + |s.inflight|, s.n)
    && s.cqTail == Slot(|s.done|, s.n) && s.cqPhase == PhaseOf(|s.done|, s.n)
    && s.head == s.headDoorbell == Slot(s.consumed, s.n) && s.phase == PhaseOf(s.consumed, s.n)
    && s.consumed <= |s.done| && |s.done| + |s.inflight| <= |s.log|
    && |s.log| == s.consumed + s.lost + (if s.waiting then 1 else 0)
  }

  /** The controller completes exactly what was issued, in order. */
  ghost predicate InOrder(s: State) {
    && |s.done| + |s.inflight| <= |s.log| && s.done + s.inflight == s.log[..|s.done| + |s.inflight|]
    && Sized(s) && forall j: nat | |s.done| + |s.inflight| <= j < |s.log| :: s.sq[Slot(j, s.n)] == s.log[j]
  }

  /** Entry `j` of the completion ring: posted for command `j`, or stale. */
  ghost predicate Tagged(s: State, j: nat)
    requires Sized(s)
  {
    var e := s.cq[Slot(j, s.n)];
    if j < |s.done| then e.phase == PhaseOf(j, s.n) && e.num == j else e.phase == 1 - PhaseOf(j, s.n)
  }

  ghost predicate Tags(s: State) { Sized(s) && forall j: nat | s.consumed <= j < s.consumed + s.n :: Tagged(s, j) }

  /** What every run keeps as long as fewer commands were given up on than the
      ring can hold beside the one in progress. */
  ghost predicate Inv(s: State) { Counters(s) && InOrder(s) && Tags(s) && s.lost + 1 < s.n }

  // ---- ring arithmetic -------------------------------------------------------------------

  lemma {:induction false} NextIs(j: nat, n: nat)
    requires 0 < n
    ensures Next(Slot(j, n), n) == Slot(j + 1, n) && PhaseOf(j + 1, n) == Flip(PhaseOf(j, n), Slot(j + 1, n))
  {
    if j >= n { NextIs(j - n, n); }
  }

  /** Positions less than a ring apart are different entries. */
  lemma {:induction false} Distinct(i: nat, j: nat, n: nat)
    requires i < j < i + n
    ensures Slot(i, n) != Slot(j, n)
  {
    if i >= n { Distinct(i - n, j - n, n); }
  }

  // ---- every step keeps the invariant ------------------------------------------------------

  lemma InitialInv(n: nat, sq: seq<Cmd>)
    requires 2 <= n && |sq| == n
    ensures Inv(Initial(n, sq))
  {
  }

  /** Nothing the completion ring depends on has changed. */
  lemma SameTags(s: State, r: State)
    requires Tags(s) && Sized(r) && r.n == s.n && r.cq == s.cq && r.done == s.done && r.consumed == s.consumed
    ensures Tags(r)
  {
    forall j: nat | r.consumed <= j < r.consumed + r.n ensures Tagged(r, j) { assert Tagged(s, j); }
  }

  lemma IssueInOrder(s: State, cmd: Cmd)
    requires Inv(s) && !s.waiting
    ensures InOrder(Issue(s, cmd))
  {
    hide Tags, PhaseOf, Slot;
    var r := Issue(s, cmd);
    forall j: nat | |r.done| + |r.inflight| <= j < |r.log| ensures r.sq[Slot(j, r.n)] == r.log[j] {
      if j < |s.log| { Distinct(j, |s.log|, s.n); }
    }
    assert r.log[..|s.done| + |s.inflight|] == s.log[..|s.done| + |s.inflight|];
  }

  lemma IssueKeeps(s: State, cmd: Cmd)
    requires Inv(s) && !s.waiting
    ensures Inv(Issue(s, cmd))
  {
    hide Tags, InOrder, PhaseOf, Slot;
    NextIs(|s.log|, s.n);
    IssueInOrder(s, cmd);
    SameTags(s, Issue(s, cmd));
  }

  /** The poll sees a completion exactly when there is one to consume, and it
      is the oldest. */
  lemma SeenIsPosted(s: State)
    requires Inv(s)
    ensures Seen(s) <==> s.consumed < |s.done|
    ensures Seen(s) ==> s.cq[s.head].num == s.consumed
  {
    assert Tagged(s, s.consumed);
  }

  lemma ConsumeTags(s: State)
    requires Inv(s) && s.waiting && s.consumed < |s.done|
    ensures Tags(Consume(s))
  {
    var r := Consume(s);
    forall j: nat | r.consumed <= j < r.consumed + r.n ensures Tagged(r, j) {
      assert Tagged(s, if j < s.consumed + s.n then j else s.consumed);
    }
  }

  lemma ConsumeKeeps(s: State)
    requires Inv(s) && s.waiting && Seen(s)
    ensures Inv(Consume(s))
  {
    SeenIsPosted(s);
    NextIs(s.consumed, s.n);
    ConsumeTags(s);
  }

  lemma GiveUpKeeps(s: State)
    requires Inv(s) && s.waiting && s.lost + 2 < s.n
    ensures Inv(GiveUp(s))
  {
    SameTags(s, GiveUp(s));
  }

  lemma FetchInOrder(s: State)
    requires Inv(s) && s.sqHead != s.tailDoorbell
    ensures |s.done| + |s.inflight| < |s.log| && InOrder(Fetch(s))
  {
    var r, k := Fetch(s), |s.done| + |s.inflight|;
    assert s.sq[Slot(k, s.n)] == s.log[k];
    assert s.log[..k + 1] == s.log[..k] + [s.log[k]];
    assert r.done + r.inflight == s.done + s.inflight + [s.log[k]];
  }

  lemma FetchKeeps(s: State)
    requires Inv(s)
    ensures Inv(Fetch(s))
  {
    hide Tags, InOrder, PhaseOf, Slot;
    if s.sqHead != s.tailDoorbell {
      NextIs(|s.done| + |s.inflight|, s.n);
      FetchInOrder(s);
      SameTags(s, Fetch(s));
      assert Counters(Fetch(s));
    }
  }

  lemma PostTags(s: State, status: nat)
    requires Inv(s) && CanPost(s)
    ensures Tags(Post(s, status))
  {
    var r := Post(s, status);
    forall j: nat | r.consumed <= j < r.consumed + r.n ensures Tagged(r, j) {
      assert Tagged(s, j);
      if j < |s.done| { Distinct(j, |s.done|, s.n); } else if |s.done| < j { Distinct(|s.done|, j, s.n); }
    }
  }

  lemma PostKeeps(s: State, status: nat)
    requires Inv(s)
    ensures Inv(Post(s, status))
  {
    hide Tags, InOrder, PhaseOf, Slot;
    if CanPost(s) {
      NextIs(|s.done|, s.n);
      PostTags(s, status);
      PostInOrder(s, status);
      assert Counters(Post(s, status));
    }
  }

  lemma PostInOrder(s: State, status: nat)
    requires Inv(s) && CanPost(s)
    ensures InOrder(Post(s, status))
  {
    hide Tags, PhaseOf, Slot;
    assert Post(s, status).done + Post(s, status).inflight == s.done + s.inflight;
  }

  // ---- runs ----------------------------------------------------------------------------------

  datatype Step = DoIssue(cmd: Cmd) | DoPoll | DoGiveUp | DoFetch | DoPost(status: nat)

  /** The host issues only when idle, and polls or gives up only when waiting.
      The controller may step at any time. */
  predicate Enabled(s: State, step: Step) {
    match step
    case DoIssue(_) => !s.waiting
    case DoPoll => s.waiting
    case DoGiveUp => s.waiting
    case _ => true
  }

  function Apply(s: State, step: Step): (r: State)
    requires Sized(s)
    ensures Sized(r) && r.n == s.n && s.lost <= r.lost
  {
    match step
    case DoIssue(cmd) => Issue(s, cmd)
    case DoPoll => if Seen(s) then Consume(s) else s
    case DoGiveUp => GiveUp(s)
    case DoFetch => Fetch(s)
    case DoPost(status) => Post(s, status)
  }

  function Run(s: State, steps: seq<Step>): (r: State)
    requires Sized(s)
    ensures Sized(r) && r.n == s.n && s.lost <= r.lost
    decreases |steps|
  {
    if steps == [] then s else Run(Apply(s, steps[0]), steps[1..])
  }

  predicate AllEnabled(s: State, steps: seq<Step>)
    requires Sized(s)
    decreases |steps|
  {
    steps == [] || (Enabled(s, steps[0]) && AllEnabled(Apply(s, steps[0]), steps[1..]))
  }

  lemma StepKeeps(s: State, step: Step)
    requires Inv(s) && Enabled(s, step) && Apply(s, step).lost + 1 < s.n
    ensures Inv(Apply(s, step))
  {
    match step
    case DoIssue(cmd) => IssueKeeps(s, cmd);
    case DoPoll => if Seen(s) { ConsumeKeeps(s); }
    case DoGiveUp => GiveUpKeeps(s);
    case DoFetch => FetchKeeps(s);
    case DoPost(status) => PostKeeps(s, status);
  }

  lemma {:induction false} RunKeeps(s: State, steps: seq<Step>)
    requires Inv(s) && AllEnabled(s, steps) && Run(s, steps).lost + 1 < s.n
    ensures Inv(Run(s, steps))
    decreases |steps|
  {
    if steps != [] {
      StepKeeps(s, steps[0]);
      RunKeeps(Apply(s, steps[0]), steps[1..]);
    }
  }

  /** For any depth and any interleaving: the completion a poll consumes is for
      the command issued as many commands ago as were given up on, so it is
      the one just issued if and only if none was. */
  lemma ConsumedIsIssued(n: nat, sq: seq<Cmd>, steps: seq<Step>)
    requires 2 <= n && |sq| == n && AllEnabled(Initial(n, sq), steps)
    requires var s := Run(Initial(n, sq), steps);
             s.lost + 1 < n && s.waiting && Seen(s)
    ensures var s := Run(Initial(n, sq), steps);
            && 0 < |s.log| && s.cq[s.head].num == |s.log| - 1 - s.lost
            && (s.cq[s.head].num == |s.log| - 1 <==> s.lost == 0)
            && |s.done| > s.cq[s.head].num && s.done[s.cq[s.head].num] == s.log[s.cq[s.head].num]
  {
    var s := Run(Initial(n, sq), steps);
    InitialInv(n, sq);
    RunKeeps(Initial(n, sq), steps);
    SeenIsPosted(s);
    assert (s.done + s.inflight)[s.consumed] == s.log[..|s.done| + |s.inflight|][s.consumed];
  }

  /** While the host waits in vain the controller is never stuck. */
  lemma ControllerCanStep(s: State)
    requires Inv(s) && s.waiting && !Seen(s)
    ensures s.sqHead != s.tailDoorbell || CanPost(s)
  {
    SeenIsPosted(s);
    NextIs(|s.done|, s.n);
    if s.inflight == [] {
      Distinct(|s.done|, |s.log|, s.n);
    } else {
      Distinct(s.consumed, |s.done| + 1, s.n);
    }
  }

  /** The shortest mismatch: give up on `a`, issue `b`, and the late completion
      of `a` is taken for that of `b`. */
  lemma StaleCompletion(a: Cmd, b: Cmd, sq: seq<Cmd>)
    requires |sq| == 4
    ensures var steps := [DoIssue(a), DoGiveUp, DoIssue(b), DoFetch, DoPost(0)];
            var s := Run(Initial(4, sq), steps);
            && AllEnabled(Initial(4, sq), steps) && s.waiting && Seen(s)
            && s.log == [a, b] && s.cq[s.head].num == 0 && s.done == [a]
  {
    var steps := [DoIssue(a), DoGiveUp, DoIssue(b), DoFetch, DoPost(0)];
    var s0 := Initial(4, sq);
    var s1 := Issue(s0, a);
    var s2 := GiveUp(s1);
    var s3 := Issue(s2, b);
    var s4 := Fetch(s3);
    assert steps[1..] == [DoGiveUp, DoIssue(b), DoFetch, DoPost(0)];
    assert steps[1..][1..] == [DoIssue(b), DoFetch, DoPost(0)];
    assert steps[1..][1..][1..] == [DoFetch, DoPost(0)];
    assert steps[1..][1..][1..][1..] == [DoPost(0)];
    assert Run(s4, [DoPost(0)]) == Post(s4, 0) && AllEnabled(s4, [DoPost(0)]);
    assert Run(s3, [DoFetch, DoPost(0)]) == Post(s4, 0) && AllEnabled(s3, [DoFetch, DoPost(0)]);
    assert Run(s2, [DoIssue(b), DoFetch, DoPost(0)]) == Post(s4, 0) && AllEnabled(s2, [DoIssue(b), DoFetch, DoPost(0)]);
    assert Run(s1, [DoGiveUp, DoIssue(b), DoFetch, DoPost(0)]) == Post(s4, 0)
           && AllEnabled(s1, [DoGiveUp, DoIssue(b), DoFetch, DoPost(0)]);
  }
}
